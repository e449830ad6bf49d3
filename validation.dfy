/** The submit handler's validation of an entry and the payload it builds
    from an accepted one. */
module Validation {
  import opened Collections
  import opened Text

  /** Why an entry is refused; each has its own alert on the page. */
  datatype Reason = MissingContactInfo | NumberOutOfRange | DuplicateNumbers

  /** A player's entry: trimmed name and email, the numbers in field order. */
  datatype Entry = Entry(name: string, email: string, numbers: seq<int>)

  datatype Verdict = Accepted(entry: Entry) | Rejected(reason: Reason)

  /** The smallest and largest number a player may pick. */
  const Lowest: int := 1
  const Highest: int := 99

  predicate InRange(x: int)
  {
    Lowest <= x <= Highest
  }

  /** What the validator guarantees of every entry it accepts. */
  predicate WellFormed(e: Entry)
  {
    !Blank(e.name) && !Blank(e.email) &&
    (forall i :: 0 <= i < |e.numbers| ==> InRange(e.numbers[i])) &&
    Distinct(e.numbers)
  }

  /** `parseInt(field) || 0`. */
  function FieldNumber(field: string): int
  {
    OrZero(ParseInt(field))
  }

  /** The numbers read from the fields, in field order. */
  function Numbers(fields: seq<string>): seq<int>
  {
    seq(|fields|, i requires 0 <= i < |fields| => FieldNumber(fields[i]))
  }

  /** The numbers outside the allowed range, as `filter` keeps them. The
      source's third disjunct, `isNaN(num)`, never holds after `|| 0`. */
  function OutOfRange(numbers: seq<int>): seq<int>
  {
    if numbers == [] then []
    else (if InRange(numbers[0]) then [] else [numbers[0]]) + OutOfRange(numbers[1..])
  }

  /** The filter keeps nothing exactly when every number is in range. */
  lemma {:induction false} OutOfRangeEmpty(numbers: seq<int>)
    ensures |OutOfRange(numbers)| == 0 <==> forall i :: 0 <= i < |numbers| ==> InRange(numbers[i])
  {
    if numbers != [] {
      OutOfRangeEmpty(numbers[1..]);
      assert forall i :: 1 <= i < |numbers| ==> numbers[i] == numbers[1..][i - 1];
    }
  }

  /** The submit handler's checks, in the order the page makes them: the
      contact details first, then the range of every number, then
      duplicates. */
  function Validate(fields: seq<string>, rawName: string, rawEmail: string): (v: Verdict)
    ensures v.Accepted? ==> WellFormed(v.entry) && |v.entry.numbers| == |fields|
  {
    var numbers := Numbers(fields);
    var name := Trim(rawName);
    var email := Trim(rawEmail);
    if name == [] || email == [] then Rejected(MissingContactInfo)
    else if |OutOfRange(numbers)| > 0 then Rejected(NumberOutOfRange)
    else if |Elements(numbers)| != |numbers| then Rejected(DuplicateNumbers)
    else
      OutOfRangeEmpty(numbers);
      DistinctIffFullSet(numbers);
      Accepted(Entry(name, email, numbers))
  }

  /** Some two fields read as the same number. */
  predicate HasRepeat(fields: seq<string>)
  {
    exists i, j :: 0 <= i < j < |fields| && FieldNumber(fields[i]) == FieldNumber(fields[j])
  }

  /** Some field reads as a number outside the range. */
  predicate HasOutOfRange(fields: seq<string>)
  {
    exists i :: 0 <= i < |fields| && !InRange(FieldNumber(fields[i]))
  }

  /** The range filter keeps something exactly when some field reads as a
      number out of range. */
  lemma OutOfRangeIff(fields: seq<string>)
    ensures |OutOfRange(Numbers(fields))| > 0 <==> HasOutOfRange(fields)
  {
    var numbers := Numbers(fields);
    OutOfRangeEmpty(numbers);
    if HasOutOfRange(fields) {
      var i :| 0 <= i < |fields| && !InRange(FieldNumber(fields[i]));
      assert !InRange(numbers[i]);
    }
  }

  /** The set of the numbers is smaller than their count exactly when two
      fields read as the same number. */
  lemma RepeatIff(fields: seq<string>)
    ensures |Elements(Numbers(fields))| != |Numbers(fields)| <==> HasRepeat(fields)
  {
    var numbers := Numbers(fields);
    DistinctIffFullSet(numbers);
    if HasRepeat(fields) {
      var i, j :| 0 <= i < j < |fields| && FieldNumber(fields[i]) == FieldNumber(fields[j]);
      assert numbers[i] == numbers[j];
    }
  }

  /** The verdict, stated with the three rules the page checks in turn. */
  lemma ValidateRules(fields: seq<string>, name: string, email: string)
    ensures Validate(fields, name, email) ==
            if Blank(name) || Blank(email) then Rejected(MissingContactInfo)
            else if HasOutOfRange(fields) then Rejected(NumberOutOfRange)
            else if HasRepeat(fields) then Rejected(DuplicateNumbers)
            else Accepted(Entry(Trim(name), Trim(email), Numbers(fields)))
  {
    OutOfRangeIff(fields);
    RepeatIff(fields);
  }

  /** The contact check comes first: the entry is refused for missing
      contact details exactly when the name or the email is all white space,
      whatever the numbers are. */
  lemma ContactRule(fields: seq<string>, name: string, email: string)
    ensures Validate(fields, name, email) == Rejected(MissingContactInfo) <==> Blank(name) || Blank(email)
  {
    ValidateRules(fields, name, email);
  }

  /** With the contact details present, the entry is refused for its range
      exactly when some field reads as a number below 1 or above 99. */
  lemma RangeRule(fields: seq<string>, name: string, email: string)
    ensures Validate(fields, name, email) == Rejected(NumberOutOfRange) <==>
            !Blank(name) && !Blank(email) && HasOutOfRange(fields)
  {
    ValidateRules(fields, name, email);
  }

  /** A field that does not parse (an empty one, say) reads as 0, so an
      entry with contact details and such a field is refused for its range. */
  lemma UnparsableFieldRule(fields: seq<string>, name: string, email: string, k: int)
    requires !Blank(name) && !Blank(email)
    requires 0 <= k < |fields| && ParseInt(fields[k]) == NaN
    ensures Validate(fields, name, email) == Rejected(NumberOutOfRange)
  {
    assert !InRange(FieldNumber(fields[k]));
    ValidateRules(fields, name, email);
  }

  /** With the contact details present and every number in range, the entry
      is refused for duplicates exactly when two fields read as the same
      number. */
  lemma DuplicateRule(fields: seq<string>, name: string, email: string)
    ensures Validate(fields, name, email) == Rejected(DuplicateNumbers) <==>
            !Blank(name) && !Blank(email) && !HasOutOfRange(fields) && HasRepeat(fields)
  {
    ValidateRules(fields, name, email);
  }

  /** The entry is accepted exactly when the contact details are present,
      every number is in range and no number repeats; the accepted entry holds
      the trimmed contact details and the numbers in field order. */
  lemma AcceptanceRule(fields: seq<string>, name: string, email: string)
    ensures Validate(fields, name, email).Accepted? <==>
            !Blank(name) && !Blank(email) && !HasOutOfRange(fields) && !HasRepeat(fields)
    ensures Validate(fields, name, email).Accepted? ==>
            Validate(fields, name, email).entry == Entry(Trim(name), Trim(email), Numbers(fields))
  {
    ValidateRules(fields, name, email);
  }

  /** The decimal renderings of the values, in order: what the inputs show
      after `input.value = randomNum`, and the parts that `join` puts
      together. */
  function Rendered(values: seq<int>): seq<string>
  {
    seq(|values|, i requires 0 <= i < |values| => Decimal(values[i]))
  }

  /** Writing the rendering of one more value over the first field after the
      rendered ones extends the rendered part by that value. */
  lemma RenderedStep(values: seq<int>, x: int, rest: seq<string>)
    requires |rest| >= 1
    ensures (Rendered(values) + rest)[|values| := Decimal(x)] == Rendered(values + [x]) + rest[1..]
  {
    var lhs := (Rendered(values) + rest)[|values| := Decimal(x)];
    var rhs := Rendered(values + [x]) + rest[1..];
    assert |lhs| == |rhs|;
    forall k | 0 <= k < |lhs| ensures lhs[k] == rhs[k] {
      if k > |values| {
        assert rhs[k] == rest[1..][k - |values| - 1];
      }
    }
  }

  /** Fields showing distinct in-range numbers, as quick pick leaves them,
      pass validation once the contact details are there, and the entry holds
      those very numbers. */
  lemma RenderedAccepted(values: seq<int>, name: string, email: string)
    requires !Blank(name) && !Blank(email)
    requires forall k :: 0 <= k < |values| ==> InRange(values[k])
    requires Distinct(values)
    ensures Validate(Rendered(values), name, email) == Accepted(Entry(Trim(name), Trim(email), values))
  {
    var fields := Rendered(values);
    forall k | 0 <= k < |fields| ensures FieldNumber(fields[k]) == values[k] {
      DecimalRoundTrip(values[k]);
    }
    assert Numbers(fields) == values;
    AcceptanceRule(fields, name, email);
  }

  /** The `luckyNumbers` field of the payload: `numbers.join(', ')`. */
  function LuckyNumbers(numbers: seq<int>): string
  {
    Join(Rendered(numbers))
  }

  /** Splitting `luckyNumbers` at its separators and parsing each piece gives
      the numbers back. */
  lemma LuckyNumbersRoundTrip(numbers: seq<int>)
    requires |numbers| >= 1
    ensures Numbers(Split(LuckyNumbers(numbers))) == numbers
  {
    var parts := Rendered(numbers);
    forall i | 0 <= i < |parts| ensures ',' !in parts[i] {
      DecimalHasNoComma(numbers[i]);
    }
    SplitJoin(parts);
    forall i | 0 <= i < |numbers| ensures FieldNumber(parts[i]) == numbers[i] {
      DecimalRoundTrip(numbers[i]);
    }
  }

  /** The record posted to the form-collection service. The timestamp and the
      user agent come from the browser and are opaque here. */
  datatype Payload = Payload(name: string, email: string, luckyNumbers: string,
                             timestamp: string, userAgent: string)

  function MakePayload(entry: Entry, timestamp: string, userAgent: string): (p: Payload)
    ensures p.name == entry.name && p.email == entry.email
    ensures p.timestamp == timestamp && p.userAgent == userAgent
    ensures |entry.numbers| >= 1 ==> Numbers(Split(p.luckyNumbers)) == entry.numbers
  {
    var p := Payload(entry.name, entry.email, LuckyNumbers(entry.numbers), timestamp, userAgent);
    assert |entry.numbers| >= 1 ==> Numbers(Split(p.luckyNumbers)) == entry.numbers by {
      if |entry.numbers| >= 1 {
        LuckyNumbersRoundTrip(entry.numbers);
      }
    }
    p
  }
}
