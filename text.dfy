/** The string operations of JavaScript that the form relies on:
    `String.prototype.trim`, `parseInt` without a radix argument, the decimal
    rendering of an integer Number, and `join(', ')` with its inverse
    `split(', ')`. */
module Text {

  /** StrWhiteSpaceChar of ECMAScript: the WhiteSpace code points (tab,
      vertical tab, form feed, the byte-order mark and every space separator)
      and the LineTerminator code points. Both `trim` and `parseInt` skip
      exactly these. */
  predicate IsWhiteSpace(c: char)
  {
    var u := c as int;
    (0x09 <= u <= 0x0D) || u == 0x20 || u == 0xA0 || u == 0x1680 ||
    (0x2000 <= u <= 0x200A) || u == 0x2028 || u == 0x2029 || u == 0x202F ||
    u == 0x205F || u == 0x3000 || u == 0xFEFF
  }

  /** Every character is white space (this includes the empty string). */
  predicate Blank(s: string)
  {
    forall k :: 0 <= k < |s| ==> IsWhiteSpace(s[k])
  }

  /** Drops the leading white space. */
  function TrimStart(s: string): (r: string)
    ensures |r| <= |s|
    decreases |s|
  {
    if s != [] && IsWhiteSpace(s[0]) then TrimStart(s[1..]) else s
  }

  /** Drops the trailing white space. */
  function TrimEnd(s: string): (r: string)
    ensures |r| <= |s|
    decreases |s|
  {
    if s != [] && IsWhiteSpace(s[|s| - 1]) then TrimEnd(s[..|s| - 1]) else s
  }

  /** What is left after the leading white space is the suffix of `s` that
      starts at its first other character. */
  lemma {:induction false} TrimStartSpec(s: string)
    ensures var r := TrimStart(s);
            r == s[|s| - |r|..] && Blank(s[..|s| - |r|]) && (r != [] ==> !IsWhiteSpace(r[0]))
    decreases |s|
  {
    if s != [] && IsWhiteSpace(s[0]) {
      TrimStartSpec(s[1..]);
      var r := TrimStart(s);
      assert s[1..][|s| - 1 - |r|..] == s[|s| - |r|..];
      assert forall k :: 1 <= k < |s| - |r| ==> s[k] == s[1..][..|s| - 1 - |r|][k - 1];
    }
  }

  /** What is left after the trailing white space is the prefix of `s` that
      ends at its last other character. */
  lemma {:induction false} TrimEndSpec(s: string)
    ensures var r := TrimEnd(s);
            r == s[..|r|] && Blank(s[|r|..]) && (r != [] ==> !IsWhiteSpace(r[|r| - 1]))
    decreases |s|
  {
    if s != [] && IsWhiteSpace(s[|s| - 1]) {
      TrimEndSpec(s[..|s| - 1]);
      var r := TrimEnd(s);
      assert s[..|s| - 1][..|r|] == s[..|r|];
      assert forall k :: |r| <= k < |s| - 1 ==> s[k] == s[..|s| - 1][|r|..][k - |r|];
    }
  }

  lemma BlankConcat(a: string, b: string)
    ensures Blank(a + b) <==> Blank(a) && Blank(b)
  {
    if Blank(a) && Blank(b) {
      forall k | 0 <= k < |a + b| ensures IsWhiteSpace((a + b)[k]) {
        if k >= |a| {
          assert (a + b)[k] == b[k - |a|];
        }
      }
    }
    if Blank(a + b) {
      forall k | 0 <= k < |a| ensures IsWhiteSpace(a[k]) {
        assert (a + b)[k] == a[k];
      }
      forall k | 0 <= k < |b| ensures IsWhiteSpace(b[k]) {
        assert (a + b)[|a| + k] == b[k];
      }
    }
  }

  /** Nothing is left after dropping the leading white space exactly when
      the whole string is white space. */
  lemma TrimStartBlank(s: string)
    ensures TrimStart(s) == [] <==> Blank(s)
  {
    var t := TrimStart(s);
    TrimStartSpec(s);
    assert s == s[..|s| - |t|] + t;
    BlankConcat(s[..|s| - |t|], t);
  }

  /** `s.trim()`: it is empty exactly when `s` is all white space, and it
      neither starts nor ends with white space. */
  function Trim(s: string): (r: string)
    ensures r == [] <==> Blank(s)
    ensures r != [] ==> !IsWhiteSpace(r[0]) && !IsWhiteSpace(r[|r| - 1])
  {
    var t := TrimStart(s);
    TrimStartSpec(s);
    TrimStartBlank(s);
    TrimEndSpec(t);
    TrimEnd(t)
  }

  /** `r` is the slice of `s` from `i` on, with only white space cut off
      before and after it. */
  predicate IsTrimmedSlice(s: string, i: int, r: string)
  {
    0 <= i <= |s| - |r| && r == s[i..i + |r|] && Blank(s[..i]) && Blank(s[i + |r|..])
  }

  /** What `trim` keeps is a slice of the input with only white space cut
      off on either side. */
  lemma TrimSlice(s: string)
    ensures exists i :: IsTrimmedSlice(s, i, Trim(s))
  {
    var t := TrimStart(s);
    var r := TrimEnd(t);
    TrimStartSpec(s);
    TrimEndSpec(t);
    var i := |s| - |t|;
    assert Trim(s) == r;
    assert r == s[i..i + |r|];
    assert s[i + |r|..] == t[|r|..];
    assert IsTrimmedSlice(s, i, r);
  }

  /** A JavaScript Number as `parseInt` can produce it: NaN or an integer. */
  datatype Number = NaN | Int(value: int)

  /** `x || 0`: NaN and zero are the falsy Numbers, and both become 0. */
  function OrZero(x: Number): int
  {
    match x
    case NaN => 0
    case Int(v) => v
  }

  /** The value of a character as a digit: 0-9 for the decimal digits, 10-35
      for the Latin letters in either case, and 36 for anything else. */
  function DigitValue(c: char): nat
  {
    if '0' <= c <= '9' then c as int - '0' as int
    else if 'a' <= c <= 'z' then c as int - 'a' as int + 10
    else if 'A' <= c <= 'Z' then c as int - 'A' as int + 10
    else 36
  }

  /** The longest prefix of `s` made of digits of the given radix. */
  function DigitRun(s: string, radix: nat): (r: string)
    ensures |r| <= |s| && r == s[..|r|]
    ensures forall k :: 0 <= k < |r| ==> DigitValue(r[k]) < radix
    ensures |r| < |s| ==> DigitValue(s[|r|]) >= radix
    decreases |s|
  {
    if s != [] && DigitValue(s[0]) < radix then [s[0]] + DigitRun(s[1..], radix) else []
  }

  /** The value of a digit string in the given radix, most significant first. */
  function DigitsValue(digits: string, radix: nat): nat
    decreases |digits|
  {
    if digits == [] then 0
    else DigitsValue(digits[..|digits| - 1], radix) * radix + DigitValue(digits[|digits| - 1])
  }

  /** The unsigned part of `parseInt`: a `0x` or `0X` prefix switches to
      radix 16, then the longest run of digits is read; no digits at all
      gives NaN. */
  function ParseMagnitude(u: string): Number
  {
    var hex := |u| >= 2 && u[0] == '0' && (u[1] == 'x' || u[1] == 'X');
    var radix := if hex then 16 else 10;
    var digits := DigitRun(if hex then u[2..] else u, radix);
    if digits == [] then NaN else Int(DigitsValue(digits, radix))
  }

  function Negate(x: Number): Number
  {
    match x
    case NaN => NaN
    case Int(v) => Int(-v)
  }

  /** `parseInt(s)` with no radix argument: skip leading white space, take an
      optional sign, then read the magnitude. */
  function ParseInt(s: string): Number
  {
    var t := TrimStart(s);
    if t != [] && t[0] == '-' then Negate(ParseMagnitude(t[1..]))
    else if t != [] && t[0] == '+' then ParseMagnitude(t[1..])
    else ParseMagnitude(t)
  }

  function DigitChar(d: nat): (c: char)
    requires d < 10
    ensures DigitValue(c) == d && '0' <= c <= '9'
  {
    ('0' as int + d) as char
  }

  /** The decimal digits of a natural number, without leading zeros. */
  function NaturalDecimal(n: nat): (r: string)
    ensures |r| >= 1
    ensures forall k :: 0 <= k < |r| ==> '0' <= r[k] <= '9'
    ensures r[0] == '0' ==> n == 0
  {
    if n < 10 then [DigitChar(n)] else NaturalDecimal(n / 10) + [DigitChar(n % 10)]
  }

  /** `String(n)` for an integer Number whose magnitude is below 10^21. */
  function Decimal(n: int): (r: string)
    ensures |r| >= 1
    ensures r[0] == '-' <==> n < 0
    ensures n < 0 ==> |r| >= 2 && r[1] != '0'
    ensures r[0] == '0' ==> n == 0
    ensures forall k :: (if n < 0 then 1 else 0) <= k < |r| ==> '0' <= r[k] <= '9'
  {
    if n < 0 then "-" + NaturalDecimal(-n) else NaturalDecimal(n)
  }

  lemma {:induction false} NaturalDecimalValue(n: nat)
    ensures DigitsValue(NaturalDecimal(n), 10) == n
  {
    var r := NaturalDecimal(n);
    if n >= 10 {
      assert r[..|r| - 1] == NaturalDecimal(n / 10);
      NaturalDecimalValue(n / 10);
    }
  }

  /** Reading the digits of a natural number gives the number back. */
  lemma NaturalRoundTrip(m: nat)
    ensures ParseMagnitude(NaturalDecimal(m)) == Int(m)
  {
    var d := NaturalDecimal(m);
    assert !(|d| >= 2 && d[0] == '0');
    assert DigitRun(d, 10) == d;
    NaturalDecimalValue(m);
  }

  /** Parsing the decimal rendering of an integer gives the integer back. */
  lemma DecimalRoundTrip(n: int)
    ensures ParseInt(Decimal(n)) == Int(n)
  {
    var s := Decimal(n);
    assert !IsWhiteSpace(s[0]) by {
      assert s[0] == '-' || '0' <= s[0] <= '9';
    }
    assert TrimStart(s) == s;
    if n < 0 {
      var m: nat := -n;
      assert s[0] == '-' && s[1..] == NaturalDecimal(m);
      NaturalRoundTrip(m);
      assert ParseMagnitude(s[1..]) == Int(m);
      assert ParseInt(s) == Negate(Int(m));
    } else {
      assert s[0] != '-' && s[0] != '+';
      NaturalRoundTrip(n);
    }
  }

  /** A rendering never contains the separator's comma. */
  lemma DecimalHasNoComma(n: int)
    ensures ',' !in Decimal(n)
  {
    var s := Decimal(n);
    forall k | 0 <= k < |s| ensures s[k] != ',' {
      if n < 0 && k > 0 {
        assert s[k] == NaturalDecimal(-n)[k - 1];
      }
    }
  }

  /** The separator that `join(', ')` puts between the parts. */
  const Separator: string := ", "

  /** `parts.join(', ')`. */
  function Join(parts: seq<string>): string
  {
    if |parts| == 0 then ""
    else if |parts| == 1 then parts[0]
    else parts[0] + Separator + Join(parts[1..])
  }

  /** `s.split(', ')`: the pieces between the separators, scanning from the
      left; always at least one piece. */
  function Split(s: string): (parts: seq<string>)
    ensures |parts| >= 1
    decreases |s|
  {
    if |s| >= 2 && s[..2] == Separator then [""] + Split(s[2..])
    else if s == [] then [""]
    else
      var rest := Split(s[1..]);
      [[s[0]] + rest[0]] + rest[1..]
  }

  /** A piece without a comma is read up to the first separator after it. */
  lemma {:induction false} SplitPiece(p: string, t: string)
    requires ',' !in p
    ensures Split(p + Separator + t) == [p] + Split(t)
    ensures Split(p) == [p]
  {
    var s := p + Separator + t;
    if p == [] {
      assert s == Separator + t;
      assert s[..2] == Separator && s[2..] == t;
    } else {
      assert p[0] != ',' && s[0] == p[0];
      assert s[..2] != Separator by {
        assert s[..2][0] == p[0];
      }
      assert s[1..] == p[1..] + Separator + t;
      assert ',' !in p[1..] by {
        forall k | 0 <= k < |p| - 1 ensures p[1..][k] != ',' {
          assert p[1..][k] == p[k + 1];
        }
      }
      SplitPiece(p[1..], t);
      var rest := Split(s[1..]);
      assert rest == [p[1..]] + Split(t);
      assert Split(s) == [[s[0]] + rest[0]] + rest[1..];
      assert [p[0]] + p[1..] == p;
      assert |p| >= 2 ==> p[..2] != Separator by {
        if |p| >= 2 {
          assert p[..2][0] == p[0];
        }
      }
      assert Split(p) == [[p[0]] + Split(p[1..])[0]] + Split(p[1..])[1..];
    }
  }

  /** Splitting a join gives the parts back when no part has a comma. */
  lemma {:induction false} SplitJoin(parts: seq<string>)
    requires |parts| >= 1
    requires forall i :: 0 <= i < |parts| ==> ',' !in parts[i]
    ensures Split(Join(parts)) == parts
  {
    if |parts| == 1 {
      SplitPiece(parts[0], "");
    } else {
      SplitPiece(parts[0], Join(parts[1..]));
      SplitJoin(parts[1..]);
    }
  }
}
