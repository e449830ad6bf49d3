/** The lottery form as the page holds it: the nine number inputs, the name
    and email inputs, the keyboard focus and the submit button, with the event
    handlers that change them. */
module Form {
  import opened Text
  import opened Collections
  import opened Validation
  import opened QuickPick
  import opened Inputs

  /** The submit button's text while a submission is outstanding. */
  const SubmittingLabel: string := "\U{1F3B2} SUBMITTING YOUR LUCKY NUMBERS... \U{1F3B2}"

  /** The submit button's lifecycle. While a submission is outstanding the
      handler's closure holds the button's text from before and the entry
      that was sent. */
  datatype Phase = Idle | Submitting(originalText: string, entry: Entry)

  /** How the form-collection service answered: a success status, or a
      failure status or a transport error (the page treats both alike). */
  datatype Response = Ok | Fail

  /** What a submit attempt led to: nothing (the button was disabled), an
      alert naming the rule that failed, or a POST of the payload. */
  datatype SubmitOutcome = Ignored | Refused(reason: Reason) | Sent(payload: Payload)

  /** What the player sees when the service answers: the success banner with
      their name and numbers, or the alert asking them to try again. */
  datatype ResponseOutcome = Confirmed(name: string, numbers: seq<int>) | RetryPrompt

  class LotteryForm {
    /** The values of the number inputs, in page order. */
    const numbers: array<string>
    var name: string
    var email: string
    var focus: Focus
    var buttonText: string
    var disabled: bool
    var phase: Phase

    /** The focus is on an existing input or elsewhere, and the button is
        disabled, with the submitting text, exactly while a submission is
        outstanding. */
    ghost predicate Valid()
      reads this
    {
      FocusWithin(focus, numbers.Length) &&
      (disabled <==> phase.Submitting?) &&
      (phase.Submitting? ==> buttonText == SubmittingLabel)
    }

    /** A freshly loaded form with `count` empty number inputs and a submit
        button labelled `caption`. */
    constructor (count: nat, caption: string)
      ensures Valid() && fresh(numbers) && numbers.Length == count
      ensures forall k :: 0 <= k < count ==> numbers[k] == ""
      ensures name == "" && email == "" && focus == Elsewhere
      ensures buttonText == caption && phase == Idle
    {
      numbers := new string[count](_ => "");
      name, email, focus := "", "", Elsewhere;
      buttonText, disabled, phase := caption, false, Idle;
    }

    /** The `input` handler of number input `index`, run after the browser
        put `typed` in the field: it cuts the value to two characters and
        moves the focus on when the field is full. */
    method OnInput(index: nat, typed: string)
      requires Valid() && index < numbers.Length
      modifies numbers, this`focus
      ensures Valid()
      ensures numbers[..] == old(numbers[..])[index := Truncate(typed)]
      ensures focus == FocusAfterInput(index, Truncate(typed), numbers.Length, old(focus))
    {
      numbers[index] := typed;
      if |numbers[index]| > MaxLength {
        numbers[index] := numbers[index][..MaxLength];
      }
      if |numbers[index]| == MaxLength && index < numbers.Length - 1 {
        focus := Number(index + 1);
      }
    }

    /** The `keydown` handler of number input `index`: Backspace in an empty
        field moves the focus back. It runs before the key changes the
        value. */
    method OnKeyDown(index: nat, key: string)
      requires Valid() && index < numbers.Length
      modifies this`focus
      ensures Valid()
      ensures focus == FocusAfterKeyDown(index, key, numbers[index], numbers.Length, old(focus))
    {
      if key == Backspace && numbers[index] == "" && index > 0 {
        focus := Number(index - 1);
      }
    }

    /** The quick-pick button's handler. `draws` are the successive outputs
        of the random draw, each in [1, 99]. Each input in turn gets the next
        draw that is not used yet; `filled` is how many inputs got one, which
        is all of them unless the stream runs out first. The slots filled hold
        the first distinct draws, in the order drawn; the other inputs keep
        their values. */
    method OnQuickPick(draws: seq<int>) returns (filled: nat)
      requires Valid()
      requires forall k :: 0 <= k < |draws| ==> InRange(draws[k])
      modifies numbers
      ensures Valid()
      ensures filled == if numbers.Length <= |FreshDraws(draws)| then numbers.Length else |FreshDraws(draws)|
      ensures Distinct(FreshDraws(draws)[..filled])
      ensures forall k :: 0 <= k < filled ==> InRange(FreshDraws(draws)[k])
      ensures numbers[..] == Rendered(FreshDraws(draws)[..filled]) + old(numbers[filled..])
    {
      ghost var initial := numbers[..];
      var used: set<int> := {};
      ghost var picks: seq<int> := [];
      var pos := 0;
      var i := 0;
      while i < numbers.Length
        invariant 0 <= i <= numbers.Length && 0 <= pos <= |draws|
        invariant picks == FreshDraws(draws[..pos]) && |picks| == i
        invariant used == Elements(picks)
        invariant Distinct(picks)
        invariant forall k :: 0 <= k < i ==> InRange(picks[k])
        invariant numbers[..] == Rendered(picks) + initial[i..]
        decreases numbers.Length - i
      {
        var found, randomNum;
        found, randomNum, pos := DrawFresh(draws, pos, used);
        if !found {
          // the stream ran out before a fresh value; the page would go on drawing
          assert draws[..pos] == draws;
          break;
        }
        DistinctAppend(picks, randomNum);
        RenderedStep(picks, randomNum, initial[i..]);
        assert initial[i..][1..] == initial[i + 1..];
        used := used + {randomNum};
        picks := picks + [randomNum];
        numbers[i] := Decimal(randomNum);
        i := i + 1;
      }
      filled := i;
      FirstFreshDraws(draws, pos, numbers.Length);
    }

    /** The submit handler. A disabled button starts no submission. Otherwise
        the entry is validated; a refused one changes nothing, and an accepted
        one disables the button, shows the submitting text and is posted. */
    method OnSubmit(timestamp: string, userAgent: string) returns (out: SubmitOutcome)
      requires Valid()
      modifies this`buttonText, this`disabled, this`phase
      ensures Valid()
      ensures old(disabled) ==> out == Ignored && phase == old(phase) && buttonText == old(buttonText)
      ensures !old(disabled) ==>
        match Validate(numbers[..], name, email)
        case Rejected(reason) =>
          out == Refused(reason) && phase == Idle && !disabled && buttonText == old(buttonText)
        case Accepted(entry) =>
          out == Sent(MakePayload(entry, timestamp, userAgent)) &&
          phase == Submitting(old(buttonText), entry) && disabled && buttonText == SubmittingLabel
    {
      if disabled {
        return Ignored;
      }
      var verdict := Validate(numbers[..], name, email);
      match verdict
      case Rejected(reason) =>
        out := Refused(reason);
      case Accepted(entry) =>
        var originalText := buttonText;
        buttonText := SubmittingLabel;
        disabled := true;
        phase := Submitting(originalText, entry);
        out := Sent(MakePayload(entry, timestamp, userAgent));
    }

    /** The service's answer to the outstanding submission. On success the
        banner shows the entry and the form is reset to empty fields; on
        failure the player is asked to retry and every field keeps its value.
        Either way the button is enabled again with its old text. */
    method OnResponse(response: Response) returns (out: ResponseOutcome)
      requires Valid() && phase.Submitting?
      modifies numbers, this`name, this`email, this`buttonText, this`disabled, this`phase
      ensures Valid()
      ensures phase == Idle && !disabled && buttonText == old(phase.originalText)
      ensures response == Ok ==>
        out == Confirmed(old(phase.entry.name), old(phase.entry.numbers)) &&
        name == "" && email == "" && forall k :: 0 <= k < numbers.Length ==> numbers[k] == ""
      ensures response == Fail ==>
        out == RetryPrompt && name == old(name) && email == old(email) && numbers[..] == old(numbers[..])
    {
      var pending := phase;
      if response == Ok {
        out := Confirmed(pending.entry.name, pending.entry.numbers);
        // form.reset()
        forall k | 0 <= k < numbers.Length {
          numbers[k] := "";
        }
        name, email := "", "";
      } else {
        out := RetryPrompt;
      }
      // finally
      buttonText := pending.originalText;
      disabled := false;
      phase := Idle;
    }
  }

  /** Inputs that quick pick filled from in-range draws, all of them, pass
      validation as soon as the name and the email are there, and the entry
      holds the drawn numbers in the order drawn. */
  lemma QuickPickAccepted(draws: seq<int>, count: nat, name: string, email: string)
    requires forall k :: 0 <= k < |draws| ==> InRange(draws[k])
    requires count <= |FreshDraws(draws)|
    requires !Blank(name) && !Blank(email)
    ensures Validate(Rendered(FreshDraws(draws)[..count]), name, email) ==
            Accepted(Entry(Trim(name), Trim(email), FreshDraws(draws)[..count]))
  {
    var kept := FreshDraws(draws);
    var picks := kept[..count];
    FreshDrawsSpec(draws);
    forall k | 0 <= k < |picks| ensures InRange(picks[k]) {
      assert picks[k] == kept[k] && kept[k] in Elements(kept);
      assert picks[k] in Elements(draws);
    }
    forall i, j | 0 <= i < j < |picks| ensures picks[i] != picks[j] {
      assert picks[i] == kept[i] && picks[j] == kept[j];
    }
    RenderedAccepted(picks, name, email);
  }

  /** A submission the service fails leaves the form as it was, so sending it
      again posts the same entry; only the timestamp is new. */
  method RetryAfterFailure(form: LotteryForm, firstTime: string, secondTime: string, userAgent: string)
    returns (first: SubmitOutcome, second: SubmitOutcome)
    requires form.Valid() && !form.disabled
    requires Validate(form.numbers[..], form.name, form.email).Accepted?
    modifies form, form.numbers
    ensures form.Valid() && form.disabled
    ensures first.Sent? && second.Sent?
    ensures second.payload == first.payload.(timestamp := secondTime)
    ensures form.numbers[..] == old(form.numbers[..]) && form.name == old(form.name) && form.email == old(form.email)
  {
    first := form.OnSubmit(firstTime, userAgent);
    var answer := form.OnResponse(Fail);
    second := form.OnSubmit(secondTime, userAgent);
  }
}
