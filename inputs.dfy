/** The per-field rules of the nine number inputs: the two-character limit
    and the automatic focus moves. */
module Inputs {

  /** The most characters a number input keeps. */
  const MaxLength: nat := 2

  /** The value the input handler leaves in a field after something was
      typed: at most two characters, the start of what was typed, and what
      was typed itself when it was short enough already. */
  function Truncate(typed: string): (r: string)
    ensures |r| <= MaxLength && |r| <= |typed| && r == typed[..|r|]
    ensures |typed| <= MaxLength ==> r == typed
    ensures |typed| > MaxLength ==> |r| == MaxLength
  {
    if |typed| > MaxLength then typed[..MaxLength] else typed
  }

  /** Which element has the keyboard focus: one of the number inputs, by
      index, or some other element of the page. */
  datatype Focus = Elsewhere | Number(index: nat)

  /** The focus is on an existing number input or elsewhere. */
  predicate FocusWithin(f: Focus, count: nat)
  {
    f.Number? ==> f.index < count
  }

  /** The focus after input `index`'s handler ran with `value` in it: it moves
      to the next input only when the field is full and is not the last one. */
  function FocusAfterInput(index: nat, value: string, count: nat, current: Focus): (f: Focus)
    requires index < count && FocusWithin(current, count)
    ensures FocusWithin(f, count)
    ensures |value| == MaxLength && index < count - 1 ==> f == Number(index + 1)
    ensures !(|value| == MaxLength && index < count - 1) ==> f == current
  {
    if |value| == MaxLength && index < count - 1 then Number(index + 1) else current
  }

  /** The key name the keydown handler reacts to. */
  const Backspace: string := "Backspace"

  /** The focus after a key went down in input `index` holding `value`: it
      moves to the previous input only on Backspace in an empty field that is
      not the first one. */
  function FocusAfterKeyDown(index: nat, key: string, value: string, count: nat, current: Focus): (f: Focus)
    requires index < count && FocusWithin(current, count)
    ensures FocusWithin(f, count)
    ensures key == Backspace && value == "" && index > 0 ==> f == Number(index - 1)
    ensures !(key == Backspace && value == "" && index > 0) ==> f == current
  {
    if key == Backspace && value == "" && index > 0 then Number(index - 1) else current
  }
}
