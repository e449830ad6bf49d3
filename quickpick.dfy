/** What the quick-pick button's rejection sampling keeps from a stream of
    random draws. The loop itself is `LotteryForm.OnQuickPick`. */
module QuickPick {
  import opened Collections

  /** The draws the sampler keeps: every draw not already kept, in the order
      drawn. A draw equal to an earlier one is rejected and drawn again. */
  function FreshDraws(draws: seq<int>): seq<int>
    decreases |draws|
  {
    if draws == [] then []
    else
      var kept := FreshDraws(draws[..|draws| - 1]);
      var x := draws[|draws| - 1];
      if x in kept then kept else kept + [x]
  }

  /** One more draw: kept when it is new, rejected when it repeats. */
  lemma FreshDrawsStep(draws: seq<int>, pos: nat)
    requires pos < |draws|
    ensures FreshDraws(draws[..pos + 1]) ==
            if draws[pos] in FreshDraws(draws[..pos]) then FreshDraws(draws[..pos])
            else FreshDraws(draws[..pos]) + [draws[pos]]
  {
    assert draws[..pos + 1][..pos] == draws[..pos];
  }

  /** The inner `do ... while (usedNumbers.has(randomNum))` loop of the
      quick-pick handler, reading draws from position `start` on while `used`
      holds what was kept so far. It either finds the next value to keep, right
      after the draws it rejected, or runs out of draws having rejected them
      all. */
  method DrawFresh(draws: seq<int>, start: nat, used: set<int>) returns (found: bool, value: int, next: nat)
    requires start <= |draws|
    requires used == Elements(FreshDraws(draws[..start]))
    ensures start <= next <= |draws|
    ensures found ==> start < next && value == draws[next - 1] && value !in used &&
                      FreshDraws(draws[..next]) == FreshDraws(draws[..start]) + [value]
    ensures found ==> forall k :: start <= k < next - 1 ==> draws[k] in used
    ensures !found ==> next == |draws| && FreshDraws(draws) == FreshDraws(draws[..start])
  {
    ghost var kept := FreshDraws(draws[..start]);
    found, value, next := false, 0, start;
    while !found && next < |draws|
      invariant start <= next <= |draws|
      invariant !found ==> FreshDraws(draws[..next]) == kept
      invariant found ==> start < next && value == draws[next - 1] && value !in used &&
                          FreshDraws(draws[..next]) == kept + [value]
      invariant forall k :: start <= k < (if found then next - 1 else next) ==> draws[k] in used
      decreases |draws| - next
    {
      value := draws[next];
      FreshDrawsStep(draws, next);
      next := next + 1;
      found := value !in used;
    }
    if !found {
      assert draws[..next] == draws;
    }
  }

  /** The kept values are pairwise distinct and are exactly the values
      drawn. */
  lemma {:induction false} FreshDrawsSpec(draws: seq<int>)
    ensures Distinct(FreshDraws(draws))
    ensures Elements(FreshDraws(draws)) == Elements(draws)
  {
    if draws != [] {
      var t, x := draws[..|draws| - 1], draws[|draws| - 1];
      assert draws == t + [x];
      assert Elements(draws) == Elements(t) + {x};
      FreshDrawsSpec(t);
    }
  }

  /** What is kept from the first draws is the start of what is kept from
      them all: later draws only add values at the end. */
  lemma {:induction false} FreshDrawsPrefix(draws: seq<int>, pos: nat)
    requires pos <= |draws|
    ensures FreshDraws(draws[..pos]) <= FreshDraws(draws)
    decreases |draws| - pos
  {
    if pos < |draws| {
      FreshDrawsStep(draws, pos);
      FreshDrawsPrefix(draws, pos + 1);
    } else {
      assert draws[..pos] == draws;
    }
  }

  /** When the sampler has filled `count` slots from the first `pos` draws,
      or has used up the stream with fewer, the slots hold the start of
      everything the stream would give, as much of it as fits. */
  lemma FirstFreshDraws(draws: seq<int>, pos: nat, count: nat)
    requires pos <= |draws|
    requires |FreshDraws(draws[..pos])| == count || (|FreshDraws(draws[..pos])| < count && FreshDraws(draws) == FreshDraws(draws[..pos]))
    ensures var kept := FreshDraws(draws[..pos]);
            |kept| == (if count <= |FreshDraws(draws)| then count else |FreshDraws(draws)|) &&
            kept == FreshDraws(draws)[..|kept|]
  {
    FreshDrawsPrefix(draws, pos);
  }

  /** As many values are kept as the stream has distinct values; so all the
      fields get a value exactly when the stream holds enough of them. */
  lemma FreshDrawsCount(draws: seq<int>)
    ensures |FreshDraws(draws)| == |Elements(draws)|
  {
    FreshDrawsSpec(draws);
    DistinctIffFullSet(FreshDraws(draws));
  }
}
