/** Facts about the values held in a sequence of numbers, shared by the
    duplicate check of the validator and by the quick-pick generator. */
module Collections {

  /** The distinct values of a sequence: what `new Set(numbers)` holds. */
  function Elements(s: seq<int>): set<int>
  {
    set x | x in s
  }

  /** No value occurs twice. */
  predicate Distinct(s: seq<int>)
  {
    forall i, j :: 0 <= i < j < |s| ==> s[i] != s[j]
  }

  /** A sequence never has more distinct values than elements. */
  lemma {:induction false} ElementsBound(s: seq<int>)
    ensures |Elements(s)| <= |s|
  {
    if s != [] {
      var t, x := s[..|s| - 1], s[|s| - 1];
      assert s == t + [x];
      assert Elements(s) == Elements(t) + {x};
      ElementsBound(t);
    }
  }

  /** The set built from a sequence is as large as the sequence exactly when
      its elements are pairwise distinct. */
  lemma {:induction false} DistinctIffFullSet(s: seq<int>)
    ensures Distinct(s) <==> |Elements(s)| == |s|
  {
    if s != [] {
      var t, x := s[..|s| - 1], s[|s| - 1];
      assert s == t + [x];
      assert Elements(s) == Elements(t) + {x};
      DistinctIffFullSet(t);
      if x in t {
        var i :| 0 <= i < |t| && t[i] == x;
        assert s[i] == s[|s| - 1];
        ElementsBound(t);
      } else {
        assert x !in Elements(t);
        assert |Elements(s)| == |Elements(t)| + 1;
        assert Distinct(s) ==> Distinct(t) by {
          forall i, j | 0 <= i < j < |t| ensures Distinct(s) ==> t[i] != t[j] {
            assert t[i] == s[i] && t[j] == s[j];
          }
        }
      }
    }
  }

  /** Appending a value not yet present keeps a sequence distinct and adds
      the value to its set. */
  lemma DistinctAppend(s: seq<int>, x: int)
    requires Distinct(s) && x !in Elements(s)
    ensures Distinct(s + [x]) && Elements(s + [x]) == Elements(s) + {x}
  {
    assert forall i :: 0 <= i < |s| ==> (s + [x])[i] == s[i];
  }
}
