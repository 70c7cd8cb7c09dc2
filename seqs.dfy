/** Order-preserving selection from a sequence: Python's list building with a
    guarded `append` and JavaScript's `Array.prototype.filter` both compute it. */
module Seqs {

  /** The elements of `s` for which `keep` holds, in their order in `s`. */
  function Filter<T>(s: seq<T>, keep: T -> bool): (r: seq<T>)
    ensures |r| <= |s|
    ensures forall k :: 0 <= k < |r| ==> keep(r[k])
  {
    if |s| == 0 then []
    else
      var init := Filter(s[..|s| - 1], keep);
      if keep(s[|s| - 1]) then init + [s[|s| - 1]] else init
  }

  /** The positions in `s` of the elements that `keep` selects, ascending. */
  function KeptIndices<T>(s: seq<T>, keep: T -> bool): seq<int>
  {
    if |s| == 0 then []
    else
      var init := KeptIndices(s[..|s| - 1], keep);
      if keep(s[|s| - 1]) then init + [|s| - 1] else init
  }

  /** `Filter(s, keep)` is the subsequence of `s` at the strictly increasing
      positions `KeptIndices(s, keep)`, and those positions are exactly the ones
      whose element `keep` selects: nothing selected is dropped, nothing else is
      kept, and the order of `s` is preserved. */
  lemma {:induction false} FilterIndices<T>(s: seq<T>, keep: T -> bool)
    ensures var r, idx := Filter(s, keep), KeptIndices(s, keep);
      && |r| == |idx|
      && (forall k :: 0 <= k < |idx| ==> 0 <= idx[k] < |s| && r[k] == s[idx[k]])
      && (forall a, b :: 0 <= a < b < |idx| ==> idx[a] < idx[b])
      && (forall j :: 0 <= j < |s| ==> (j in idx <==> keep(s[j])))
  {
    if |s| > 0 {
      var init := s[..|s| - 1];
      FilterIndices(init, keep);
      var idx := KeptIndices(s, keep);
      var idxInit := KeptIndices(init, keep);
      forall j | 0 <= j < |s|
        ensures j in idx <==> keep(s[j])
      {
        if j < |s| - 1 {
          assert init[j] == s[j];
          assert j in idx <==> j in idxInit;
        }
      }
    }
  }

  /** When `keep` selects every element, the filter returns `s` unchanged. */
  lemma {:induction false} FilterKeepsAll<T>(s: seq<T>, keep: T -> bool)
    requires forall k :: 0 <= k < |s| ==> keep(s[k])
    ensures Filter(s, keep) == s
  {
    if |s| > 0 {
      FilterKeepsAll(s[..|s| - 1], keep);
      assert s[..|s| - 1] + [s[|s| - 1]] == s;
    }
  }

  /** The filter is empty exactly when `keep` selects no element. */
  lemma {:induction false} FilterEmptyIff<T>(s: seq<T>, keep: T -> bool)
    ensures Filter(s, keep) == [] <==> forall k :: 0 <= k < |s| ==> !keep(s[k])
  {
    if |s| > 0 {
      var init := s[..|s| - 1];
      FilterEmptyIff(init, keep);
      if forall k :: 0 <= k < |s| ==> !keep(s[k]) {
        assert forall k :: 0 <= k < |init| ==> !keep(init[k]) by {
          forall k | 0 <= k < |init| ensures !keep(init[k]) {
            assert init[k] == s[k];
          }
        }
      } else if !keep(s[|s| - 1]) {
        var k :| 0 <= k < |s| && keep(s[k]);
        assert init[k] == s[k];
      }
    }
  }
}
