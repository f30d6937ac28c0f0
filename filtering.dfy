/** Boolean-mask selection of rows, df[mask]: the rows that satisfy a predicate, in
    their original order and with their multiplicity. */
module Filtering {

  /** The elements of s that satisfy keep, in the order of s. */
  function Filter<T(!new)>(s: seq<T>, keep: T -> bool): (r: seq<T>)
    ensures |r| <= |s|
    ensures forall x :: x in r <==> x in s && keep(x)
    ensures forall x :: multiset(r)[x] == if keep(x) then multiset(s)[x] else 0
    ensures (forall x :: x in s ==> keep(x)) ==> r == s
    decreases |s|
  {
    if s == [] then []
    else
      var init := Filter(s[..|s| - 1], keep);
      var last := s[|s| - 1];
      assert s == s[..|s| - 1] + [last];
      assert multiset(s) == multiset(s[..|s| - 1]) + multiset{last};
      if keep(last) then init + [last] else init
  }

  /** The selected elements sit at strictly increasing positions of s, and a
      position of s is selected exactly when its element satisfies keep. */
  lemma {:induction false} FilterPositions<T(!new)>(s: seq<T>, keep: T -> bool) returns (idx: seq<nat>)
    ensures |idx| == |Filter(s, keep)|
    ensures forall k :: 0 <= k < |idx| ==> idx[k] < |s| && Filter(s, keep)[k] == s[idx[k]]
    ensures forall k, l :: 0 <= k < l < |idx| ==> idx[k] < idx[l]
    ensures forall j :: 0 <= j < |s| ==> (keep(s[j]) <==> j in idx)
    decreases |s|
  {
    if s == [] {
      idx := [];
    } else {
      var n := |s| - 1;
      var pre := FilterPositions(s[..n], keep);
      var init := Filter(s[..n], keep);
      FilterSnoc(s, keep);
      idx := if keep(s[n]) then pre + [n] else pre;
      FilterPositionsStep(s, keep, pre, idx);
      PickedElements(s, init, Filter(s, keep), pre, idx, keep(s[n]));
    }
  }

  /** Filter takes the last element exactly when it is kept. */
  lemma FilterSnoc<T(!new)>(s: seq<T>, keep: T -> bool)
    requires |s| > 0
    ensures Filter(s, keep) == if keep(s[|s| - 1]) then Filter(s[..|s| - 1], keep) + [s[|s| - 1]]
                               else Filter(s[..|s| - 1], keep)
  {
  }

  /** The positions of the selection of s[..n], extended by n when s[n] is taken,
      pick the selection of s. */
  lemma PickedElements<T>(s: seq<T>, init: seq<T>, f: seq<T>, pre: seq<nat>, idx: seq<nat>, taken: bool)
    requires |s| > 0 && |pre| == |init|
    requires forall k :: 0 <= k < |pre| ==> pre[k] < |s| - 1 && init[k] == s[..|s| - 1][pre[k]]
    requires f == if taken then init + [s[|s| - 1]] else init
    requires idx == if taken then pre + [|s| - 1] else pre
    ensures |idx| == |f|
    ensures forall k :: 0 <= k < |idx| ==> idx[k] < |s| && f[k] == s[idx[k]]
  {
    forall k | 0 <= k < |idx| ensures idx[k] < |s| && f[k] == s[idx[k]] {
      if k < |pre| {
        assert f[k] == init[k] == s[..|s| - 1][pre[k]];
      }
    }
  }

  /** Extending the positions of the selection of s[..n] by position n (when kept). */
  lemma FilterPositionsStep<T(!new)>(s: seq<T>, keep: T -> bool, pre: seq<nat>, idx: seq<nat>)
    requires |s| > 0
    requires forall k :: 0 <= k < |pre| ==> pre[k] < |s| - 1
    requires forall k, l :: 0 <= k < l < |pre| ==> pre[k] < pre[l]
    requires forall j :: 0 <= j < |s| - 1 ==> (keep(s[..|s| - 1][j]) <==> j in pre)
    requires idx == if keep(s[|s| - 1]) then pre + [|s| - 1] else pre
    ensures forall j :: 0 <= j < |s| ==> (keep(s[j]) <==> j in idx)
    ensures forall k, l :: 0 <= k < l < |idx| ==> idx[k] < idx[l]
  {
    var n := |s| - 1;
    forall j | 0 <= j < |s| ensures keep(s[j]) <==> j in idx {
      if j < n {
        assert s[..n][j] == s[j];
        assert j in idx <==> j in pre;
      }
    }
  }
}
