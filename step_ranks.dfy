/** The per-row columns get_step_matrix derives before aggregating: event_rank
    (forward position per weighting key) and, in reverse mode, convpoint (the
    segment a row belongs to), the reverse rank within the segment and the
    non-detriment flag (the segment ends in a target). Rows are ranked in the
    order they are given; nothing is sorted here. */
module StepRanks {
  import opened Wrappers
  import opened EventLog

  /** Number of rows before position n whose weighting key is w. */
  function KeyCount(log: seq<Row>, kc: KeyColumn, w: int, n: nat): nat
    requires n <= |log|
  {
    if n == 0 then 0
    else KeyCount(log, kc, w, n - 1) + (if KeyOf(log[n - 1], kc) == w then 1 else 0)
  }

  /** event_rank: the cumulative sum of 1 per weighting key, up to and including row i. */
  function Rank(log: seq<Row>, kc: KeyColumn, i: nat): (r: nat)
    requires i < |log|
    ensures r >= 1
  {
    KeyCount(log, kc, KeyOf(log[i], kc), i + 1)
  }

  lemma {:induction false} KeyCountMonotone(log: seq<Row>, kc: KeyColumn, w: int, a: nat, b: nat)
    requires a <= b <= |log|
    ensures KeyCount(log, kc, w, a) <= KeyCount(log, kc, w, b)
    decreases b - a
  {
    if a < b { KeyCountMonotone(log, kc, w, a, b - 1); }
  }

  /** Within one weighting key, a later row has a larger rank; the rank is 1 exactly
      for the key's first row. */
  lemma RankIncreasing(log: seq<Row>, kc: KeyColumn, i: nat, j: nat)
    requires i < j < |log| && KeyOf(log[i], kc) == KeyOf(log[j], kc)
    ensures Rank(log, kc, i) < Rank(log, kc, j)
  {
    KeyCountMonotone(log, kc, KeyOf(log[i], kc), i + 1, j);
  }

  lemma {:induction false} RankOneIffFirst(log: seq<Row>, kc: KeyColumn, i: nat)
    requires i < |log|
    ensures Rank(log, kc, i) == 1 <==> forall j :: 0 <= j < i ==> KeyOf(log[j], kc) != KeyOf(log[i], kc)
  {
    var w := KeyOf(log[i], kc);
    if exists j :: 0 <= j < i && KeyOf(log[j], kc) == w {
      var j :| 0 <= j < i && KeyOf(log[j], kc) == w;
      RankIncreasing(log, kc, j, i);
    } else {
      KeyCountZero(log, kc, w, i);
    }
  }

  lemma {:induction false} KeyCountZero(log: seq<Row>, kc: KeyColumn, w: int, n: nat)
    requires n <= |log|
    requires forall j :: 0 <= j < n ==> KeyOf(log[j], kc) != w
    ensures KeyCount(log, kc, w, n) == 0
  {
    if n > 0 { KeyCountZero(log, kc, w, n - 1); }
  }

  // ---------------------------------------------------------------------------
  // Reverse mode

  /** convpoint's mark: the row's event is one of the selected targets. */
  predicate IsMark(log: seq<Row>, targets: seq<Event>, j: nat)
    requires j < |log|
  {
    log[j].event in targets
  }

  /** Number of marked rows with weighting key w before position n. */
  function MarkCount(log: seq<Row>, kc: KeyColumn, targets: seq<Event>, w: int, n: nat): nat
    requires n <= |log|
  {
    if n == 0 then 0
    else MarkCount(log, kc, targets, w, n - 1) +
         (if KeyOf(log[n - 1], kc) == w && IsMark(log, targets, n - 1) then 1 else 0)
  }

  /** convpoint: the cumulative count of marks per key minus the row's own mark, so
      that a target row stays in the segment it closes. */
  function Segment(log: seq<Row>, kc: KeyColumn, targets: seq<Event>, i: nat): (r: int)
    requires i < |log|
    ensures r == MarkCount(log, kc, targets, KeyOf(log[i], kc), i)
  {
    MarkCount(log, kc, targets, KeyOf(log[i], kc), i + 1) - (if IsMark(log, targets, i) then 1 else 0)
  }

  /** Row j belongs to the group (w, s) of groupby([weight_col, 'convpoint']). */
  predicate InGroup(log: seq<Row>, kc: KeyColumn, targets: seq<Event>, w: int, s: int, j: nat)
    requires j < |log|
  {
    KeyOf(log[j], kc) == w && Segment(log, kc, targets, j) == s
  }

  /** x.max() of event_rank over the rows of group (w, s) before position n; 0 if none. */
  function GroupMaxRank(log: seq<Row>, kc: KeyColumn, targets: seq<Event>, w: int, s: int, n: nat): nat
    requires n <= |log|
  {
    if n == 0 then 0
    else
      var m := GroupMaxRank(log, kc, targets, w, s, n - 1);
      if InGroup(log, kc, targets, w, s, n - 1) && Rank(log, kc, n - 1) > m then Rank(log, kc, n - 1) else m
  }

  /** The last row of group (w, s) before position n: x.iloc[-1]. */
  function GroupLastUpTo(log: seq<Row>, kc: KeyColumn, targets: seq<Event>, w: int, s: int, n: nat): (r: Option<nat>)
    requires n <= |log|
    ensures r.Some? ==> r.value < n && InGroup(log, kc, targets, w, s, r.value) &&
                        forall m :: r.value < m < n ==> !InGroup(log, kc, targets, w, s, m)
    ensures r.None? ==> forall m :: 0 <= m < n ==> !InGroup(log, kc, targets, w, s, m)
  {
    if n == 0 then None
    else if InGroup(log, kc, targets, w, s, n - 1) then Some(n - 1)
    else GroupLastUpTo(log, kc, targets, w, s, n - 1)
  }

  function GroupOf(log: seq<Row>, kc: KeyColumn, targets: seq<Event>, i: nat): (int, int)
    requires i < |log|
  {
    (KeyOf(log[i], kc), Segment(log, kc, targets, i))
  }

  /** The last row of the segment that row i belongs to. */
  function SegmentEnd(log: seq<Row>, kc: KeyColumn, targets: seq<Event>, i: nat): (r: nat)
    requires i < |log|
    ensures i <= r < |log|
    ensures InGroup(log, kc, targets, KeyOf(log[i], kc), Segment(log, kc, targets, i), r)
    ensures forall m :: r < m < |log| ==>
      !InGroup(log, kc, targets, KeyOf(log[i], kc), Segment(log, kc, targets, i), m)
  {
    var g := GroupOf(log, kc, targets, i);
    assert InGroup(log, kc, targets, g.0, g.1, i);
    GroupLastUpTo(log, kc, targets, g.0, g.1, |log|).value
  }

  /** The rank max() - rank + 1 of the reverse matrix. */
  function ReverseRank(log: seq<Row>, kc: KeyColumn, targets: seq<Event>, i: nat): int
    requires i < |log|
  {
    var g := GroupOf(log, kc, targets, i);
    GroupMaxRank(log, kc, targets, g.0, g.1, |log|) - Rank(log, kc, i) + 1
  }

  /** non-detriment: the last event of the row's segment is a target. */
  predicate Kept(log: seq<Row>, kc: KeyColumn, targets: seq<Event>, i: nat)
    requires i < |log|
  {
    IsMark(log, targets, SegmentEnd(log, kc, targets, i))
  }

  /** The maximum rank of a group is the rank of its last row. */
  lemma {:induction false} GroupMaxIsLastRank(log: seq<Row>, kc: KeyColumn, targets: seq<Event>, w: int, s: int, n: nat)
    requires n <= |log|
    ensures GroupMaxRank(log, kc, targets, w, s, n) ==
      match GroupLastUpTo(log, kc, targets, w, s, n)
      case None => 0
      case Some(j) => Rank(log, kc, j)
  {
    if n > 0 {
      GroupMaxIsLastRank(log, kc, targets, w, s, n - 1);
      var prev := GroupLastUpTo(log, kc, targets, w, s, n - 1);
      if InGroup(log, kc, targets, w, s, n - 1) && prev.Some? {
        RankIncreasing(log, kc, prev.value, n - 1);
      }
    }
  }

  /** Every reverse rank is at least 1, and the row that ends its segment has
      reverse rank 1. */
  lemma ReverseRankBounds(log: seq<Row>, kc: KeyColumn, targets: seq<Event>, i: nat)
    requires i < |log|
    ensures ReverseRank(log, kc, targets, i) >= 1
    ensures i == SegmentEnd(log, kc, targets, i) ==> ReverseRank(log, kc, targets, i) == 1
  {
    var g := GroupOf(log, kc, targets, i);
    var e := SegmentEnd(log, kc, targets, i);
    GroupMaxIsLastRank(log, kc, targets, g.0, g.1, |log|);
    if i < e { RankIncreasing(log, kc, i, e); }
  }

  /** Reverse rank 1 belongs to the row that ends its segment and to no other, so a
      kept row of reverse rank 1 is a target row. */
  lemma ReverseRankOneIsTarget(log: seq<Row>, kc: KeyColumn, targets: seq<Event>, i: nat)
    requires i < |log|
    ensures ReverseRank(log, kc, targets, i) == 1 <==> i == SegmentEnd(log, kc, targets, i)
    ensures Kept(log, kc, targets, i) && ReverseRank(log, kc, targets, i) == 1 ==> log[i].event in targets
  {
    var g := GroupOf(log, kc, targets, i);
    var e := SegmentEnd(log, kc, targets, i);
    GroupMaxIsLastRank(log, kc, targets, g.0, g.1, |log|);
    if i < e { RankIncreasing(log, kc, i, e); }
  }

  lemma {:induction false} MarkCountMonotone(log: seq<Row>, kc: KeyColumn, targets: seq<Event>, w: int, a: nat, b: nat)
    requires a <= b <= |log|
    ensures MarkCount(log, kc, targets, w, a) <= MarkCount(log, kc, targets, w, b)
    decreases b - a
  {
    if a < b { MarkCountMonotone(log, kc, targets, w, a, b - 1); }
  }

  lemma {:induction false} MarkCountUnchanged(log: seq<Row>, kc: KeyColumn, targets: seq<Event>, w: int, a: nat, b: nat)
    requires a <= b <= |log|
    requires forall m :: a <= m < b && KeyOf(log[m], kc) == w ==> !IsMark(log, targets, m)
    ensures MarkCount(log, kc, targets, w, a) == MarkCount(log, kc, targets, w, b)
    decreases b - a
  {
    if a < b { MarkCountUnchanged(log, kc, targets, w, a, b - 1); }
  }

  /** The first marked row of key w at or after position from. */
  function NextMark(log: seq<Row>, kc: KeyColumn, targets: seq<Event>, w: int, from: nat): (r: Option<nat>)
    requires from <= |log|
    ensures r.Some? ==> from <= r.value < |log| && KeyOf(log[r.value], kc) == w && IsMark(log, targets, r.value) &&
                        forall m :: from <= m < r.value && KeyOf(log[m], kc) == w ==> !IsMark(log, targets, m)
    ensures r.None? ==> forall m :: from <= m < |log| && KeyOf(log[m], kc) == w ==> !IsMark(log, targets, m)
    decreases |log| - from
  {
    if from == |log| then None
    else if KeyOf(log[from], kc) == w && IsMark(log, targets, from) then Some(from)
    else NextMark(log, kc, targets, w, from + 1)
  }

  /** A row survives the non-detriment filter exactly when a target row with the
      same weighting key occurs at or after it: segments that trail off without
      reaching a target are dropped. */
  lemma KeptIffTargetAhead(log: seq<Row>, kc: KeyColumn, targets: seq<Event>, i: nat)
    requires i < |log|
    ensures Kept(log, kc, targets, i) <==>
      exists j :: i <= j < |log| && KeyOf(log[j], kc) == KeyOf(log[i], kc) && IsMark(log, targets, j)
  {
    var w := KeyOf(log[i], kc);
    var s := Segment(log, kc, targets, i);
    var e := SegmentEnd(log, kc, targets, i);
    var nm := NextMark(log, kc, targets, w, i);
    if nm.Some? {
      var j := nm.value;
      MarkCountUnchanged(log, kc, targets, w, i, j);
      assert InGroup(log, kc, targets, w, s, j);
      forall m | j < m < |log| && KeyOf(log[m], kc) == w ensures !InGroup(log, kc, targets, w, s, m) {
        MarkCountMonotone(log, kc, targets, w, j + 1, m);
      }
      assert e == j;
    }
  }
}
