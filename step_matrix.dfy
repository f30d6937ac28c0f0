/** get_step_matrix: the (rank, event) observations of the log, the pivot of
    cohort shares, and the pipeline that runs the table operations of StepTable
    over it. */
module StepMatrix {
  import opened Wrappers
  import opened EventLog
  import opened Text
  import opened StepRanks
  import opened StepTable
  import opened Sums

  /** One value of reverse: 'pos' or 'neg'. A single string is the one-element list. */
  datatype Polarity = Pos | Neg

  /** Forward ranking, or reverse ranking towards the given target events. */
  datatype Mode = Forward | Reverse(targets: seq<Event>)

  /** [d[i] for i in reverse], where d maps 'pos' and 'neg' to the configured targets. */
  function Targets(reverse: seq<Polarity>, pos: Event, neg: Event): (r: seq<Event>)
    ensures |r| == |reverse|
    ensures forall i :: 0 <= i < |r| ==> r[i] == (if reverse[i] == Pos then pos else neg)
  {
    seq(|reverse|, i requires 0 <= i < |reverse| => if reverse[i] == Pos then pos else neg)
  }

  /** A row of the table that is grouped by (event_rank, event): its rank, event and weighting key. */
  datatype Observation = Observation(rank: int, event: Event, key: int)

  /** Whether row i takes part: every row in forward mode, the non-detriment rows in reverse mode. */
  predicate Contributes(log: seq<Row>, kc: KeyColumn, mode: Mode, i: nat)
    requires i < |log|
  {
    mode.Forward? || Kept(log, kc, mode.targets, i)
  }

  function ObservationAt(log: seq<Row>, kc: KeyColumn, mode: Mode, i: nat): Observation
    requires i < |log|
  {
    Observation(if mode.Forward? then Rank(log, kc, i) else ReverseRank(log, kc, mode.targets, i),
                log[i].event, KeyOf(log[i], kc))
  }

  /** The observations of the first n rows, in row order. */
  function Observations(log: seq<Row>, kc: KeyColumn, mode: Mode, n: nat): (r: seq<Observation>)
    requires n <= |log|
    ensures |r| <= n
  {
    if n == 0 then []
    else Observations(log, kc, mode, n - 1) +
         (if Contributes(log, kc, mode, n - 1) then [ObservationAt(log, kc, mode, n - 1)] else [])
  }

  /** Every contributing row gives an observation ... */
  lemma {:induction false} ObservationOfRow(log: seq<Row>, kc: KeyColumn, mode: Mode, n: nat, i: nat)
    requires i < n <= |log| && Contributes(log, kc, mode, i)
    ensures ObservationAt(log, kc, mode, i) in Observations(log, kc, mode, n)
  {
    if i < n - 1 { ObservationOfRow(log, kc, mode, n - 1, i); }
  }

  /** ... and every observation comes from a contributing row. */
  lemma {:induction false} ObservationOrigin(log: seq<Row>, kc: KeyColumn, mode: Mode, n: nat, o: Observation)
    returns (i: nat)
    requires n <= |log| && o in Observations(log, kc, mode, n)
    ensures i < n && Contributes(log, kc, mode, i) && o == ObservationAt(log, kc, mode, i)
  {
    var prev := Observations(log, kc, mode, n - 1);
    if o in prev {
      i := ObservationOrigin(log, kc, mode, n - 1, o);
    } else {
      i := n - 1;
    }
  }

  /** The reverse ranks that reach the matrix are at least 1. */
  lemma ObservationRankPositive(log: seq<Row>, kc: KeyColumn, mode: Mode, o: Observation)
    requires o in Observations(log, kc, mode, |log|)
    ensures o.rank >= 1
  {
    var i := ObservationOrigin(log, kc, mode, |log|, o);
    if mode.Reverse? { ReverseRankBounds(log, kc, mode.targets, i); }
  }

  // ---------------------------------------------------------------------------
  // The pivot

  /** agg[agg['event_rank'] <= max_steps] under `if max_steps:`: 0 keeps every rank,
      and a negative max_steps keeps none. */
  predicate UnderCap(o: Observation, cap: int) {
    cap == 0 || o.rank <= cap
  }

  /** The weighting keys seen with event e at rank r: nunique of group (r, e). */
  function KeysAt(obs: seq<Observation>, r: int, e: Event): set<int> {
    set o | o in obs && o.rank == r && o.event == e :: o.key
  }

  /** The weighting keys of all contributing rows: data[weight_col].nunique(). */
  function AllKeys(obs: seq<Observation>): set<int> {
    set o | o in obs :: o.key
  }

  /** The cell (r, e): the share of all weighting keys that had event e at rank r. */
  function Share(obs: seq<Observation>, r: int, e: Event): real {
    if |AllKeys(obs)| == 0 then 0.0 else |KeysAt(obs, r, e)| as real / |AllKeys(obs)| as real
  }

  predicate Increasing(s: seq<int>) {
    forall i, j :: 0 <= i < j < |s| ==> s[i] < s[j]
  }

  function InsertRank(x: int, s: seq<int>): (r: seq<int>)
    requires Increasing(s)
    ensures Increasing(r)
    ensures forall y :: y in r <==> y == x || y in s
    decreases |s|
  {
    if s == [] then [x]
    else if x == s[0] then s
    else if x < s[0] then [x] + s
    else
      var t := InsertRank(x, s[1..]);
      assert forall j :: 0 <= j < |t| ==> s[0] < t[j] by {
        forall j | 0 <= j < |t| ensures s[0] < t[j] {
          if t[j] != x {
            assert t[j] in s[1..];
          }
        }
      }
      [s[0]] + t
  }

  /** The pivot's columns: the ranks under the cap, ascending and without repeats. */
  function Ranks(obs: seq<Observation>, cap: int): (r: seq<int>)
    ensures Increasing(r)
    ensures forall x :: x in r <==> exists o :: o in obs && UnderCap(o, cap) && o.rank == x
    ensures (forall o :: o in obs ==> !UnderCap(o, cap)) ==> r == []
  {
    if obs == [] then []
    else
      var o := obs[|obs| - 1];
      var rest := Ranks(obs[..|obs| - 1], cap);
      assert forall p :: p in obs <==> p in obs[..|obs| - 1] || p == o by {
        assert obs == obs[..|obs| - 1] + [o];
      }
      if UnderCap(o, cap) then InsertRank(o.rank, rest) else rest
  }

  /** The events observed under the cap, in row order (with repeats). */
  function EventsUnder(obs: seq<Observation>, cap: int): (r: seq<Event>)
    ensures forall e :: e in r <==> exists o :: o in obs && UnderCap(o, cap) && o.event == e
  {
    if obs == [] then []
    else
      var o := obs[|obs| - 1];
      assert forall p :: p in obs <==> p in obs[..|obs| - 1] || p == o by {
        assert obs == obs[..|obs| - 1] + [o];
      }
      EventsUnder(obs[..|obs| - 1], cap) + (if UnderCap(o, cap) then [o.event] else [])
  }

  /** agg.pivot(index='event_name', columns='event_rank', values='freq').fillna(0):
      rows are the observed events in ascending order, columns the observed ranks in
      ascending order, a missing (rank, event) pair is 0. */
  function Pivot(obs: seq<Observation>, cap: int): (t: Table)
    ensures WellFormed(t)
    ensures forall c :: 0 <= c < |t.cols| ==> t.cols[c].Step?
    ensures |t.cols| == |Ranks(obs, cap)| && forall c :: 0 <= c < |t.cols| ==> t.cols[c] == Step(Ranks(obs, cap)[c])
    ensures StrictlySorted(Names(t.rows))
    ensures forall e :: e in Names(t.rows) <==> exists o :: o in obs && UnderCap(o, cap) && o.event == e
  {
    var ranks := Ranks(obs, cap);
    var events := SortedDistinct(EventsUnder(obs, cap));
    var t := Table(seq(|ranks|, c requires 0 <= c < |ranks| => Step(ranks[c])),
                   seq(|events|, i requires 0 <= i < |events| =>
                     MatrixRow(events[i], seq(|ranks|, c requires 0 <= c < |ranks| => Share(obs, ranks[c], events[i])))));
    assert Names(t.rows) == events;
    t
  }

  /** Every cell is a share in [0, 1], and it is positive exactly when some weighting
      key had that event at that rank. */
  lemma PivotCell(obs: seq<Observation>, cap: int, i: nat, c: nat)
    requires i < |Pivot(obs, cap).rows| && c < |Pivot(obs, cap).cols|
    ensures var t := Pivot(obs, cap);
      var cell := t.rows[i].values[c];
      && cell == Share(obs, t.cols[c].rank, t.rows[i].name)
      && 0.0 <= cell <= 1.0
      && (cell > 0.0 <==> exists o :: o in obs && o.rank == t.cols[c].rank && o.event == t.rows[i].name)
  {
    var t := Pivot(obs, cap);
    var r := t.cols[c].rank;
    var e := t.rows[i].name;
    assert KeysAt(obs, r, e) <= AllKeys(obs);
    SubsetCard(KeysAt(obs, r, e), AllKeys(obs));
    if exists o :: o in obs && o.rank == r && o.event == e {
      var o :| o in obs && o.rank == r && o.event == e;
      assert o.key in KeysAt(obs, r, e);
    }
  }

  /** In forward mode the weighting key w has event e at step r exactly when w's r-th
      row (in row order) has event e. */
  lemma ForwardKeysAt(log: seq<Row>, kc: KeyColumn, r: int, e: Event, w: int)
    ensures w in KeysAt(Observations(log, kc, Forward, |log|), r, e) <==>
      exists i :: 0 <= i < |log| && KeyOf(log[i], kc) == w && Rank(log, kc, i) == r && log[i].event == e
  {
    var obs := Observations(log, kc, Forward, |log|);
    if w in KeysAt(obs, r, e) {
      var o :| o in obs && o.rank == r && o.event == e && o.key == w;
      var i := ObservationOrigin(log, kc, Forward, |log|, o);
    }
    if exists i :: 0 <= i < |log| && KeyOf(log[i], kc) == w && Rank(log, kc, i) == r && log[i].event == e {
      var i :| 0 <= i < |log| && KeyOf(log[i], kc) == w && Rank(log, kc, i) == r && log[i].event == e;
      ObservationOfRow(log, kc, Forward, |log|, i);
    }
  }

  /** In reverse mode the weighting key w has event e at reverse step r exactly when
      one of w's non-detriment rows with event e has reverse rank r. */
  lemma ReverseKeysAt(log: seq<Row>, kc: KeyColumn, targets: seq<Event>, r: int, e: Event, w: int)
    ensures w in KeysAt(Observations(log, kc, Reverse(targets), |log|), r, e) <==>
      exists i :: 0 <= i < |log| && Kept(log, kc, targets, i) && KeyOf(log[i], kc) == w &&
                  ReverseRank(log, kc, targets, i) == r && log[i].event == e
  {
    var mode := Reverse(targets);
    var obs := Observations(log, kc, mode, |log|);
    if w in KeysAt(obs, r, e) {
      var o :| o in obs && o.rank == r && o.event == e && o.key == w;
      var i := ObservationOrigin(log, kc, mode, |log|, o);
    }
    if exists i :: 0 <= i < |log| && Kept(log, kc, targets, i) && KeyOf(log[i], kc) == w &&
                   ReverseRank(log, kc, targets, i) == r && log[i].event == e {
      var i :| 0 <= i < |log| && Kept(log, kc, targets, i) && KeyOf(log[i], kc) == w &&
               ReverseRank(log, kc, targets, i) == r && log[i].event == e;
      ObservationOfRow(log, kc, mode, |log|, i);
    }
  }

  /** The denominator counts the weighting keys of the contributing rows only. */
  lemma AllKeysOfLog(log: seq<Row>, kc: KeyColumn, mode: Mode, w: int)
    ensures w in AllKeys(Observations(log, kc, mode, |log|)) <==>
      exists i :: 0 <= i < |log| && Contributes(log, kc, mode, i) && KeyOf(log[i], kc) == w
  {
    var obs := Observations(log, kc, mode, |log|);
    if w in AllKeys(obs) {
      var o :| o in obs && o.key == w;
      var i := ObservationOrigin(log, kc, mode, |log|, o);
    }
    if exists i :: 0 <= i < |log| && Contributes(log, kc, mode, i) && KeyOf(log[i], kc) == w {
      var i :| 0 <= i < |log| && Contributes(log, kc, mode, i) && KeyOf(log[i], kc) == w;
      ObservationOfRow(log, kc, mode, |log|, i);
    }
  }

  // ---------------------------------------------------------------------------
  // The pipeline

  predicate AllSteps(t: Table) {
    forall c :: 0 <= c < |t.cols| ==> t.cols[c].Step?
  }

  /** The reverse mode's target list, after the role lookups of d. */
  function ReverseTargets(config: Config, reverse: seq<Polarity>): Result<seq<Event>, Error> {
    if config.positiveTarget.None? then Err(MissingRole("positive_target_event"))
    else if config.negativeTarget.None? then Err(MissingRole("negative_target_event"))
    else Ok(Targets(reverse, config.positiveTarget.value, config.negativeTarget.value))
  }

  predicate NoneKept(log: seq<Row>, kc: KeyColumn, targets: seq<Event>) {
    forall i :: 0 <= i < |log| ==> !Kept(log, kc, targets, i)
  }

  /** The reverse matrix fails before any table is built: a role is missing or no
      segment ends in a target. */
  predicate ReverseFails(log: seq<Row>, kc: KeyColumn, config: Config, reverse: seq<Polarity>) {
    |reverse| > 0 &&
    (ReverseTargets(config, reverse).Err? || NoneKept(log, kc, ReverseTargets(config, reverse).value))
  }

  /** The row that ends the segment of a kept row i is kept, is a target row of the
      same weighting key, and gives an observation at reverse step 1. */
  lemma SegmentEndObservation(log: seq<Row>, kc: KeyColumn, targets: seq<Event>, i: nat) returns (e: nat)
    requires i < |log| && Kept(log, kc, targets, i)
    ensures e < |log| && Kept(log, kc, targets, e) && log[e].event in targets
    ensures KeyOf(log[e], kc) == KeyOf(log[i], kc)
    ensures Observation(1, log[e].event, KeyOf(log[i], kc)) in Observations(log, kc, Reverse(targets), |log|)
  {
    e := SegmentEnd(log, kc, targets, i);
    assert GroupOf(log, kc, targets, e) == GroupOf(log, kc, targets, i);
    assert SegmentEnd(log, kc, targets, e) == e;
    ReverseRankBounds(log, kc, targets, e);
    ObservationOfRow(log, kc, Reverse(targets), |log|, e);
  }

  /** When some row is kept, the reverse matrix has a first column and it is step 1:
      the row that ends a kept segment is itself kept and has reverse rank 1. */
  lemma ReverseFirstStep(log: seq<Row>, kc: KeyColumn, targets: seq<Event>, cap: nat)
    requires !NoneKept(log, kc, targets)
    ensures var ranks := Ranks(Observations(log, kc, Reverse(targets), |log|), cap);
      |ranks| > 0 && ranks[0] == 1
  {
    var mode := Reverse(targets);
    var obs := Observations(log, kc, mode, |log|);
    var i :| 0 <= i < |log| && Kept(log, kc, targets, i);
    var e := SegmentEndObservation(log, kc, targets, i);
    var ranks := Ranks(obs, cap);
    assert 1 in ranks by {
      assert Observation(1, log[e].event, KeyOf(log[i], kc)) in obs;
    }
    forall x | x in ranks ensures x >= 1 {
      var o :| o in obs && UnderCap(o, cap) && o.rank == x;
      ObservationRankPositive(log, kc, mode, o);
    }
    var k :| 0 <= k < |ranks| && ranks[k] == 1;
    assert ranks[0] in ranks;
    assert ranks[0] <= ranks[k];
  }

  /** Reverse step 1 (the column relabelled 'n') holds target events only. */
  lemma FirstStepOnlyTargets(log: seq<Row>, kc: KeyColumn, targets: seq<Event>, ev: Event)
    ensures Share(Observations(log, kc, Reverse(targets), |log|), 1, ev) > 0.0 ==> ev in targets
  {
    var mode := Reverse(targets);
    var obs := Observations(log, kc, mode, |log|);
    if Share(obs, 1, ev) > 0.0 {
      assert |KeysAt(obs, 1, ev)| != 0;
      var w :| w in KeysAt(obs, 1, ev);
      var o :| o in obs && o.rank == 1 && o.event == ev && o.key == w;
      var i := ObservationOrigin(log, kc, mode, |log|, o);
      ReverseRankOneIsTarget(log, kc, targets, i);
    }
  }

  /** With a single target, every weighting key that reaches the reverse matrix ends
      a segment in that target, so its share at step 1 is 1. */
  lemma SingleTargetFirstStepShare(log: seq<Row>, kc: KeyColumn, t: Event)
    requires !NoneKept(log, kc, [t])
    ensures Share(Observations(log, kc, Reverse([t]), |log|), 1, t) == 1.0
  {
    var mode := Reverse([t]);
    var obs := Observations(log, kc, mode, |log|);
    SingleTargetKeys(log, kc, t);
    var i :| 0 <= i < |log| && Kept(log, kc, [t], i);
    ObservationOfRow(log, kc, mode, |log|, i);
    assert ObservationAt(log, kc, mode, i).key in AllKeys(obs);
    ShareOfAllKeys(obs, 1, t);
  }

  /** A cell that every weighting key reaches has share 1. */
  lemma ShareOfAllKeys(obs: seq<Observation>, r: int, e: Event)
    requires KeysAt(obs, r, e) == AllKeys(obs) && |AllKeys(obs)| > 0
    ensures Share(obs, r, e) == 1.0
  {
    var n := |AllKeys(obs)| as real;
    assert n / n == 1.0;
  }

  /** With a single target, the keys seen at step 1 are all the keys of the matrix. */
  lemma SingleTargetKeys(log: seq<Row>, kc: KeyColumn, t: Event)
    ensures var obs := Observations(log, kc, Reverse([t]), |log|);
      KeysAt(obs, 1, t) == AllKeys(obs)
  {
    var mode := Reverse([t]);
    var obs := Observations(log, kc, mode, |log|);
    forall w | w in AllKeys(obs) ensures w in KeysAt(obs, 1, t) {
      var o :| o in obs && o.key == w;
      var i := ObservationOrigin(log, kc, mode, |log|, o);
      var e := SegmentEndObservation(log, kc, [t], i);
      assert Observation(1, t, w) in obs;
    }
  }

  /** A negative max_steps leaves no column: every rank that reaches the matrix is
      at least 1. */
  lemma NoRanksUnderNegativeCap(log: seq<Row>, kc: KeyColumn, mode: Mode, cap: int)
    requires cap < 0
    ensures Ranks(Observations(log, kc, mode, |log|), cap) == []
  {
    var obs := Observations(log, kc, mode, |log|);
    forall o | o in obs ensures !UnderCap(o, cap) {
      ObservationRankPositive(log, kc, mode, o);
    }
  }

  /** get_step_matrix without plotting and dt_means. reverse == [] is the forward
      matrix; maxSteps == 0 keeps every step and a negative maxSteps none; thr == 0 skips pruning. */
  method GetStepMatrix(log: seq<Row>, config: Config, maxSteps: int, kc: KeyColumn,
                       reverse: seq<Polarity>, sorting: bool, thr: real, forDiff: bool)
    returns (res: Result<Table, Error>)
    ensures |reverse| > 0 && ReverseTargets(config, reverse).Err? ==> res == Err(ReverseTargets(config, reverse).error)
    ensures |reverse| > 0 && ReverseTargets(config, reverse).Ok? &&
            NoneKept(log, kc, ReverseTargets(config, reverse).value) ==>
            res == Err(NoTargetEvent(ReverseTargets(config, reverse).value[0]))
    ensures |reverse| == 0 ==>
            Shaped(Pivot(Observations(log, kc, Forward, |log|), maxSteps), config.targetEventList,
                   false, sorting, thr, forDiff, res)
    ensures !ReverseFails(log, kc, config, reverse) && |reverse| > 0 ==>
            Shaped(Pivot(Observations(log, kc, Reverse(ReverseTargets(config, reverse).value), |log|), maxSteps),
                   config.targetEventList, true, sorting, thr, forDiff, res)
    ensures res.Err? && !ReverseFails(log, kc, config, reverse) && (maxSteps >= 0 || |reverse| == 0 || forDiff) ==>
            res.error == EmptyArgmax && sorting
    ensures |reverse| > 0 && !ReverseFails(log, kc, config, reverse) && maxSteps < 0 && !forDiff ==>
            res == Err(LengthMismatch)
    ensures |reverse| == 0 && maxSteps < 0 ==> res.Ok? && |res.value.cols| == 0
    ensures res.Ok? ==> WellFormed(res.value)
    ensures res.Ok? ==> forall c :: 0 <= c < |res.value.cols| ==>
                          ColumnSum(res.value, c) == 0.0 || ColumnSum(res.value, c) == 1.0
    ensures res.Ok? && |reverse| == 0 ==>
            res.value.cols == Pivot(Observations(log, kc, Forward, |log|), maxSteps).cols
    ensures res.Ok? && |reverse| > 0 && !forDiff ==> |res.value.cols| > 0 && res.value.cols[0] == Named("n")
  {
    var mode: Mode := Forward;
    if |reverse| > 0 {
      var tr := ReverseTargets(config, reverse);
      if tr.Err? {
        return Err(tr.error);
      }
      var targets := tr.value;
      if NoneKept(log, kc, targets) {
        return Err(NoTargetEvent(targets[0]));
      }
      mode := Reverse(targets);
      if maxSteps >= 0 {
        ReverseFirstStep(log, kc, targets, maxSteps);
      } else {
        NoRanksUnderNegativeCap(log, kc, mode, maxSteps);
      }
    } else if maxSteps < 0 {
      NoRanksUnderNegativeCap(log, kc, mode, maxSteps);
    }
    var piv := Pivot(Observations(log, kc, mode, |log|), maxSteps);
    res := ShapeMatrix(piv, config.targetEventList, |reverse| > 0, sorting, thr, forDiff);
  }

  /** The reverse relabelling when it applies (reverse and not for_diff). */
  function Relabelled(t: Table, relabel: bool): (r: Table)
    requires AllSteps(t)
    ensures r.rows == t.rows && |r.cols| == |t.cols|
    ensures WellFormed(t) ==> WellFormed(r)
  {
    if relabel && |t.cols| > 0 then RelabelReverse(t).value else t
  }

  /** The last stages over the pruned table p: sorted when sorting (an error exactly
      when there is no row to sort), relabelled when relabel (an error when there is
      no column to relabel), and every column divided by its sum. */
  ghost predicate Finished(p: Table, relabel: bool, sorting: bool, res: Result<Table, Error>)
    requires WellFormed(p) && AllSteps(p)
  {
    if relabel && |p.cols| == 0 then
      res == Err(LengthMismatch)
    else if !sorting then
      res.Ok? && NormalizedOf(Relabelled(p, relabel), res.value)
    else if |p.rows| == 0 && |p.cols| > 0 then
      res == Err(EmptyArgmax)
    else
      res.Ok? && exists order :: IsSortOrder(p, order) && NormalizedOf(Relabelled(Reorder(p, order), relabel), res.value)
  }

  /** What get_step_matrix makes of the pivot piv0: targets' accumulated rows are
      appended (forward only), rows are pruned by thr, then sorted, relabelled in the
      reverse mode and normalised as Finished says. */
  ghost predicate Shaped(piv0: Table, targets: seq<Event>, reverse: bool, sorting: bool, thr: real,
                         forDiff: bool, res: Result<Table, Error>)
    requires WellFormed(piv0) && AllSteps(piv0)
  {
    var w := if reverse then piv0 else WithAccumulated(piv0, targets);
    Finished(Prune(w, targets, thr), reverse && !forDiff, sorting, res)
  }

  /** The stages after the pivot: the accumulated row (forward only), pruning,
      sorting, the reverse relabelling and the column normalisation. */
  method ShapeMatrix(piv0: Table, targetEvents: seq<Event>, reverse: bool, sorting: bool, thr: real, forDiff: bool)
    returns (res: Result<Table, Error>)
    requires WellFormed(piv0) && AllSteps(piv0)
    ensures Shaped(piv0, targetEvents, reverse, sorting, thr, forDiff, res)
    ensures res.Err? && (!reverse || forDiff || |piv0.cols| > 0) ==> res.error == EmptyArgmax && sorting
    ensures reverse && !forDiff && |piv0.cols| == 0 ==> res == Err(LengthMismatch)
    ensures res.Ok? ==> WellFormed(res.value)
    ensures res.Ok? ==> forall c :: 0 <= c < |res.value.cols| ==>
                          ColumnSum(res.value, c) == 0.0 || ColumnSum(res.value, c) == 1.0
    ensures res.Ok? && !reverse ==> res.value.cols == piv0.cols
    ensures res.Ok? && reverse && !forDiff ==> |res.value.cols| > 0 && res.value.cols[0] == Named("n")
  {
    var piv := piv0;
    if !reverse {
      piv := AppendAccumulated(piv, targetEvents);
    }
    if thr != 0.0 {
      piv := Prune(piv, targetEvents, thr);
    }
    res := FinishMatrix(piv, reverse && !forDiff, sorting);
  }

  /** Sorting, the reverse relabelling and the column normalisation. */
  method FinishMatrix(p: Table, relabel: bool, sorting: bool) returns (res: Result<Table, Error>)
    requires WellFormed(p) && AllSteps(p)
    ensures Finished(p, relabel, sorting, res)
    ensures res.Err? && (!relabel || |p.cols| > 0) ==> res.error == EmptyArgmax && sorting
    ensures relabel && |p.cols| == 0 ==> res == Err(LengthMismatch)
    ensures res.Ok? ==> WellFormed(res.value)
    ensures res.Ok? ==> forall c :: 0 <= c < |res.value.cols| ==>
                          ColumnSum(res.value, c) == 0.0 || ColumnSum(res.value, c) == 1.0
    ensures res.Ok? && !relabel ==> res.value.cols == p.cols
    ensures res.Ok? && relabel ==> |res.value.cols| > 0 && res.value.cols[0] == Named("n")
  {
    var piv := p;
    ghost var order: seq<nat> := [];
    if sorting {
      var sorted, ord := SortMatrix(piv);
      if sorted.Err? {
        return Err(sorted.error);
      }
      piv := sorted.value;
      order := ord;
    }
    assert piv.cols == p.cols && AllSteps(piv);
    if relabel {
      var relabelled := RelabelReverse(piv);
      if relabelled.Err? {
        return Err(relabelled.error);
      }
      piv := relabelled.value;
    }
    assert piv == Relabelled(if sorting then Reorder(p, order) else p, relabel);
    piv := Renormalize(piv);
    res := Ok(piv);
    if sorting {
      assert IsSortOrder(p, order) && NormalizedOf(Relabelled(Reorder(p, order), relabel), res.value);
    }
  }
}
