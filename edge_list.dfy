/** get_edgelist and get_adjacency: transitions between consecutive events of an
    entity, aggregated into weighted (source, target) edges and projected onto a
    square matrix. */
module EdgeList {
  import opened Wrappers
  import opened EventLog
  import opened Shifter
  import opened Sums

  type Pair = (Event, Event)

  /** A row that has a next event, seen as the transition (event, next event). */
  datatype Transition = Transition(source: Event, target: Event, row: Row)

  function PairOf(t: Transition): Pair {
    (t.source, t.target)
  }

  /** The rows of the shifted log whose next event is not null, in log order:
      groupby([event, next_event]) leaves out the rows with a null key. */
  function Transitions(sh: seq<Shifted>): (ts: seq<Transition>)
    ensures |ts| <= |sh|
    ensures |ts| == |sh| <==> forall i :: 0 <= i < |sh| ==> sh[i].next.Some?
    ensures forall k :: 0 <= k < |ts| ==> ts[k].source == ts[k].row.event
  {
    if sh == [] then []
    else
      var init := Transitions(sh[..|sh| - 1]);
      var last := sh[|sh| - 1];
      assert forall i :: 0 <= i < |sh| - 1 ==> sh[..|sh| - 1][i] == sh[i];
      if last.next.Some? then init + [Transition(last.row.event, last.next.value.event, last.row)]
      else init
  }

  /** Every transition comes from a row of the shifted log that has a next event. */
  lemma {:induction false} TransitionOrigin(sh: seq<Shifted>, k: nat) returns (i: nat)
    requires k < |Transitions(sh)|
    ensures i < |sh| && sh[i].next.Some?
    ensures Transitions(sh)[k] == Transition(sh[i].row.event, sh[i].next.value.event, sh[i].row)
    decreases |sh|
  {
    var init := sh[..|sh| - 1];
    if k < |Transitions(init)| {
      i := TransitionOrigin(init, k);
      assert init[i] == sh[i];
    } else {
      i := |sh| - 1;
    }
  }

  /** Every row of the shifted log that has a next event gives a transition. */
  lemma {:induction false} TransitionOfRow(sh: seq<Shifted>, i: nat) returns (k: nat)
    requires i < |sh| && sh[i].next.Some?
    ensures k < |Transitions(sh)|
    ensures Transitions(sh)[k] == Transition(sh[i].row.event, sh[i].next.value.event, sh[i].row)
    decreases |sh|
  {
    var init := sh[..|sh| - 1];
    if i < |sh| - 1 {
      assert init[i] == sh[i];
      k := TransitionOfRow(init, i);
    } else {
      k := |Transitions(init)|;
    }
  }

  /** Some row of event p.0 has p.1 as its next event. */
  predicate Follows(sh: seq<Shifted>, p: Pair) {
    exists i :: 0 <= i < |sh| && sh[i].next.Some? && RowPair(sh[i]) == p
  }

  /** The (event, next event) pair of a row that has a next event. */
  function RowPair(s: Shifted): Pair
    requires s.next.Some?
  {
    (s.row.event, s.next.value.event)
  }

  /** A pair is observed among the transitions exactly when some row is followed
      along it. */
  lemma ObservedIffFollows(sh: seq<Shifted>, p: Pair)
    ensures Observed(Transitions(sh), p) <==> Follows(sh, p)
  {
    if Observed(Transitions(sh), p) {
      var k :| 0 <= k < |Transitions(sh)| && PairOf(Transitions(sh)[k]) == p;
      var i := TransitionOrigin(sh, k);
      assert RowPair(sh[i]) == p;
    }
    if Follows(sh, p) {
      var i :| 0 <= i < |sh| && sh[i].next.Some? && RowPair(sh[i]) == p;
      var k := TransitionOfRow(sh, i);
      assert PairOf(Transitions(sh)[k]) == p;
    }
  }

  /** Number of rows of the shifted log followed along p. */
  function RowsAlong(sh: seq<Shifted>, p: Pair): nat {
    if sh == [] then 0
    else
      var last := sh[|sh| - 1];
      RowsAlong(sh[..|sh| - 1], p) + (if last.next.Some? && RowPair(last) == p then 1 else 0)
  }

  // ---------------------------------------------------------------------------
  // Counting

  /** Number of transitions along pair p: the count() aggregation. */
  function Count(ts: seq<Transition>, p: Pair): nat {
    if ts == [] then 0
    else Count(ts[..|ts| - 1], p) + (if PairOf(ts[|ts| - 1]) == p then 1 else 0)
  }

  /** The count aggregation of a pair is the number of rows followed along it. */
  lemma {:induction false} CountIsRowsAlong(sh: seq<Shifted>, p: Pair)
    ensures Count(Transitions(sh), p) == RowsAlong(sh, p)
    decreases |sh|
  {
    if sh != [] {
      var init := sh[..|sh| - 1];
      var last := sh[|sh| - 1];
      CountIsRowsAlong(init, p);
      if last.next.Some? {
        var ts := Transitions(init) + [Transition(last.row.event, last.next.value.event, last.row)];
        assert ts[..|ts| - 1] == Transitions(init);
      }
    }
  }

  /** A source filter: None keeps every pair, Some(s) the pairs leaving s. */
  predicate Match(src: Option<Event>, p: Pair) {
    src.None? || p.0 == src.value
  }

  /** Number of transitions whose pair passes the filter. */
  function CountMatching(ts: seq<Transition>, src: Option<Event>): nat {
    if ts == [] then 0
    else CountMatching(ts[..|ts| - 1], src) + (if Match(src, PairOf(ts[|ts| - 1])) then 1 else 0)
  }

  predicate Distinct<T(==)>(s: seq<T>) {
    forall i, j :: 0 <= i < j < |s| ==> s[i] != s[j]
  }

  /** Some transition goes along p. */
  predicate Observed(ts: seq<Transition>, p: Pair) {
    exists k :: 0 <= k < |ts| && PairOf(ts[k]) == p
  }

  /** The distinct pairs of ts, in order of first occurrence. */
  function Pairs(ts: seq<Transition>): (ps: seq<Pair>)
    ensures Distinct(ps)
    ensures forall p :: p in ps <==> Observed(ts, p)
  {
    if ts == [] then []
    else
      var init := Pairs(ts[..|ts| - 1]);
      var last := PairOf(ts[|ts| - 1]);
      assert forall p :: Observed(ts, p) <==> Observed(ts[..|ts| - 1], p) || p == last by {
        forall p ensures Observed(ts, p) <==> Observed(ts[..|ts| - 1], p) || p == last {
          if Observed(ts, p) && p != last {
            var k :| 0 <= k < |ts| && PairOf(ts[k]) == p;
            assert ts[..|ts| - 1][k] == ts[k];
          }
          if Observed(ts[..|ts| - 1], p) {
            var k :| 0 <= k < |ts| - 1 && PairOf(ts[..|ts| - 1][k]) == p;
            assert ts[..|ts| - 1][k] == ts[k];
          }
        }
      }
      if last in init then init else init + [last]
  }

  /** Sum of the counts of the pairs of K that pass the filter. */
  function SumCounts(K: seq<Pair>, ts: seq<Transition>, src: Option<Event>): nat {
    if K == [] then 0
    else SumCounts(K[..|K| - 1], ts, src) + (if Match(src, K[|K| - 1]) then Count(ts, K[|K| - 1]) else 0)
  }

  /** How often q occurs in K, counted only when q passes the filter. */
  function Occurrences(K: seq<Pair>, q: Pair, src: Option<Event>): nat {
    if K == [] then 0
    else Occurrences(K[..|K| - 1], q, src) + (if K[|K| - 1] == q && Match(src, q) then 1 else 0)
  }

  lemma {:induction false} SumCountsSnoc(K: seq<Pair>, ts: seq<Transition>, x: Transition, src: Option<Event>)
    ensures SumCounts(K, ts + [x], src) == SumCounts(K, ts, src) + Occurrences(K, PairOf(x), src)
    decreases |K|
  {
    assert (ts + [x])[..|ts + [x]| - 1] == ts;
    if K != [] { SumCountsSnoc(K[..|K| - 1], ts, x, src); }
  }

  lemma {:induction false} OccurrencesInDistinct(K: seq<Pair>, q: Pair, src: Option<Event>)
    requires Distinct(K)
    ensures Occurrences(K, q, src) == if q in K && Match(src, q) then 1 else 0
    decreases |K|
  {
    if K != [] {
      var init := K[..|K| - 1];
      assert Distinct(init);
      OccurrencesInDistinct(init, q, src);
      assert q in K <==> q in init || K[|K| - 1] == q;
      assert K[|K| - 1] !in init;
    }
  }

  /** Summing the per-pair counts over a list that names every observed pair once
      gives the number of transitions that pass the filter. */
  lemma {:induction false} SumCountsOverCover(K: seq<Pair>, ts: seq<Transition>, src: Option<Event>)
    requires Distinct(K)
    requires forall k :: 0 <= k < |ts| ==> PairOf(ts[k]) in K
    ensures SumCounts(K, ts, src) == CountMatching(ts, src)
    decreases |ts|
  {
    if ts == [] {
      assert SumCounts(K, ts, src) == 0 by { SumCountsEmpty(K, src); }
    } else {
      var init := ts[..|ts| - 1];
      var x := ts[|ts| - 1];
      assert init + [x] == ts;
      SumCountsOverCover(K, init, src);
      SumCountsSnoc(K, init, x, src);
      OccurrencesInDistinct(K, PairOf(x), src);
    }
  }

  lemma {:induction false} SumCountsEmpty(K: seq<Pair>, src: Option<Event>)
    ensures SumCounts(K, [], src) == 0
    decreases |K|
  {
    if K != [] { SumCountsEmpty(K[..|K| - 1], src); }
  }

  // ---------------------------------------------------------------------------
  // Aggregation and normalisation

  datatype Norm = NoNorm | Full | PerNode

  /** norm_type as the caller passes it: None, 'full', 'node', or anything else. */
  function ParseNorm(normType: Option<string>): (r: Result<Norm, Error>)
    ensures r.Err? <==> normType.Some? && normType.value != "full" && normType.value != "node"
    ensures r.Err? ==> r.error == UnknownNormType(normType.value)
    ensures r == Ok(Full) <==> normType == Some("full")
    ensures r == Ok(PerNode) <==> normType == Some("node")
  {
    match normType
    case None => Ok(NoNorm)
    case Some(s) =>
      if s == "full" then Ok(Full)
      else if s == "node" then Ok(PerNode)
      else Err(UnknownNormType(s))
  }

  /** The distinct weighting-key values of the transitions along p: nunique(). */
  function KeysOn(ts: seq<Transition>, p: Pair, kc: KeyColumn): set<int> {
    set k | 0 <= k < |ts| && PairOf(ts[k]) == p :: KeyOf(ts[k].row, kc)
  }

  /** The distinct weighting-key values in the whole shifted log. */
  function AllKeys(sh: seq<Shifted>, kc: KeyColumn): set<int> {
    set i | 0 <= i < |sh| :: KeyOf(sh[i].row, kc)
  }

  /** The distinct weighting-key values of the rows whose event is s. */
  function KeysOfEvent(sh: seq<Shifted>, s: Event, kc: KeyColumn): set<int> {
    set i | 0 <= i < |sh| && sh[i].row.event == s :: KeyOf(sh[i].row, kc)
  }

  /** The aggregated weight of pair p before normalisation. */
  function RawWeight(ts: seq<Transition>, p: Pair, weight: Option<KeyColumn>): nat {
    match weight
    case None => Count(ts, p)
    case Some(kc) => |KeysOn(ts, p, kc)|
  }

  /** What the raw weight of p is divided by under each normalisation. */
  function Divisor(sh: seq<Shifted>, ts: seq<Transition>, p: Pair,
                   weight: Option<KeyColumn>, norm: Norm): nat
  {
    match norm
    case NoNorm => 1
    case Full =>
      (match weight
       case None => SumCounts(Pairs(ts), ts, None)
       case Some(kc) => |AllKeys(sh, kc)|)
    case PerNode =>
      (match weight
       case None => CountMatching(ts, Some(p.0))
       case Some(kc) => |KeysOfEvent(sh, p.0, kc)|)
  }

  lemma {:induction false} CountPositive(ts: seq<Transition>, p: Pair, src: Option<Event>)
    requires Observed(ts, p)
    requires Match(src, p)
    ensures Count(ts, p) >= 1 && CountMatching(ts, src) >= 1
    decreases |ts|
  {
    var k :| 0 <= k < |ts| && PairOf(ts[k]) == p;
    if k < |ts| - 1 {
      assert ts[..|ts| - 1][k] == ts[k];
      CountPositive(ts[..|ts| - 1], p, src);
    }
  }

  /** Every observed pair has a positive divisor, so no edge weight divides by zero. */
  lemma DivisorPositive(sh: seq<Shifted>, p: Pair, weight: Option<KeyColumn>, norm: Norm)
    requires Observed(Transitions(sh), p)
    ensures Divisor(sh, Transitions(sh), p, weight, norm) >= 1
  {
    var ts := Transitions(sh);
    var k :| 0 <= k < |ts| && PairOf(ts[k]) == p;
    var i := TransitionOrigin(sh, k);
    CountPositive(ts, p, None);
    CountPositive(ts, p, Some(p.0));
    match weight
    case None =>
      SumCountsOverCover(Pairs(ts), ts, None);
    case Some(kc) =>
      assert KeyOf(sh[i].row, kc) in AllKeys(sh, kc);
      assert KeyOf(sh[i].row, kc) in KeysOfEvent(sh, p.0, kc);
  }

  datatype Edge = Edge(source: Event, target: Event, weight: real)

  /** One edge per pair of K, weighted and normalised. */
  function EdgesOver(K: seq<Pair>, sh: seq<Shifted>, weight: Option<KeyColumn>, norm: Norm): (es: seq<Edge>)
    requires forall p :: p in K ==> Observed(Transitions(sh), p)
    ensures |es| == |K|
    ensures forall i :: 0 <= i < |K| ==> es[i].source == K[i].0 && es[i].target == K[i].1
  {
    if K == [] then []
    else
      var p := K[|K| - 1];
      var ts := Transitions(sh);
      DivisorPositive(sh, p, weight, norm);
      var w := RawWeight(ts, p, weight) as real / Divisor(sh, ts, p, weight, norm) as real;
      EdgesOver(K[..|K| - 1], sh, weight, norm) + [Edge(p.0, p.1, w)]
  }

  /** get_edgelist over a log already sorted by (entity, time). */
  function GetEdgeList(log: seq<Row>, weight: Option<KeyColumn>, normType: Option<string>): (r: Result<seq<Edge>, Error>)
    ensures r.Err? <==> normType.Some? && normType.value != "full" && normType.value != "node"
    ensures r.Err? ==> r.error == UnknownNormType(normType.value)
  {
    match ParseNorm(normType)
    case Err(e) => Err(e)
    case Ok(norm) =>
      var sh := Shift(log);
      Ok(EdgesOver(Pairs(Transitions(sh)), sh, weight, norm))
  }

  // ---------------------------------------------------------------------------
  // Properties of the edge list

  function Weights(es: seq<Edge>): seq<real> {
    seq(|es|, i requires 0 <= i < |es| => es[i].weight)
  }

  /** Sum of the weights of the edges leaving s. */
  function SumFrom(es: seq<Edge>, src: Option<Event>): real {
    if es == [] then 0.0
    else SumFrom(es[..|es| - 1], src) +
         (if Match(src, (es[|es| - 1].source, es[|es| - 1].target)) then es[|es| - 1].weight else 0.0)
  }

  /** The weight of the edge built for pair p, written out. */
  lemma {:induction false} EdgesOverWeight(K: seq<Pair>, sh: seq<Shifted>, weight: Option<KeyColumn>, norm: Norm, i: nat)
    requires forall p :: p in K ==> Observed(Transitions(sh), p)
    requires i < |K|
    ensures Divisor(sh, Transitions(sh), K[i], weight, norm) >= 1
    ensures EdgesOver(K, sh, weight, norm)[i].weight ==
      RawWeight(Transitions(sh), K[i], weight) as real / Divisor(sh, Transitions(sh), K[i], weight, norm) as real
    decreases |K|
  {
    DivisorPositive(sh, K[i], weight, norm);
    if i < |K| - 1 {
      var init := K[..|K| - 1];
      assert init[i] == K[i];
      EdgesOverWeight(init, sh, weight, norm, i);
    }
  }

  /** Some edge of es goes along p. */
  predicate HasEdge(es: seq<Edge>, p: Pair) {
    exists i :: 0 <= i < |es| && (es[i].source, es[i].target) == p
  }

  /** The edge list names each observed transition pair exactly once, and nothing else. */
  lemma EdgeListPairs(log: seq<Row>, weight: Option<KeyColumn>, normType: Option<string>, p: Pair)
    requires GetEdgeList(log, weight, normType).Ok?
    ensures var es := GetEdgeList(log, weight, normType).value;
      forall i, j :: 0 <= i < j < |es| ==> (es[i].source, es[i].target) != (es[j].source, es[j].target)
    ensures HasEdge(GetEdgeList(log, weight, normType).value, p) <==> Observed(Transitions(Shift(log)), p)
    ensures HasEdge(GetEdgeList(log, weight, normType).value, p) <==> Follows(Shift(log), p)
  {
    ObservedIffFollows(Shift(log), p);
    var es := GetEdgeList(log, weight, normType).value;
    var K := Pairs(Transitions(Shift(log)));
    if p in K {
      var i :| 0 <= i < |K| && K[i] == p;
      assert (es[i].source, es[i].target) == p;
    }
  }

  /** Sum of the edge weights over the pairs of K that pass the filter, with the
      count aggregation: the filtered count total over the common divisor. */
  lemma {:induction false} SumFromCounts(K: seq<Pair>, sh: seq<Shifted>, src: Option<Event>, d: nat, norm: Norm)
    requires forall p :: p in K ==> Observed(Transitions(sh), p)
    requires d >= 1
    requires forall p :: p in K && Match(src, p) ==> Divisor(sh, Transitions(sh), p, None, norm) == d
    ensures SumFrom(EdgesOver(K, sh, None, norm), src) == SumCounts(K, Transitions(sh), src) as real / d as real
    decreases |K|
  {
    if K != [] {
      var init := K[..|K| - 1];
      assert forall p :: p in init ==> p in K;
      SumFromCounts(init, sh, src, d, norm);
      assert K[|K| - 1] in K;
      SumFromCountsStep(K, sh, src, d, norm);
    }
  }

  lemma SumFromCountsStep(K: seq<Pair>, sh: seq<Shifted>, src: Option<Event>, d: nat, norm: Norm)
    requires forall p :: p in K ==> Observed(Transitions(sh), p)
    requires K != [] && d >= 1
    requires forall p :: p in K[..|K| - 1] ==> Observed(Transitions(sh), p)
    requires SumFrom(EdgesOver(K[..|K| - 1], sh, None, norm), src) ==
             SumCounts(K[..|K| - 1], Transitions(sh), src) as real / d as real
    requires Match(src, K[|K| - 1]) ==> Divisor(sh, Transitions(sh), K[|K| - 1], None, norm) == d
    ensures SumFrom(EdgesOver(K, sh, None, norm), src) == SumCounts(K, Transitions(sh), src) as real / d as real
  {
    var ts := Transitions(sh);
    var init := K[..|K| - 1];
    var last := K[|K| - 1];
    var es := EdgesOver(K, sh, None, norm);
    EdgesOverWeight(K, sh, None, norm, |K| - 1);
    EdgesOverPrefix(K, sh, None, norm);
    SumFromStep(es, src, SumCounts(init, ts, src), Count(ts, last), SumCounts(K, ts, src), d);
  }

  /** Dropping the last pair drops the last edge. */
  lemma EdgesOverPrefix(K: seq<Pair>, sh: seq<Shifted>, weight: Option<KeyColumn>, norm: Norm)
    requires forall p :: p in K ==> Observed(Transitions(sh), p)
    requires K != []
    ensures forall p :: p in K[..|K| - 1] ==> Observed(Transitions(sh), p)
    ensures EdgesOver(K, sh, weight, norm)[..|K| - 1] == EdgesOver(K[..|K| - 1], sh, weight, norm)
    ensures var e := EdgesOver(K, sh, weight, norm)[|K| - 1]; (e.source, e.target) == K[|K| - 1]
  {
    assert forall p :: p in K[..|K| - 1] ==> p in K;
  }

  /** One more edge: its share, if it passes the filter, adds its count to the numerator. */
  lemma SumFromStep(es: seq<Edge>, src: Option<Event>, a: nat, b: nat, c: nat, d: nat)
    requires es != [] && d >= 1
    requires SumFrom(es[..|es| - 1], src) == a as real / d as real
    requires Match(src, (es[|es| - 1].source, es[|es| - 1].target)) ==> es[|es| - 1].weight == b as real / d as real
    requires c == a + if Match(src, (es[|es| - 1].source, es[|es| - 1].target)) then b else 0
    ensures SumFrom(es, src) == c as real / d as real
  {
    SumFromSnoc(es, src);
    if Match(src, (es[|es| - 1].source, es[|es| - 1].target)) {
      LastShareAdds(a, b, d, SumFrom(es[..|es| - 1], src), es[|es| - 1].weight);
    }
  }

  lemma SumFromSnoc(es: seq<Edge>, src: Option<Event>)
    requires es != []
    ensures SumFrom(es, src) == SumFrom(es[..|es| - 1], src) +
      (if Match(src, (es[|es| - 1].source, es[|es| - 1].target)) then es[|es| - 1].weight else 0.0)
  {
  }

  /** One more share over the same divisor adds its count to the numerator. */
  lemma LastShareAdds(a: nat, b: nat, d: nat, sum0: real, w: real)
    requires d >= 1
    requires sum0 == a as real / d as real
    requires w == b as real / d as real
    ensures sum0 + w == (a + b) as real / d as real
  {
    DivAdd(a as real, b as real, d as real);
  }

  lemma SelfDivision(d: real)
    requires d != 0.0
    ensures d / d == 1.0
  {
  }

  lemma DivAdd(a: real, b: real, d: real)
    requires d != 0.0
    ensures a / d + b / d == (a + b) / d
  {
  }

  /** norm_type='full' with the count aggregation: the weights sum to 1. */
  lemma FullNormSumsToOne(log: seq<Row>)
    requires GetEdgeList(log, None, Some("full")).Ok?
    requires Transitions(Shift(log)) != []
    ensures SumFrom(GetEdgeList(log, None, Some("full")).value, None) == 1.0
  {
    var sh := Shift(log);
    var ts := Transitions(sh);
    var K := Pairs(ts);
    assert GetEdgeList(log, None, Some("full")).value == EdgesOver(K, sh, None, Full);
    assert forall p :: p in K ==> Observed(ts, p);
    assert Observed(ts, PairOf(ts[0]));
    SumCountsOverCover(K, ts, None);
    CountPositive(ts, PairOf(ts[0]), None);
    var d := SumCounts(K, ts, None);
    assert forall p :: p in K && Match(None, p) ==> Divisor(sh, ts, p, None, Full) == d;
    CountsSumToOne(K, sh, None, d, Full);
  }

  /** norm_type='node' with the count aggregation: the weights leaving each source
      sum to 1; the divisor is the number of rows of that event with a next event. */
  lemma NodeNormSumsToOne(log: seq<Row>, s: Event)
    requires GetEdgeList(log, None, Some("node")).Ok?
    requires exists t :: t in Transitions(Shift(log)) && t.source == s
    ensures SumFrom(GetEdgeList(log, None, Some("node")).value, Some(s)) == 1.0
  {
    var sh := Shift(log);
    assert GetEdgeList(log, None, Some("node")).value == EdgesOver(Pairs(Transitions(sh)), sh, None, PerNode);
    NodeSumOnShifted(sh, s);
  }

  lemma NodeSumOnShifted(sh: seq<Shifted>, s: Event)
    requires exists t :: t in Transitions(sh) && t.source == s
    ensures forall p :: p in Pairs(Transitions(sh)) ==> Observed(Transitions(sh), p)
    ensures SumFrom(EdgesOver(Pairs(Transitions(sh)), sh, None, PerNode), Some(s)) == 1.0
  {
    var ts := Transitions(sh);
    var K := Pairs(ts);
    var t :| t in ts && t.source == s;
    var k :| 0 <= k < |ts| && ts[k] == t;
    CoverOfPairs(ts);
    CountPositive(ts, PairOf(ts[k]), Some(s));
    var d := CountMatching(ts, Some(s));
    forall p | p in K && Match(Some(s), p) ensures Divisor(sh, ts, p, None, PerNode) == d {
      assert p.0 == s;
    }
    SumCountsOverCover(K, ts, Some(s));
    CountsSumToOne(K, sh, Some(s), d, PerNode);
  }

  /** When the filtered counts add up to the common divisor, the weights sum to 1. */
  lemma CountsSumToOne(K: seq<Pair>, sh: seq<Shifted>, src: Option<Event>, d: nat, norm: Norm)
    requires forall p :: p in K ==> Observed(Transitions(sh), p)
    requires d >= 1
    requires forall p :: p in K && Match(src, p) ==> Divisor(sh, Transitions(sh), p, None, norm) == d
    requires SumCounts(K, Transitions(sh), src) == d
    ensures SumFrom(EdgesOver(K, sh, None, norm), src) == 1.0
  {
    SumFromCounts(K, sh, src, d, norm);
    SelfDivision(d as real);
  }

  /** The grouped pairs are observed, and they cover every transition. */
  lemma CoverOfPairs(ts: seq<Transition>)
    ensures forall p :: p in Pairs(ts) ==> Observed(ts, p)
    ensures forall k :: 0 <= k < |ts| ==> PairOf(ts[k]) in Pairs(ts)
  {
    forall k | 0 <= k < |ts| ensures PairOf(ts[k]) in Pairs(ts) {
      assert Observed(ts, PairOf(ts[k]));
    }
  }

  /** With a weighting column and norm_type 'full' or 'node', every weight is a share
      of distinct keys: it lies in (0, 1]. */
  lemma DistinctSharesAreFractions(log: seq<Row>, kc: KeyColumn, normType: Option<string>, i: nat)
    requires normType == Some("full") || normType == Some("node")
    requires GetEdgeList(log, Some(kc), normType).Ok?
    requires i < |GetEdgeList(log, Some(kc), normType).value|
    ensures 0.0 < GetEdgeList(log, Some(kc), normType).value[i].weight <= 1.0
  {
    var sh := Shift(log);
    var norm := ParseNorm(normType).value;
    assert GetEdgeList(log, Some(kc), normType).value == EdgesOver(Pairs(Transitions(sh)), sh, Some(kc), norm);
    KeySharesOnShifted(sh, kc, norm, i);
  }

  lemma KeySharesOnShifted(sh: seq<Shifted>, kc: KeyColumn, norm: Norm, i: nat)
    requires norm != NoNorm
    requires i < |Pairs(Transitions(sh))|
    ensures forall p :: p in Pairs(Transitions(sh)) ==> Observed(Transitions(sh), p)
    ensures 0.0 < EdgesOver(Pairs(Transitions(sh)), sh, Some(kc), norm)[i].weight <= 1.0
  {
    var ts := Transitions(sh);
    var K := Pairs(ts);
    EdgesOverWeight(K, sh, Some(kc), norm, i);
    var p := K[i];
    KeysWithinDivisor(sh, p, kc);
    FractionBounds(|KeysOn(ts, p, kc)| as real, Divisor(sh, ts, p, Some(kc), norm) as real);
  }

  /** An observed pair has at least one key, and no more than the whole log or its
      source event has. */
  lemma KeysWithinDivisor(sh: seq<Shifted>, p: Pair, kc: KeyColumn)
    requires Observed(Transitions(sh), p)
    ensures 1 <= |KeysOn(Transitions(sh), p, kc)|
    ensures |KeysOn(Transitions(sh), p, kc)| <= |AllKeys(sh, kc)|
    ensures |KeysOn(Transitions(sh), p, kc)| <= |KeysOfEvent(sh, p.0, kc)|
  {
    var ts := Transitions(sh);
    var k :| 0 <= k < |ts| && PairOf(ts[k]) == p;
    assert KeyOf(ts[k].row, kc) in KeysOn(ts, p, kc);
    var on := KeysOn(ts, p, kc);
    forall x | x in on ensures x in AllKeys(sh, kc) && x in KeysOfEvent(sh, p.0, kc) {
      var j :| 0 <= j < |ts| && PairOf(ts[j]) == p && x == KeyOf(ts[j].row, kc);
      var m := TransitionOrigin(sh, j);
      assert KeyOf(sh[m].row, kc) in AllKeys(sh, kc);
      assert KeyOf(sh[m].row, kc) in KeysOfEvent(sh, p.0, kc);
    }
    SubsetCard(on, AllKeys(sh, kc));
    SubsetCard(on, KeysOfEvent(sh, p.0, kc));
  }

  lemma FractionBounds(a: real, b: real)
    requires 0.0 < a <= b
    ensures 0.0 < a / b <= 1.0
  {
  }

  /** Every edge weight is positive: an observed pair has at least one transition
      and at least one distinct key, and every divisor is at least one. */
  lemma EdgeWeightsPositive(log: seq<Row>, weight: Option<KeyColumn>, normType: Option<string>, i: nat)
    requires GetEdgeList(log, weight, normType).Ok?
    requires i < |GetEdgeList(log, weight, normType).value|
    ensures GetEdgeList(log, weight, normType).value[i].weight > 0.0
  {
    var sh := Shift(log);
    var ts := Transitions(sh);
    var K := Pairs(ts);
    var norm := ParseNorm(normType).value;
    assert GetEdgeList(log, weight, normType).value == EdgesOver(K, sh, weight, norm);
    EdgesOverWeight(K, sh, weight, norm, i);
    assert Observed(ts, K[i]);
    RawWeightPositive(ts, K[i], weight);
    PositiveQuotient(RawWeight(ts, K[i], weight) as real, Divisor(sh, ts, K[i], weight, norm) as real);
  }

  /** An observed pair has at least one transition and at least one distinct key. */
  lemma RawWeightPositive(ts: seq<Transition>, p: Pair, weight: Option<KeyColumn>)
    requires Observed(ts, p)
    ensures RawWeight(ts, p, weight) >= 1
  {
    CountPositive(ts, p, None);
    if weight.Some? {
      var k :| 0 <= k < |ts| && PairOf(ts[k]) == p;
      assert KeyOf(ts[k].row, weight.value) in KeysOn(ts, p, weight.value);
    }
  }

  lemma PositiveQuotient(a: real, b: real)
    requires a > 0.0 && b > 0.0
    ensures a / b > 0.0
  {
  }

}
