/** get_adjacency: the edge list handed to a directed graph and read back as a
    dense matrix whose rows and columns are both indexed by the graph's nodes. */
module Adjacency {
  import opened Wrappers
  import opened EventLog
  import opened EdgeList

  /** A square matrix: one cell for every ordered pair of nodes. */
  datatype Matrix = Matrix(nodes: set<Event>, cell: map<Pair, real>)

  /** The nodes the graph gets from its edges: every source and every target. */
  function Endpoints(es: seq<Edge>): set<Event> {
    (set i | 0 <= i < |es| :: es[i].source) + (set i | 0 <= i < |es| :: es[i].target)
  }

  /** The weight the graph keeps for pair p: that of the last edge added along p,
      or 0 for a pair with no edge. */
  function WeightOf(es: seq<Edge>, p: Pair): real {
    if es == [] then 0.0
    else if (es[|es| - 1].source, es[|es| - 1].target) == p then es[|es| - 1].weight
    else WeightOf(es[..|es| - 1], p)
  }

  function Square(nodes: set<Event>): set<Pair> {
    set s, t | s in nodes && t in nodes :: (s, t)
  }

  function Project(es: seq<Edge>): (m: Matrix)
    ensures m.nodes == Endpoints(es)
    ensures m.cell.Keys == Square(m.nodes)
  {
    var nodes := Endpoints(es);
    Matrix(nodes, map p | p in Square(nodes) :: WeightOf(es, p))
  }

  /** get_adjacency over a log already sorted by (entity, time). */
  function GetAdjacency(log: seq<Row>, weight: Option<KeyColumn>, normType: Option<string>): (r: Result<Matrix, Error>)
    ensures r.Err? <==> GetEdgeList(log, weight, normType).Err?
    ensures r.Err? ==> r.error == UnknownNormType(normType.value)
  {
    match GetEdgeList(log, weight, normType)
    case Err(e) => Err(e)
    case Ok(es) => Ok(Project(es))
  }

  lemma {:induction false} WeightOfDistinct(es: seq<Edge>, i: nat)
    requires forall a, b :: 0 <= a < b < |es| ==> (es[a].source, es[a].target) != (es[b].source, es[b].target)
    requires i < |es|
    ensures WeightOf(es, (es[i].source, es[i].target)) == es[i].weight
    decreases |es|
  {
    if i < |es| - 1 {
      var init := es[..|es| - 1];
      assert init[i] == es[i];
      WeightOfDistinct(init, i);
    }
  }

  /** add_weighted_edges_from keeps the weight of the last edge along a pair. */
  lemma {:induction false} WeightOfLast(es: seq<Edge>, k: nat)
    requires k < |es|
    requires forall j :: k < j < |es| ==> (es[j].source, es[j].target) != (es[k].source, es[k].target)
    ensures WeightOf(es, (es[k].source, es[k].target)) == es[k].weight
    decreases |es|
  {
    if k < |es| - 1 {
      var init := es[..|es| - 1];
      assert init[k] == es[k];
      forall j | k < j < |init| ensures (init[j].source, init[j].target) != (init[k].source, init[k].target) {
        assert init[j] == es[j];
      }
      WeightOfLast(init, k);
    }
  }

  lemma {:induction false} WeightOfAbsent(es: seq<Edge>, p: Pair)
    requires !HasEdge(es, p)
    ensures WeightOf(es, p) == 0.0
    decreases |es|
  {
    if es != [] {
      var init := es[..|es| - 1];
      forall i | 0 <= i < |init| ensures (init[i].source, init[i].target) != p {
        assert init[i] == es[i];
      }
      WeightOfAbsent(init, p);
    }
  }

  /** The adjacency matrix is square over the events seen in edges; its node set
      is exactly the sources and targets of the edge list; the cell of (s, t)
      is the edge weight of (s, t), or 0 when that pair has no edge. */
  lemma AdjacencyCells(log: seq<Row>, weight: Option<KeyColumn>, normType: Option<string>, s: Event, t: Event)
    requires GetAdjacency(log, weight, normType).Ok?
    ensures var m := GetAdjacency(log, weight, normType).value;
            var es := GetEdgeList(log, weight, normType).value;
      m.nodes == Endpoints(es) && m.cell.Keys == Square(m.nodes) &&
      (s in m.nodes && t in m.nodes ==>
        (forall i :: 0 <= i < |es| && es[i].source == s && es[i].target == t ==> m.cell[(s, t)] == es[i].weight) &&
        (!HasEdge(es, (s, t)) ==> m.cell[(s, t)] == 0.0))
  {
    var es := GetEdgeList(log, weight, normType).value;
    var m := GetAdjacency(log, weight, normType).value;
    assert m == Project(es);
    EdgeListPairs(log, weight, normType, (s, t));
    if s in m.nodes && t in m.nodes {
      assert (s, t) in Square(m.nodes);
      forall i | 0 <= i < |es| && es[i].source == s && es[i].target == t ensures m.cell[(s, t)] == es[i].weight {
        WeightOfDistinct(es, i);
      }
      if !HasEdge(es, (s, t)) { WeightOfAbsent(es, (s, t)); }
    }
  }

  /** Reading the edges back off the matrix: a cell is non-zero exactly when the
      edge list has an edge along that pair. */
  lemma AdjacencyNonZeroIsEdge(log: seq<Row>, weight: Option<KeyColumn>, normType: Option<string>, s: Event, t: Event)
    requires GetAdjacency(log, weight, normType).Ok?
    requires s in GetAdjacency(log, weight, normType).value.nodes
    requires t in GetAdjacency(log, weight, normType).value.nodes
    ensures GetAdjacency(log, weight, normType).value.cell[(s, t)] != 0.0 <==>
            HasEdge(GetEdgeList(log, weight, normType).value, (s, t))
  {
    var es := GetEdgeList(log, weight, normType).value;
    var m := GetAdjacency(log, weight, normType).value;
    AdjacencyCells(log, weight, normType, s, t);
    if HasEdge(es, (s, t)) {
      var i :| 0 <= i < |es| && (es[i].source, es[i].target) == (s, t);
      EdgeWeightsPositive(log, weight, normType, i);
    }
  }
}
