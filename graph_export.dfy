/** What plot_graph hands to the renderer: the highlight class of each configured
    role event, the node weights and the edge list. The rendering itself is not
    part of this model. */
module GraphExport {
  import opened Wrappers
  import opened EventLog
  import opened EdgeList

  /** The roles plot_graph reads, in dictionary order, with their highlight classes. */
  function HighlightRoles(config: Config): seq<(Option<Event>, string)> {
    [(config.positiveTarget, "nice_target"),
     (config.negativeTarget, "bad_target"),
     (config.sourceEvent, "source")]
  }

  /** The class a highlighted event ends up with: the last role that names it wins. */
  function RoleClass(config: Config, e: Event): string {
    if config.sourceEvent == Some(e) then "source"
    else if config.negativeTarget == Some(e) then "bad_target"
    else "nice_target"
  }

  predicate IsRoleEvent(config: Config, e: Event) {
    config.positiveTarget == Some(e) || config.negativeTarget == Some(e) || config.sourceEvent == Some(e)
  }

  /** node_params: the given mapping when there is one; otherwise every configured
      role event mapped to its class, skipping roles that are not set. */
  method NodeParams(config: Config, given: Option<map<Event, string>>) returns (params: map<Event, string>)
    ensures given.Some? ==> params == given.value
    ensures given.None? ==> forall e :: e in params <==> IsRoleEvent(config, e)
    ensures given.None? ==> forall e :: e in params ==> params[e] == RoleClass(config, e)
  {
    if given.Some? {
      return given.value;
    }
    var roles := HighlightRoles(config);
    params := map[];
    for k := 0 to |roles|
      invariant forall e :: e in params <==> exists j :: 0 <= j < k && roles[j].0 == Some(e)
      invariant forall e :: e in params ==> params[e] == roles[LastRole(roles, e, k)].1
    {
      var (name, val) := roles[k];
      if name.None? {
        continue;
      }
      params := params[name.value := val];
    }
    AllRolesPlaced(config, params);
  }

  /** A dictionary built from all three roles holds exactly the role events, each
      with the class of the last role naming it. */
  lemma AllRolesPlaced(config: Config, params: map<Event, string>)
    requires forall e :: e in params <==> exists j :: 0 <= j < 3 && HighlightRoles(config)[j].0 == Some(e)
    requires forall e :: e in params ==> params[e] == HighlightRoles(config)[LastRole(HighlightRoles(config), e, 3)].1
    ensures forall e :: e in params <==> IsRoleEvent(config, e)
    ensures forall e :: e in params ==> params[e] == RoleClass(config, e)
  {
    var roles := HighlightRoles(config);
    assert roles[0].0 == config.positiveTarget && roles[1].0 == config.negativeTarget &&
           roles[2].0 == config.sourceEvent;
    forall e | IsRoleEvent(config, e) ensures e in params {
      if config.positiveTarget == Some(e) { assert roles[0].0 == Some(e); }
      else if config.negativeTarget == Some(e) { assert roles[1].0 == Some(e); }
      else { assert roles[2].0 == Some(e); }
    }
  }

  /** The index of the last of the first k roles that names e (0 when none does). */
  function LastRole(roles: seq<(Option<Event>, string)>, e: Event, k: nat): (r: nat)
    requires k <= |roles|
    ensures (exists j :: 0 <= j < k && roles[j].0 == Some(e)) ==>
      r < k && roles[r].0 == Some(e) && forall j :: r < j < k ==> roles[j].0 != Some(e)
  {
    if k == 0 then 0
    else if roles[k - 1].0 == Some(e) then k - 1
    else LastRole(roles, e, k - 1)
  }

  /** Number of rows of event e among the first n rows. */
  function EventCount(log: seq<Row>, e: Event, n: nat): nat
    requires n <= |log|
  {
    if n == 0 then 0 else EventCount(log, e, n - 1) + (if log[n - 1].event == e then 1 else 0)
  }

  /** value_counts().to_dict() of the event column over the first n rows. */
  function ValueCounts(log: seq<Row>, n: nat): (r: map<Event, nat>)
    requires n <= |log|
    ensures forall e :: e in r <==> exists i :: 0 <= i < n && log[i].event == e
    ensures forall e :: e in r ==> r[e] == EventCount(log, e, n) && r[e] >= 1
    ensures forall e :: e !in r ==> EventCount(log, e, n) == 0
  {
    if n == 0 then map[]
    else
      var prev := ValueCounts(log, n - 1);
      var e := log[n - 1].event;
      prev[e := (if e in prev then prev[e] else 0) + 1]
  }

  /** A count is the number of rows that carry the event. */
  lemma {:induction false} EventCountIsRows(log: seq<Row>, e: Event, n: nat)
    requires n <= |log|
    ensures EventCount(log, e, n) == |set i | 0 <= i < n && log[i].event == e|
  {
    if n > 0 {
      EventCountIsRows(log, e, n - 1);
      RowsOfEventSnoc(log, e, n);
    }
  }

  /** The rows of e among the first n are those among the first n - 1, plus row
      n - 1 when it carries e. */
  lemma RowsOfEventSnoc(log: seq<Row>, e: Event, n: nat)
    requires 0 < n <= |log|
    ensures |set i | 0 <= i < n && log[i].event == e| ==
      |set i | 0 <= i < n - 1 && log[i].event == e| + (if log[n - 1].event == e then 1 else 0)
  {
    var prev := set i | 0 <= i < n - 1 && log[i].event == e;
    var all := set i | 0 <= i < n && log[i].event == e;
    if log[n - 1].event == e {
      assert all == prev + {n - 1};
      assert n - 1 !in prev;
    } else {
      assert all == prev;
    }
  }

  /** node_weights or value_counts: a missing or empty mapping falls back to the
      event counts of the log. */
  function NodeWeights(log: seq<Row>, given: Option<map<Event, nat>>): (r: map<Event, nat>)
    ensures given.Some? && |given.value| > 0 ==> r == given.value
    ensures (given.None? || |given.value| == 0) ==>
      forall e :: e in r <==> exists i :: 0 <= i < |log| && log[i].event == e
    ensures (given.None? || |given.value| == 0) ==>
      forall e :: e in r ==> r[e] == EventCount(log, e, |log|)
  {
    if given.Some? && |given.value| > 0 then given.value else ValueCounts(log, |log|)
  }

  datatype GraphInput = GraphInput(edges: seq<Edge>, nodeParams: map<Event, string>, nodeWeights: map<Event, nat>)

  /** plot_graph up to the renderer: the edge list with the norm_type passed in,
      the highlight classes and the node weights. */
  method PlotGraphInput(log: seq<Row>, config: Config, nodeParams: Option<map<Event, string>>,
                        weight: Option<KeyColumn>, nodeWeights: Option<map<Event, nat>>, normType: Option<string>)
    returns (res: Result<GraphInput, Error>)
    ensures res.Err? <==> GetEdgeList(log, weight, normType).Err?
    ensures res.Err? ==> res.error == GetEdgeList(log, weight, normType).error
    ensures res.Ok? ==> res.value.edges == GetEdgeList(log, weight, normType).value
    ensures res.Ok? && nodeParams.Some? ==> res.value.nodeParams == nodeParams.value
    ensures res.Ok? && nodeParams.None? ==>
      forall e :: e in res.value.nodeParams <==> IsRoleEvent(config, e)
    ensures res.Ok? && nodeParams.None? ==>
      forall e :: e in res.value.nodeParams ==> res.value.nodeParams[e] == RoleClass(config, e)
    ensures res.Ok? ==> res.value.nodeWeights == NodeWeights(log, nodeWeights)
  {
    var params := NodeParams(config, nodeParams);
    var weights := NodeWeights(log, nodeWeights);
    var edges := GetEdgeList(log, weight, normType);
    if edges.Err? {
      return Err(edges.error);
    }
    res := Ok(GraphInput(edges.value, params, weights));
  }
}
