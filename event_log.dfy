/** The event log that every analytic reads, the role configuration passed to
    them as an explicit value, and the errors they raise. */
module EventLog {
  import opened Wrappers

  type Event = string

  /** One row of the log: entity id (the index column), event name, timestamp in
      whole seconds, and one auxiliary integer column (for example a session id)
      that can serve as the weighting key. */
  datatype Row = Row(entity: int, event: Event, time: int, aux: int)

  /** The column whose distinct values weight a transition or a step-matrix cell. */
  datatype KeyColumn = ByEntity | ByAux

  function KeyOf(r: Row, k: KeyColumn): int {
    match k
    case ByEntity => r.entity
    case ByAux => r.aux
  }

  /** The roles of the retention configuration that the analytics read.
      A role that is not configured is None. */
  datatype Config = Config(
    positiveTarget: Option<Event>,
    negativeTarget: Option<Event>,
    sourceEvent: Option<Event>,
    targetEventList: seq<Event>)

  datatype Error =
    | UnknownNormType(normType: string)      // get_edgelist, norm_type not in {None, 'full', 'node'}
    | MissingRole(role: string)              // a configuration key that is not set
    | NoTargetEvent(target: Event)           // reverse step matrix: no segment ends in a target
    | EmptyArgmax                            // idxmax over a matrix with no rows left
    | LengthMismatch                         // relabelling the columns of an empty reverse matrix
    | NoSplitCriterion                       // split_sessions with neither by_event nor thresh

  /** Row a comes no later than row b in the (entity, time) order. */
  predicate RowLe(a: Row, b: Row) {
    a.entity < b.entity || (a.entity == b.entity && a.time <= b.time)
  }

  /** The log is sorted by (entity, time), as get_shift leaves it. */
  predicate Sorted(log: seq<Row>) {
    forall i, j :: 0 <= i < j < |log| ==> RowLe(log[i], log[j])
  }
}
