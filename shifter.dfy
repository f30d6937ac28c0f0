/** get_shift: every row paired with the event and timestamp of the next row of the
    same entity (groupby(index).shift(-1) over the log sorted by entity and time). */
module Shifter {
  import opened Wrappers
  import opened EventLog

  /** The next_<event> and next_<time> columns of one row. */
  datatype Next = Next(event: Event, time: int)

  datatype Shifted = Shifted(row: Row, next: Option<Next>)

  /** The event and time of the first row of s that belongs to entity e. */
  function NextOf(s: seq<Row>, e: int): (r: Option<Next>)
    ensures r.None? <==> forall k :: 0 <= k < |s| ==> s[k].entity != e
  {
    if s == [] then None
    else if s[0].entity == e then Some(Next(s[0].event, s[0].time))
    else NextOf(s[1..], e)
  }

  /** The log with the two shifted columns added; every original field is kept. */
  function Shift(log: seq<Row>): (r: seq<Shifted>)
    ensures |r| == |log|
    ensures forall i :: 0 <= i < |log| ==> r[i].row == log[i]
  {
    if log == [] then []
    else [Shifted(log[0], NextOf(log[1..], log[0].entity))] + Shift(log[1..])
  }

  /** The rows of entity e, in log order. */
  function RowsOf(log: seq<Row>, e: int): (r: seq<Row>)
    ensures forall k :: 0 <= k < |r| ==> r[k].entity == e
  {
    if log == [] then []
    else if log[0].entity == e then [log[0]] + RowsOf(log[1..], e)
    else RowsOf(log[1..], e)
  }

  /** The shifted rows of entity e, in log order. */
  function ShiftedOf(sh: seq<Shifted>, e: int): seq<Shifted> {
    if sh == [] then []
    else if sh[0].row.entity == e then [sh[0]] + ShiftedOf(sh[1..], e)
    else ShiftedOf(sh[1..], e)
  }

  lemma {:induction false} NextOfIsFirstOfEntity(s: seq<Row>, e: int)
    ensures NextOf(s, e) == if RowsOf(s, e) == [] then None
                            else Some(Next(RowsOf(s, e)[0].event, RowsOf(s, e)[0].time))
  {
    if s != [] && s[0].entity != e { NextOfIsFirstOfEntity(s[1..], e); }
  }

  /** The shifted cells of the k-th of the rows rs: the row after it, if any. */
  function SuccessorOf(rs: seq<Row>, k: nat): Option<Next>
    requires k < |rs|
  {
    if k + 1 < |rs| then Some(Next(rs[k + 1].event, rs[k + 1].time)) else None
  }

  /** ss pairs each row of rs with the event and time of the row after it. */
  predicate PairsWithSuccessor(ss: seq<Shifted>, rs: seq<Row>) {
    |ss| == |rs| &&
    forall k :: 0 <= k < |rs| ==> ss[k].row == rs[k] && ss[k].next == SuccessorOf(rs, k)
  }

  lemma PairsWithSuccessorCons(x: Row, ss: seq<Shifted>, rs: seq<Row>)
    requires PairsWithSuccessor(ss, rs)
    ensures PairsWithSuccessor(
      [Shifted(x, if rs == [] then None else Some(Next(rs[0].event, rs[0].time)))] + ss, [x] + rs)
  {
    var ss' := [Shifted(x, if rs == [] then None else Some(Next(rs[0].event, rs[0].time)))] + ss;
    var rs' := [x] + rs;
    forall k | 0 < k < |rs'|
      ensures ss'[k].row == rs'[k] && ss'[k].next == SuccessorOf(rs', k)
    {
      assert ss'[k] == ss[k - 1] && rs'[k] == rs[k - 1];
      assert ss[k - 1].next == SuccessorOf(rs, k - 1);
    }
  }

  /** Within each entity, the k-th row's next event and next time are those of the
      entity's (k+1)-th row, the entity's last row has none, and the row itself is
      unchanged. */
  lemma {:induction false} ShiftWithinEntity(log: seq<Row>, e: int)
    ensures PairsWithSuccessor(ShiftedOf(Shift(log), e), RowsOf(log, e))
  {
    if log != [] {
      ShiftWithinEntity(log[1..], e);
      assert Shift(log)[1..] == Shift(log[1..]);
      if log[0].entity == e {
        NextOfIsFirstOfEntity(log[1..], e);
        PairsWithSuccessorCons(log[0], ShiftedOf(Shift(log[1..]), e), RowsOf(log[1..], e));
      }
    }
  }

  /** On a log sorted by (entity, time), the next row of an entity is simply the
      following row when it has the same entity, and there is none otherwise. */
  lemma {:induction false} ShiftOnSortedLog(log: seq<Row>, i: nat)
    requires Sorted(log)
    requires i < |log|
    ensures Shift(log)[i].next ==
      (if i + 1 < |log| && log[i + 1].entity == log[i].entity
       then Some(Next(log[i + 1].event, log[i + 1].time))
       else None)
    decreases i
  {
    if i > 0 {
      SortedTail(log);
      ShiftOnSortedLog(log[1..], i - 1);
      assert Shift(log)[i] == Shift(log[1..])[i - 1];
    } else if |log| > 1 && log[1].entity != log[0].entity {
      LaterEntitiesDiffer(log);
    }
  }

  lemma SortedTail(log: seq<Row>)
    requires Sorted(log) && log != []
    ensures Sorted(log[1..])
  {
    forall a, b | 0 <= a < b < |log[1..]| ensures RowLe(log[1..][a], log[1..][b]) {
      assert log[1..][a] == log[a + 1] && log[1..][b] == log[b + 1];
    }
  }

  /** In a sorted log, once the entity changes after the first row it never returns. */
  lemma LaterEntitiesDiffer(log: seq<Row>)
    requires Sorted(log) && |log| > 1 && log[1].entity != log[0].entity
    ensures forall k :: 0 <= k < |log[1..]| ==> log[1..][k].entity != log[0].entity
  {
    forall k | 0 <= k < |log[1..]| ensures log[1..][k].entity != log[0].entity {
      assert RowLe(log[0], log[1]) && RowLe(log[0], log[k + 1]);
      if k > 0 { assert RowLe(log[1], log[k + 1]); }
    }
  }
}
