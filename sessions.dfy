/** split_sessions: every row gets a session id '<entity>_<ordinal>'. In gap mode
    a pause longer than the threshold after a row starts a new session at the
    entity's next row, optionally closed by an end-of-session row one second after
    the last event; in marker mode each occurrence of the marker event opens a new
    session. */
module Sessions {
  import opened Wrappers
  import opened EventLog
  import opened Text
  import opened Shifter
  import opened Filtering

  /** A row with its eos_mask value. */
  datatype Marked = Marked(row: Row, gap: bool)

  /** A row of the result with its session_col value. */
  datatype Labelled = Labelled(row: Row, session: string)

  /** res[index_col].map(str) + '_' + ordinal. */
  function SessionId(entity: int, ordinal: nat): string {
    IntToString(entity) + "_" + NatToString(ordinal)
  }

  /** The position of the first ch in s, or |s| when there is none. */
  function IndexOf(s: string, ch: char): (r: nat)
    ensures r <= |s|
  {
    if s == [] then 0 else if s[0] == ch then 0 else 1 + IndexOf(s[1..], ch)
  }

  lemma {:induction false} IndexOfAfter(a: string, ch: char, b: string)
    requires forall i :: 0 <= i < |a| ==> a[i] != ch
    ensures IndexOf(a + [ch] + b, ch) == |a|
  {
    if a != [] {
      assert (a + [ch] + b)[1..] == a[1..] + [ch] + b;
      IndexOfAfter(a[1..], ch, b);
    }
  }

  /** Session ids name their entity and ordinal unambiguously. */
  lemma SessionIdInjective(e1: int, o1: nat, e2: int, o2: nat)
    requires SessionId(e1, o1) == SessionId(e2, o2)
    ensures e1 == e2 && o1 == o2
  {
    var a1, a2 := IntToString(e1), IntToString(e2);
    var s := SessionId(e1, o1);
    IndexOfAfter(a1, '_', NatToString(o1));
    IndexOfAfter(a2, '_', NatToString(o2));
    assert s == a1 + ['_'] + NatToString(o1) == a2 + ['_'] + NatToString(o2);
    assert |a1| == |a2|;
    assert a1 == s[..|a1|] == a2;
    assert NatToString(o1) == s[|a1| + 1..] == NatToString(o2);
    IntToStringInjective(e1, e2);
    NatToStringInjective(o1, o2);
  }

  // ---------------------------------------------------------------------------
  // Gap mode

  /** eos_mask: the entity's next row comes more than thresh seconds later. The last
      row of an entity has no successor, its time delta is NaN and the mask False. */
  predicate GapAfter(s: Shifted, thresh: int) {
    s.next.Some? && s.next.value.time - s.row.time > thresh
  }

  /** The mask of every row of the full log, before end-of-session rows are dropped. */
  function Mark(log: seq<Row>, thresh: int): (r: seq<Marked>)
    ensures |r| == |log|
    ensures forall i :: 0 <= i < |log| ==> r[i].row == log[i] && r[i].gap == GapAfter(Shift(log)[i], thresh)
  {
    var sh := Shift(log);
    seq(|log|, i requires 0 <= i < |log| => Marked(log[i], GapAfter(sh[i], thresh)))
  }

  /** On a log sorted by (entity, time), a row is masked exactly when the next row
      belongs to the same entity and comes more than thresh seconds later. */
  lemma MarkOnSortedLog(log: seq<Row>, thresh: int, i: nat)
    requires Sorted(log) && i < |log|
    ensures Mark(log, thresh)[i].gap <==>
      i + 1 < |log| && log[i + 1].entity == log[i].entity && log[i + 1].time - log[i].time > thresh
  {
    ShiftOnSortedLog(log, i);
  }

  /** The row mask res[event_col] != eos_event (every row when there is no eos_event). */
  function NotEos(eos: Option<Event>): Marked -> bool {
    (m: Marked) => eos.None? || m.row.event != eos.value
  }

  /** res[res[event_col] != eos_event]: the rows of other events, each keeping its
      mask, in their order and with their multiplicity. */
  function WithoutEvent(ms: seq<Marked>, eos: Option<Event>): (r: seq<Marked>)
    ensures |r| <= |ms|
    ensures forall m :: m in r <==> m in ms && (eos.None? || m.row.event != eos.value)
    ensures forall m :: multiset(r)[m] == if eos.None? || m.row.event != eos.value then multiset(ms)[m] else 0
    ensures eos.None? ==> r == ms
  {
    Filter(ms, NotEos(eos))
  }

  /** The remaining rows are those of ms at strictly increasing positions idx, and a
      row of ms remains exactly when it is not of the eos event. */
  lemma WithoutEventOrder(ms: seq<Marked>, eos: Option<Event>) returns (idx: seq<nat>)
    ensures |idx| == |WithoutEvent(ms, eos)|
    ensures forall k :: 0 <= k < |idx| ==> idx[k] < |ms| && WithoutEvent(ms, eos)[k] == ms[idx[k]]
    ensures forall k, l :: 0 <= k < l < |idx| ==> idx[k] < idx[l]
    ensures forall j :: 0 <= j < |ms| ==> (eos.None? || ms[j].row.event != eos.value <==> j in idx)
  {
    idx := FilterPositions(ms, NotEos(eos));
  }

  /** Number of masked rows of entity e before position n. */
  function GapsBefore(ms: seq<Marked>, e: int, n: nat): nat
    requires n <= |ms|
  {
    if n == 0 then 0
    else GapsBefore(ms, e, n - 1) + (if ms[n - 1].row.entity == e && ms[n - 1].gap then 1 else 0)
  }

  /** The gap-mode ordinal: the per-entity cumulative sum of the mask, shifted one row
      down within the entity, with 0 for the entity's first row. */
  function GapOrdinal(ms: seq<Marked>, i: nat): nat
    requires i < |ms|
  {
    GapsBefore(ms, ms[i].row.entity, i)
  }

  lemma {:induction false} GapsBeforeMonotone(ms: seq<Marked>, e: int, a: nat, b: nat)
    requires a <= b <= |ms|
    ensures GapsBefore(ms, e, a) <= GapsBefore(ms, e, b)
    decreases b - a
  {
    if a < b { GapsBeforeMonotone(ms, e, a, b - 1); }
  }

  lemma {:induction false} GapsBeforeSkip(ms: seq<Marked>, e: int, a: nat, b: nat)
    requires a <= b <= |ms|
    requires forall k :: a <= k < b ==> ms[k].row.entity != e
    ensures GapsBefore(ms, e, a) == GapsBefore(ms, e, b)
    decreases b - a
  {
    if a < b { GapsBeforeSkip(ms, e, a, b - 1); }
  }

  /** An entity's first row is in session 0. */
  lemma GapOrdinalFirst(ms: seq<Marked>, i: nat)
    requires i < |ms|
    requires forall k :: 0 <= k < i ==> ms[k].row.entity != ms[i].row.entity
    ensures GapOrdinal(ms, i) == 0
  {
    GapsBeforeSkip(ms, ms[i].row.entity, 0, i);
  }

  /** Ordinals never decrease along an entity, and they grow after a masked row. */
  lemma GapOrdinalMonotone(ms: seq<Marked>, i: nat, j: nat)
    requires i < j < |ms| && ms[i].row.entity == ms[j].row.entity
    ensures GapOrdinal(ms, i) + (if ms[i].gap then 1 else 0) <= GapOrdinal(ms, j)
  {
    GapsBeforeMonotone(ms, ms[i].row.entity, i + 1, j);
  }

  /** Between two consecutive rows of an entity the ordinal grows by one exactly
      when the earlier row is masked. */
  lemma GapOrdinalNext(ms: seq<Marked>, i: nat, j: nat)
    requires i < j < |ms| && ms[i].row.entity == ms[j].row.entity
    requires forall k :: i < k < j ==> ms[k].row.entity != ms[i].row.entity
    ensures GapOrdinal(ms, j) == GapOrdinal(ms, i) + (if ms[i].gap then 1 else 0)
  {
    GapsBeforeSkip(ms, ms[i].row.entity, i + 1, j);
  }

  /** The rows of res with their session ids, before end-of-session rows are added. */
  function GapLabelled(ms: seq<Marked>): (r: seq<Labelled>)
    ensures |r| == |ms|
  {
    seq(|ms|, i requires 0 <= i < |ms| => Labelled(ms[i].row, SessionId(ms[i].row.entity, GapOrdinal(ms, i))))
  }

  /** The end-of-session row for a masked row: event eos, one second later, same session. */
  function EosRow(l: Labelled, eos: Event): Labelled {
    Labelled(l.row.(event := eos, time := l.row.time + 1), l.session)
  }

  /** tmp = res.loc[eos_mask]: one end-of-session row per masked row of the first n rows. */
  function EosRows(ms: seq<Marked>, ls: seq<Labelled>, eos: Event, n: nat): (r: seq<Labelled>)
    requires n <= |ms| == |ls|
    ensures |r| <= n
  {
    if n == 0 then []
    else EosRows(ms, ls, eos, n - 1) + (if ms[n - 1].gap then [EosRow(ls[n - 1], eos)] else [])
  }

  /** Every end-of-session row closes a masked row: it carries that row's session id
      and comes one second after it ... */
  lemma {:induction false} EosRowOrigin(ms: seq<Marked>, ls: seq<Labelled>, eos: Event, n: nat, k: nat)
    returns (i: nat)
    requires n <= |ms| == |ls| && k < |EosRows(ms, ls, eos, n)|
    ensures i < n && ms[i].gap && EosRows(ms, ls, eos, n)[k] == EosRow(ls[i], eos)
  {
    var prev := EosRows(ms, ls, eos, n - 1);
    if k < |prev| {
      i := EosRowOrigin(ms, ls, eos, n - 1, k);
    } else {
      i := n - 1;
    }
  }

  /** ... and there is one for each masked row. */
  lemma {:induction false} EosRowCount(ms: seq<Marked>, ls: seq<Labelled>, eos: Event, n: nat)
    requires n <= |ms| == |ls|
    ensures |EosRows(ms, ls, eos, n)| == |set i | 0 <= i < n && ms[i].gap|
  {
    if n > 0 {
      EosRowCount(ms, ls, eos, n - 1);
      var prev := set i | 0 <= i < n - 1 && ms[i].gap;
      if ms[n - 1].gap {
        assert (set i | 0 <= i < n && ms[i].gap) == prev + {n - 1};
      } else {
        assert (set i | 0 <= i < n && ms[i].gap) == prev;
      }
    }
  }

  predicate SortedByTime(s: seq<Labelled>) {
    forall i, j :: 0 <= i < j < |s| ==> s[i].row.time <= s[j].row.time
  }

  /** Inserts x after every element that is not later than it. */
  function InsertByTime(x: Labelled, s: seq<Labelled>): (r: seq<Labelled>)
    requires SortedByTime(s)
    ensures SortedByTime(r)
    ensures multiset(r) == multiset(s) + multiset{x}
    decreases |s|
  {
    if s == [] then [x]
    else if x.row.time < s[0].row.time then [x] + s
    else
      var t := InsertByTime(x, s[1..]);
      assert s == [s[0]] + s[1..];
      NoEarlierThanHead(x, s, t);
      ConsSorted(s[0], t);
      assert multiset([s[0]] + t) == multiset{s[0]} + multiset(t);
      [s[0]] + t
  }

  lemma ConsSorted(h: Labelled, t: seq<Labelled>)
    requires SortedByTime(t)
    requires forall j :: 0 <= j < |t| ==> h.row.time <= t[j].row.time
    ensures SortedByTime([h] + t)
  {
    forall i, j | 0 <= i < j < |[h] + t| ensures ([h] + t)[i].row.time <= ([h] + t)[j].row.time {
      assert ([h] + t)[j] == t[j - 1];
      if i > 0 { assert ([h] + t)[i] == t[i - 1]; }
    }
  }

  /** Every element of a permutation of s[1..] plus x is no earlier than s[0]. */
  lemma NoEarlierThanHead(x: Labelled, s: seq<Labelled>, t: seq<Labelled>)
    requires s != [] && SortedByTime(s) && s[0].row.time <= x.row.time
    requires multiset(t) == multiset(s[1..]) + multiset{x}
    ensures forall j :: 0 <= j < |t| ==> s[0].row.time <= t[j].row.time
  {
    forall j | 0 <= j < |t| ensures s[0].row.time <= t[j].row.time {
      assert t[j] in multiset(t);
      if t[j] != x {
        assert t[j] in multiset(s[1..]);
        var k :| 0 <= k < |s[1..]| && s[1..][k] == t[j];
        assert s[k + 1] == t[j];
      }
    }
  }

  /** res.sort_values(time_col): sorted by time and a permutation of its input. */
  method SortByTime(s: seq<Labelled>) returns (r: seq<Labelled>)
    ensures SortedByTime(r)
    ensures multiset(r) == multiset(s)
  {
    r := [];
    for i := 0 to |s|
      invariant SortedByTime(r)
      invariant multiset(r) == multiset(s[..i])
    {
      assert s[..i + 1] == s[..i] + [s[i]];
      r := InsertByTime(s[i], r);
    }
    assert s[..|s|] == s;
  }

  // ---------------------------------------------------------------------------
  // Marker mode

  /** Number of by_event rows of entity e before position n. */
  function MarkersBefore(log: seq<Row>, marker: Event, e: int, n: nat): nat
    requires n <= |log|
  {
    if n == 0 then 0
    else MarkersBefore(log, marker, e, n - 1) + (if log[n - 1].entity == e && log[n - 1].event == marker then 1 else 0)
  }

  /** The marker-mode ordinal: the per-entity cumulative count of by_event rows,
      including the row itself, so that a marker row opens its session. */
  function MarkerOrdinal(log: seq<Row>, marker: Event, i: nat): nat
    requires i < |log|
  {
    MarkersBefore(log, marker, log[i].entity, i + 1)
  }

  lemma {:induction false} MarkersBeforeSkip(log: seq<Row>, marker: Event, e: int, a: nat, b: nat)
    requires a <= b <= |log|
    requires forall k :: a <= k < b ==> log[k].entity != e
    ensures MarkersBefore(log, marker, e, a) == MarkersBefore(log, marker, e, b)
    decreases b - a
  {
    if a < b { MarkersBeforeSkip(log, marker, e, a, b - 1); }
  }

  lemma {:induction false} MarkersBeforeMonotone(log: seq<Row>, marker: Event, e: int, a: nat, b: nat)
    requires a <= b <= |log|
    ensures MarkersBefore(log, marker, e, a) <= MarkersBefore(log, marker, e, b)
    decreases b - a
  {
    if a < b { MarkersBeforeMonotone(log, marker, e, a, b - 1); }
  }

  /** Between two consecutive rows of an entity the ordinal grows by one exactly when
      the later row is the marker event. Before the entity's first marker the
      ordinal is 0. */
  lemma MarkerOrdinalNext(log: seq<Row>, marker: Event, i: nat, j: nat)
    requires i < j < |log| && log[i].entity == log[j].entity
    requires forall k :: i < k < j ==> log[k].entity != log[i].entity
    ensures MarkerOrdinal(log, marker, j) == MarkerOrdinal(log, marker, i) + (if log[j].event == marker then 1 else 0)
  {
    MarkersBeforeSkip(log, marker, log[i].entity, i + 1, j);
  }

  lemma MarkerOrdinalMonotone(log: seq<Row>, marker: Event, i: nat, j: nat)
    requires i < j < |log| && log[i].entity == log[j].entity
    ensures MarkerOrdinal(log, marker, i) + (if log[j].event == marker then 1 else 0) <= MarkerOrdinal(log, marker, j)
  {
    MarkersBeforeMonotone(log, marker, log[i].entity, i + 1, j);
  }

  // ---------------------------------------------------------------------------
  // split_sessions

  /** The per-entity counter as a dictionary that defaults to 0. */
  function CountOf(counts: map<int, nat>, e: int): nat {
    if e in counts then counts[e] else 0
  }

  /** The rows of the log with their marker-mode session ids. */
  function MarkerLabelled(log: seq<Row>, marker: Event): (r: seq<Labelled>)
    ensures |r| == |log|
  {
    seq(|log|, i requires 0 <= i < |log| => Labelled(log[i], SessionId(log[i].entity, MarkerOrdinal(log, marker, i))))
  }

  /** Labels the log by the marker event, counting per entity in one pass. */
  method LabelByMarker(log: seq<Row>, marker: Event) returns (out: seq<Labelled>)
    ensures out == MarkerLabelled(log, marker)
  {
    out := [];
    var counts: map<int, nat> := map[];
    for i := 0 to |log|
      invariant |out| == i
      invariant forall e :: CountOf(counts, e) == MarkersBefore(log, marker, e, i)
      invariant out == MarkerLabelled(log, marker)[..i]
    {
      var e := log[i].entity;
      var c := CountOf(counts, e) + (if log[i].event == marker then 1 else 0);
      MarkerCountsStep(log, marker, counts, i, c, counts[e := c]);
      counts := counts[e := c];
      PrefixSnoc(MarkerLabelled(log, marker), i);
      assert MarkerLabelled(log, marker)[i] == Labelled(log[i], SessionId(e, c));
      out := out + [Labelled(log[i], SessionId(e, c))];
    }
    assert MarkerLabelled(log, marker)[..|log|] == MarkerLabelled(log, marker);
  }

  /** Labels masked rows by the shifted per-entity count of gaps, in one pass. */
  method LabelByGaps(ms: seq<Marked>) returns (out: seq<Labelled>)
    ensures out == GapLabelled(ms)
  {
    out := [];
    var counts: map<int, nat> := map[];
    for i := 0 to |ms|
      invariant |out| == i
      invariant forall e :: CountOf(counts, e) == GapsBefore(ms, e, i)
      invariant out == GapLabelled(ms)[..i]
    {
      var e := ms[i].row.entity;
      var c := CountOf(counts, e);
      GapCountsStep(ms, counts, i, c, counts[e := c + (if ms[i].gap then 1 else 0)]);
      counts := counts[e := c + (if ms[i].gap then 1 else 0)];
      PrefixSnoc(GapLabelled(ms), i);
      out := out + [Labelled(ms[i].row, SessionId(e, c))];
    }
    assert GapLabelled(ms)[..|ms|] == GapLabelled(ms);
  }

  lemma PrefixSnoc<T>(s: seq<T>, i: nat)
    requires i < |s|
    ensures s[..i + 1] == s[..i] + [s[i]]
  {
  }

  /** One step of the marker-mode pass: the updated counter of row i's entity is
      its ordinal, and the dictionary then counts the markers up to row i. */
  lemma MarkerCountsStep(log: seq<Row>, marker: Event, counts: map<int, nat>, i: nat, c: nat, next: map<int, nat>)
    requires i < |log|
    requires forall e :: CountOf(counts, e) == MarkersBefore(log, marker, e, i)
    requires c == CountOf(counts, log[i].entity) + (if log[i].event == marker then 1 else 0)
    requires next == counts[log[i].entity := c]
    ensures c == MarkerOrdinal(log, marker, i)
    ensures forall w :: CountOf(next, w) == MarkersBefore(log, marker, w, i + 1)
  {
  }

  /** One step of the gap-mode pass: the counter of row i's entity is its ordinal,
      and after adding the row's mark the dictionary counts the gaps up to row i. */
  lemma GapCountsStep(ms: seq<Marked>, counts: map<int, nat>, i: nat, c: nat, next: map<int, nat>)
    requires i < |ms|
    requires forall e :: CountOf(counts, e) == GapsBefore(ms, e, i)
    requires c == CountOf(counts, ms[i].row.entity)
    requires next == counts[ms[i].row.entity := c + (if ms[i].gap then 1 else 0)]
    ensures c == GapOrdinal(ms, i)
    ensures forall w :: CountOf(next, w) == GapsBefore(ms, w, i + 1)
  {
  }

  /** split_sessions on a log sorted by (entity, time), timestamps in whole seconds. */
  method SplitSessions(log: seq<Row>, byEvent: Option<Event>, thresh: Option<int>, eos: Option<Event>)
    returns (res: Result<seq<Labelled>, Error>)
    ensures res.Err? <==> byEvent.None? && thresh.None?
    ensures res.Err? ==> res.error == NoSplitCriterion
    ensures res.Ok? && byEvent.Some? ==> res.value == MarkerLabelled(log, byEvent.value)
    ensures res.Ok? && byEvent.None? && eos.None? ==>
      res.value == GapLabelled(Mark(log, thresh.value))
    ensures res.Ok? && byEvent.None? && eos.Some? ==>
      var ms := WithoutEvent(Mark(log, thresh.value), eos);
      SortedByTime(res.value) &&
      multiset(res.value) == multiset(GapLabelled(ms) + EosRows(ms, GapLabelled(ms), eos.value, |ms|))
  {
    if byEvent.None? && thresh.None? {
      return Err(NoSplitCriterion);
    }
    if byEvent.Some? {
      var out := LabelByMarker(log, byEvent.value);
      return Ok(out);
    }
    var ms := WithoutEvent(Mark(log, thresh.value), eos);
    var out := LabelByGaps(ms);
    if eos.Some? {
      var tmp := CollectEosRows(ms, out, eos.value);
      out := SortByTime(out + tmp);
    }
    res := Ok(out);
  }

  /** tmp: the end-of-session rows of the masked rows, in row order. */
  method CollectEosRows(ms: seq<Marked>, ls: seq<Labelled>, eos: Event) returns (tmp: seq<Labelled>)
    requires |ms| == |ls|
    ensures tmp == EosRows(ms, ls, eos, |ms|)
  {
    tmp := [];
    for i := 0 to |ms|
      invariant tmp == EosRows(ms, ls, eos, i)
    {
      if ms[i].gap {
        tmp := tmp + [EosRow(ls[i], eos)];
      }
    }
  }
}
