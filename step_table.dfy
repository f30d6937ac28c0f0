/** The step matrix as a table (rows named by event, columns labelled by step) and
    the table operations of get_step_matrix: accumulation rows, pruning by a
    threshold, greedy dominance sorting, reverse relabelling and the final
    per-column re-normalisation. */
module StepTable {
  import opened Wrappers
  import opened EventLog
  import opened Text
  import opened Sums
  import opened Filtering

  /** A column label: a step number, or the text 'n' / 'n - k' of a reverse matrix. */
  datatype Label = Step(rank: int) | Named(text: string)

  datatype MatrixRow = MatrixRow(name: string, values: seq<real>)

  datatype Table = Table(cols: seq<Label>, rows: seq<MatrixRow>)

  /** Every row has one value per column. */
  predicate WellFormed(t: Table) {
    forall i :: 0 <= i < |t.rows| ==> |t.rows[i].values| == |t.cols|
  }

  function Names(rows: seq<MatrixRow>): seq<string> {
    seq(|rows|, i requires 0 <= i < |rows| => rows[i].name)
  }

  // ---------------------------------------------------------------------------
  // _add_accums

  /** The position of the first row called name: what agg.loc[name] reads. */
  function FindRow(rows: seq<MatrixRow>, name: string): (r: Option<nat>)
    ensures r.None? <==> forall i :: 0 <= i < |rows| ==> rows[i].name != name
    ensures r.Some? ==> r.value < |rows| && rows[r.value].name == name &&
                        forall i :: 0 <= i < r.value ==> rows[i].name != name
  {
    if rows == [] then None
    else if rows[0].name == name then Some(0)
    else match FindRow(rows[1..], name)
         case None => None
         case Some(k) => Some(k + 1)
  }

  /** cumsum().shift(1).fillna(0): entry k is the sum of the entries before k. */
  function ShiftedCumSum(v: seq<real>): (r: seq<real>)
    ensures |r| == |v|
    ensures |v| > 0 ==> r[0] == 0.0
    ensures forall k :: 0 <= k < |v| - 1 ==> r[k + 1] == r[k] + v[k]
  {
    var r := seq(|v|, k requires 0 <= k < |v| => Sum(v[..k]));
    assert forall k :: 0 <= k < |v| - 1 ==> v[..k + 1][..k] == v[..k];
    r
  }

  function Zeros(n: nat): (r: seq<real>)
    ensures |r| == n && forall k :: 0 <= k < n ==> r[k] == 0.0
  {
    seq(n, k => 0.0)
  }

  const AccumulatedPrefix: string := "Accumulated "

  /** The row 'Accumulated <name>': all zeros when no row is called name. */
  function AccumulatedRow(t: Table, name: string): (r: MatrixRow)
    requires WellFormed(t)
    ensures r.name == AccumulatedPrefix + name
    ensures |r.values| == |t.cols|
    ensures FindRow(t.rows, name).None? ==> forall k :: 0 <= k < |r.values| ==> r.values[k] == 0.0
  {
    match FindRow(t.rows, name)
    case None => MatrixRow(AccumulatedPrefix + name, Zeros(|t.cols|))
    case Some(k) => MatrixRow(AccumulatedPrefix + name, ShiftedCumSum(t.rows[k].values))
  }

  /** The accumulated row starts at 0 and adds the target row's entry of each
      column to reach the next column; for a non-negative row it never decreases. */
  lemma {:induction false} AccumulatedRowShape(t: Table, name: string, k: nat, j: nat)
    requires WellFormed(t)
    requires FindRow(t.rows, name).Some?
    requires j <= k < |t.cols|
    requires forall c :: 0 <= c < |t.cols| ==> t.rows[FindRow(t.rows, name).value].values[c] >= 0.0
    ensures AccumulatedRow(t, name).values[0] == 0.0
    ensures k + 1 < |t.cols| ==>
      AccumulatedRow(t, name).values[k + 1] ==
        AccumulatedRow(t, name).values[k] + t.rows[FindRow(t.rows, name).value].values[k]
    ensures AccumulatedRow(t, name).values[j] <= AccumulatedRow(t, name).values[k]
  {
    var v := t.rows[FindRow(t.rows, name).value].values;
    assert v[..0] == [];
    if k + 1 < |t.cols| {
      assert v[..k + 1][..k] == v[..k];
    }
    SumPrefixMonotone(v, j, k);
  }

  lemma {:induction false} SumPrefixMonotone(v: seq<real>, j: nat, k: nat)
    requires j <= k <= |v|
    requires forall c :: 0 <= c < |v| ==> v[c] >= 0.0
    ensures Sum(v[..j]) <= Sum(v[..k])
    decreases k - j
  {
    if j < k {
      SumPrefixMonotone(v, j, k - 1);
      assert v[..k][..k - 1] == v[..k - 1];
    }
  }

  /** Adding rows after the first row called name does not change which row
      agg.loc[name] finds. */
  lemma {:induction false} FindRowInPrefix(rows: seq<MatrixRow>, more: seq<MatrixRow>, name: string)
    requires FindRow(rows, name).Some?
    ensures FindRow(rows + more, name) == FindRow(rows, name)
  {
    var k := FindRow(rows, name).value;
    var r := FindRow(rows + more, name);
    assert (rows + more)[k] == rows[k];
    forall i | 0 <= i < k ensures (rows + more)[i].name != name {
      assert (rows + more)[i] == rows[i];
    }
  }

  /** The loop over target_event_list in the forward step matrix: each target
      appends its accumulated row, computed over the table as it stands then. */
  method AppendAccumulated(piv: Table, targets: seq<Event>) returns (r: Table)
    requires WellFormed(piv)
    ensures r == WithAccumulated(piv, targets)
    ensures WellFormed(r) && r.cols == piv.cols
    ensures |r.rows| == |piv.rows| + |targets|
    ensures r.rows[..|piv.rows|] == piv.rows
    ensures forall k :: 0 <= k < |targets| ==> AccumulatedAt(piv, r.rows, targets, k)
  {
    r := piv;
    var k := 0;
    while k < |targets|
      invariant 0 <= k <= |targets|
      invariant WellFormed(r) && r.cols == piv.cols
      invariant |r.rows| == |piv.rows| + k
      invariant r.rows[..|piv.rows|] == piv.rows
      invariant forall m :: 0 <= m < k ==> AccumulatedAt(piv, r.rows, targets, m)
      invariant r == WithAccumulated(piv, targets[..k])
    {
      var acc := AccumulatedRow(r, targets[k]);
      assert targets[..k + 1][..k] == targets[..k];
      AppendKeepsAccumulated(piv, r.rows, acc, targets, k);
      r := Table(r.cols, r.rows + [acc]);
      k := k + 1;
    }
    assert targets[..k] == targets;
  }

  /** The table after the loop over target_event_list: each target's accumulated
      row is computed over the table with the rows of the earlier targets. */
  function WithAccumulated(piv: Table, targets: seq<Event>): (r: Table)
    requires WellFormed(piv)
    ensures WellFormed(r) && r.cols == piv.cols
    decreases |targets|
  {
    if targets == [] then piv
    else
      var w := WithAccumulated(piv, targets[..|targets| - 1]);
      var acc := AccumulatedRow(w, targets[|targets| - 1]);
      assert forall i :: 0 <= i < |w.rows| + 1 ==> (w.rows + [acc])[i] == if i < |w.rows| then w.rows[i] else acc;
      Table(w.cols, w.rows + [acc])
  }

  /** Appending the accumulated row of the k-th target keeps the earlier ones. */
  lemma AppendKeepsAccumulated(piv: Table, rows: seq<MatrixRow>, acc: MatrixRow, targets: seq<Event>, k: nat)
    requires WellFormed(piv) && WellFormed(Table(piv.cols, rows))
    requires k < |targets| && |rows| == |piv.rows| + k && rows[..|piv.rows|] == piv.rows
    requires forall m :: 0 <= m < k ==> AccumulatedAt(piv, rows, targets, m)
    requires acc == AccumulatedRow(Table(piv.cols, rows), targets[k])
    ensures WellFormed(Table(piv.cols, rows + [acc]))
    ensures (rows + [acc])[..|piv.rows|] == piv.rows
    ensures forall m :: 0 <= m <= k ==> AccumulatedAt(piv, rows + [acc], targets, m)
  {
    var next := rows + [acc];
    assert next[..|rows|] == rows;
    assert next[..|piv.rows|] == rows[..|piv.rows|];
    forall m | 0 <= m < k ensures AccumulatedAt(piv, next, targets, m) {
      AccumulatedAtExtend(piv, rows, acc, targets, m);
    }
    assert AccumulatedAt(piv, next, targets, k);
  }

  lemma AccumulatedAtExtend(piv: Table, rows: seq<MatrixRow>, x: MatrixRow, targets: seq<Event>, m: nat)
    requires WellFormed(piv) && AccumulatedAt(piv, rows, targets, m)
    ensures AccumulatedAt(piv, rows + [x], targets, m)
  {
    assert (rows + [x])[..|piv.rows| + m] == rows[..|piv.rows| + m];
    assert (rows + [x])[|piv.rows| + m] == rows[|piv.rows| + m];
  }

  /** Row |piv.rows| + m of rows is the accumulated row of the m-th target over the
      rows before it. */
  predicate AccumulatedAt(piv: Table, rows: seq<MatrixRow>, targets: seq<Event>, m: nat)
    requires WellFormed(piv)
  {
    m < |targets| && |piv.rows| + m < |rows| &&
    WellFormed(Table(piv.cols, rows[..|piv.rows| + m])) &&
    rows[|piv.rows| + m] == AccumulatedRow(Table(piv.cols, rows[..|piv.rows| + m]), targets[m])
  }

  /** An accumulated row of a target that has its own row in the pivot is the
      shifted cumulative sum of that row, whatever was appended before it. */
  lemma AccumulatedOfEventRow(piv: Table, r: Table, targets: seq<Event>, k: nat)
    requires WellFormed(piv) && WellFormed(r) && r.cols == piv.cols
    requires |r.rows| == |piv.rows| + |targets| && r.rows[..|piv.rows|] == piv.rows
    requires k < |targets|
    requires AccumulatedAt(piv, r.rows, targets, k)
    requires FindRow(piv.rows, targets[k]).Some?
    ensures r.rows[|piv.rows| + k].values == ShiftedCumSum(piv.rows[FindRow(piv.rows, targets[k]).value].values)
  {
    var more := r.rows[|piv.rows|..|piv.rows| + k];
    PrefixSplit(r.rows, piv.rows, |piv.rows| + k);
    AccumulatedRowOfPrefix(piv, r.rows[..|piv.rows| + k], more, targets[k]);
  }

  lemma PrefixSplit(rows: seq<MatrixRow>, head: seq<MatrixRow>, n: nat)
    requires |head| <= n <= |rows| && rows[..|head|] == head
    ensures rows[..n] == head + rows[|head|..n]
  {
  }

  /** Rows appended after the pivot do not change the accumulated row of an event
      that has its own pivot row. */
  lemma AccumulatedRowOfPrefix(piv: Table, cur: seq<MatrixRow>, more: seq<MatrixRow>, name: string)
    requires WellFormed(piv) && cur == piv.rows + more && WellFormed(Table(piv.cols, cur))
    requires FindRow(piv.rows, name).Some?
    ensures AccumulatedRow(Table(piv.cols, cur), name).values ==
      ShiftedCumSum(piv.rows[FindRow(piv.rows, name).value].values)
  {
    FindRowInPrefix(piv.rows, more, name);
    var j := FindRow(piv.rows, name).value;
    assert cur[j] == piv.rows[j];
  }

  // ---------------------------------------------------------------------------
  // Pruning by thr

  /** The rows of a pruned matrix that survive whatever their values:
      index.str.startswith('Accumulated') or index.isin(target_event_list). */
  predicate AlwaysKept(row: MatrixRow, targets: seq<Event>) {
    IsPrefix("Accumulated", row.name) || row.name in targets
  }

  /** Some value of the row reaches the threshold: (piv >= thr).any(1). */
  predicate Reaches(row: MatrixRow, thr: real) {
    exists c :: 0 <= c < |row.values| && row.values[c] >= thr
  }

  /** A row that pruning keeps. */
  predicate Survives(row: MatrixRow, targets: seq<Event>, thr: real) {
    Reaches(row, thr) || AlwaysKept(row, targets)
  }

  /** The row mask of the pruning step. */
  function SurvivesIn(targets: seq<Event>, thr: real): MatrixRow -> bool {
    row => Survives(row, targets, thr)
  }

  /** thr == 0 keeps the table; otherwise the rows with no value >= thr go, except
      accumulated and target rows, and the others keep their order. */
  function Prune(t: Table, targets: seq<Event>, thr: real): (r: Table)
    ensures r.cols == t.cols
    ensures WellFormed(t) ==> WellFormed(r)
    ensures thr == 0.0 ==> r == t
    ensures thr != 0.0 ==> forall x :: x in r.rows <==> x in t.rows && Survives(x, targets, thr)
    ensures thr != 0.0 ==> forall x :: multiset(r.rows)[x] == if Survives(x, targets, thr) then multiset(t.rows)[x] else 0
  {
    if thr == 0.0 then t
    else
      var rows := Filter(t.rows, SurvivesIn(targets, thr));
      assert WellFormed(t) ==> forall i :: 0 <= i < |rows| ==> |rows[i].values| == |t.cols| by {
        if WellFormed(t) {
          forall i | 0 <= i < |rows| ensures |rows[i].values| == |t.cols| {
            assert rows[i] in t.rows;
          }
        }
      }
      Table(t.cols, rows)
  }

  /** With thr != 0 the kept rows are those of the table at strictly increasing
      positions idx, and a row of the table is kept exactly when it survives. */
  lemma PruneKeeps(t: Table, targets: seq<Event>, thr: real) returns (idx: seq<nat>)
    requires thr != 0.0
    ensures |idx| == |Prune(t, targets, thr).rows|
    ensures forall k :: 0 <= k < |idx| ==> idx[k] < |t.rows| && Prune(t, targets, thr).rows[k] == t.rows[idx[k]]
    ensures forall k, l :: 0 <= k < l < |idx| ==> idx[k] < idx[l]
    ensures forall j :: 0 <= j < |t.rows| ==> (Survives(t.rows[j], targets, thr) <==> j in idx)
  {
    idx := FilterPositions(t.rows, SurvivesIn(targets, thr));
  }

  // ---------------------------------------------------------------------------
  // _sort_matrix

  function Range(n: nat): (r: seq<nat>)
    ensures |r| == n && forall i :: 0 <= i < n ==> r[i] == i
  {
    seq(n, i => i)
  }

  /** Row a is picked over row b in column c by idxmax: b's value is smaller, or
      equal and b comes later in the original order. */
  predicate Beats(t: Table, a: nat, b: nat, c: nat)
    requires WellFormed(t)
  {
    a < |t.rows| && b < |t.rows| && c < |t.cols| &&
    (t.rows[b].values[c] < t.rows[a].values[c] ||
     (t.rows[b].values[c] == t.rows[a].values[c] && a < b))
  }

  function Reorder(t: Table, order: seq<nat>): (r: Table)
    requires forall i :: 0 <= i < |order| ==> order[i] < |t.rows|
    ensures r.cols == t.cols && |r.rows| == |order|
  {
    Table(t.cols, seq(|order|, i requires 0 <= i < |order| => t.rows[order[i]]))
  }

  /** Reordering rows by a permutation of their indices permutes the rows. */
  lemma ReorderPermutes(t: Table, order: seq<nat>)
    requires forall i :: 0 <= i < |order| ==> order[i] < |t.rows|
    requires multiset(order) == multiset(Range(|t.rows|))
    ensures multiset(Reorder(t, order).rows) == multiset(t.rows)
  {
    PickSameMultiset(t.rows, order, Range(|t.rows|));
    assert Pick(t.rows, Range(|t.rows|)) == t.rows;
    assert Pick(t.rows, order) == Reorder(t, order).rows;
  }

  predicate IndicesBelow(idx: seq<nat>, n: nat) {
    forall i :: 0 <= i < |idx| ==> idx[i] < n
  }

  function Pick(rows: seq<MatrixRow>, idx: seq<nat>): (r: seq<MatrixRow>)
    requires forall i :: 0 <= i < |idx| ==> idx[i] < |rows|
    ensures |r| == |idx| && forall i :: 0 <= i < |idx| ==> r[i] == rows[idx[i]]
  {
    seq(|idx|, i requires 0 <= i < |idx| => rows[idx[i]])
  }

  lemma MultisetRemove(a: seq<nat>, b: seq<nat>, p: nat)
    requires multiset(a) == multiset(b) && |a| > 0 && p < |b| && b[p] == a[0]
    ensures multiset(a[1..]) == multiset(b[..p] + b[p + 1..])
  {
    assert a == [a[0]] + a[1..];
    assert b == b[..p] + [b[p]] + b[p + 1..];
    var x := multiset{a[0]};
    assert multiset(a) == x + multiset(a[1..]);
    assert multiset(b) == x + multiset(b[..p] + b[p + 1..]);
    assert multiset(a[1..]) == multiset(a) - x;
  }

  lemma {:induction false} PickSameMultiset(rows: seq<MatrixRow>, a: seq<nat>, b: seq<nat>)
    requires forall i :: 0 <= i < |a| ==> a[i] < |rows|
    requires forall i :: 0 <= i < |b| ==> b[i] < |rows|
    requires multiset(a) == multiset(b)
    ensures multiset(Pick(rows, a)) == multiset(Pick(rows, b))
    decreases |a|
  {
    if a != [] {
      var x := a[0];
      assert x in multiset(b);
      var p :| 0 <= p < |b| && b[p] == x;
      var b' := b[..p] + b[p + 1..];
      MultisetRemove(a, b, p);
      PickSameMultiset(rows, a[1..], b');
      PickStep(rows, a, b, p);
    }
  }

  lemma PickStep(rows: seq<MatrixRow>, a: seq<nat>, b: seq<nat>, p: nat)
    requires forall i :: 0 <= i < |a| ==> a[i] < |rows|
    requires forall i :: 0 <= i < |b| ==> b[i] < |rows|
    requires |a| > 0 && p < |b| && b[p] == a[0]
    requires IndicesBelow(b[..p] + b[p + 1..], |rows|)
    requires multiset(Pick(rows, a[1..])) == multiset(Pick(rows, b[..p] + b[p + 1..]))
    ensures multiset(Pick(rows, a)) == multiset(Pick(rows, b))
  {
    PickFirst(rows, a);
    PickMiddle(rows, b, p);
    var ra, rb := multiset(Pick(rows, a)), multiset(Pick(rows, b));
    var ta, tb := multiset(Pick(rows, a[1..])), multiset(Pick(rows, b[..p] + b[p + 1..]));
    assert ra == multiset{rows[a[0]]} + ta;
    assert rb == multiset{rows[b[p]]} + tb;
  }

  lemma PickFirst(rows: seq<MatrixRow>, idx: seq<nat>)
    requires forall i :: 0 <= i < |idx| ==> idx[i] < |rows|
    requires |idx| > 0
    ensures multiset(Pick(rows, idx)) == multiset{rows[idx[0]]} + multiset(Pick(rows, idx[1..]))
  {
    assert Pick(rows, idx) == [rows[idx[0]]] + Pick(rows, idx[1..]);
  }

  /** Picking along idx gives row idx[p] and what picking along idx without position p gives. */
  lemma PickMiddle(rows: seq<MatrixRow>, idx: seq<nat>, p: nat)
    requires forall i :: 0 <= i < |idx| ==> idx[i] < |rows|
    requires p < |idx|
    ensures IndicesBelow(idx[..p] + idx[p + 1..], |rows|)
    ensures multiset(Pick(rows, idx)) == multiset{rows[idx[p]]} + multiset(Pick(rows, idx[..p] + idx[p + 1..]))
  {
    var u, w := idx[..p], idx[p..];
    assert idx == u + w;
    PickAppend(rows, u, w);
    PickFirst(rows, w);
    assert w[1..] == idx[p + 1..];
    PickAppend(rows, u, idx[p + 1..]);
  }

  lemma PickAppend(rows: seq<MatrixRow>, u: seq<nat>, v: seq<nat>)
    requires forall i :: 0 <= i < |u| ==> u[i] < |rows|
    requires forall i :: 0 <= i < |v| ==> v[i] < |rows|
    ensures forall i :: 0 <= i < |u + v| ==> (u + v)[i] < |rows|
    ensures Pick(rows, u + v) == Pick(rows, u) + Pick(rows, v)
  {
    forall i | 0 <= i < |u + v| ensures (u + v)[i] < |rows| {
      if i >= |u| { assert (u + v)[i] == v[i - |u|]; }
    }
    assert Pick(rows, u + v) == Pick(rows, u) + Pick(rows, v);
  }

  function Min(a: nat, b: nat): nat {
    if a < b then a else b
  }

  predicate StrictlyIncreasing(s: seq<nat>) {
    forall i, j :: 0 <= i < j < |s| ==> s[i] < s[j]
  }

  /** The first row holding the largest value of column c among the candidate rows. */
  method IdxMax(t: Table, cand: seq<nat>, c: nat) returns (best: nat)
    requires WellFormed(t) && c < |t.cols| && |cand| > 0
    requires forall j :: 0 <= j < |cand| ==> cand[j] < |t.rows|
    requires StrictlyIncreasing(cand)
    ensures best < |cand|
    ensures forall j :: 0 <= j < |cand| && j != best ==> Beats(t, cand[best], cand[j], c)
  {
    best := 0;
    var k := 1;
    while k < |cand|
      invariant 0 <= best < k <= |cand|
      invariant forall j :: 0 <= j < k ==> t.rows[cand[j]].values[c] <= t.rows[cand[best]].values[c]
      invariant forall j :: 0 <= j < best ==> t.rows[cand[j]].values[c] < t.rows[cand[best]].values[c]
    {
      if t.rows[cand[k]].values[c] > t.rows[cand[best]].values[c] {
        best := k;
      }
      k := k + 1;
    }
  }

  /** _sort_matrix: for each column in turn, the remaining row with the largest
      value there (the first such row on a tie) is taken next and dropped from the
      candidates; this stops when the columns or the rows run out, and the rows
      not taken follow. idxmax over a matrix without rows raises. */
  method SortMatrix(t: Table) returns (res: Result<Table, Error>, order: seq<nat>)
    requires WellFormed(t)
    ensures res.Err? <==> |t.rows| == 0 && |t.cols| > 0
    ensures res.Err? ==> res.error == EmptyArgmax
    ensures res.Ok? ==> IsSortOrder(t, order)
    ensures res.Ok? ==>
      && multiset(order) == multiset(Range(|t.rows|))
      && multiset(res.value.rows) == multiset(t.rows)
      && (forall i :: 0 <= i < |order| ==> order[i] < |t.rows|)
      && res.value == Reorder(t, order)
      && (forall i, j :: 0 <= i < j < |order| && i < Min(|t.cols|, |t.rows|) ==> Beats(t, order[i], order[j], i))
  {
    if |t.rows| == 0 && |t.cols| > 0 {
      return Err(EmptyArgmax), [];
    }
    order := SortOrder(t);
    ReorderPermutes(t, order);
    res := Ok(Reorder(t, order));
  }

  /** order is an order _sort_matrix can take the rows of t in: a permutation of the
      row indices whose i-th entry, for every step column i it reaches, beats every
      later entry in column i (a larger value, or an equal value and an earlier row). */
  predicate IsSortOrder(t: Table, order: seq<nat>)
    requires WellFormed(t)
  {
    && (forall i :: 0 <= i < |order| ==> order[i] < |t.rows|)
    && multiset(order) == multiset(Range(|t.rows|))
    && (forall i, j :: 0 <= i < j < |order| && i < Min(|t.cols|, |t.rows|) ==> Beats(t, order[i], order[j], i))
  }

  /** The loop of _sort_matrix: the order in which the rows are taken. */
  method SortOrder(t: Table) returns (order: seq<nat>)
    requires WellFormed(t)
    ensures multiset(order) == multiset(Range(|t.rows|))
    ensures forall i :: 0 <= i < |order| ==> order[i] < |t.rows|
    ensures forall i, j :: 0 <= i < j < |order| && i < Min(|t.cols|, |t.rows|) ==> Beats(t, order[i], order[j], i)
  {
    var remaining: seq<nat> := Range(|t.rows|);
    order := [];
    var c := 0;
    while c < |t.cols| && |remaining| > 0
      invariant 0 <= c <= |t.cols| && c == |order|
      invariant SortState(t, order, remaining)
    {
      var best := IdxMax(t, remaining, c);
      order, remaining := TakeBest(t, order, remaining, best);
      c := c + 1;
    }
    order := FinishOrder(t, order, remaining);
  }

  /** The loop state of _sort_matrix: the rows taken so far (order) and the rows
      still candidates (remaining, in original order) partition the rows, and the
      k-th row taken beats every row after it in column k. */
  predicate SortState(t: Table, order: seq<nat>, remaining: seq<nat>)
    requires WellFormed(t)
  {
    && multiset(order + remaining) == multiset(Range(|t.rows|))
    && (forall j :: 0 <= j < |remaining| ==> remaining[j] < |t.rows|)
    && (forall j :: 0 <= j < |order| ==> order[j] < |t.rows|)
    && StrictlyIncreasing(remaining)
    && (forall i, j :: 0 <= i < j < |order| ==> Beats(t, order[i], order[j], i))
    && (forall i, j :: 0 <= i < |order| && 0 <= j < |remaining| ==> Beats(t, order[i], remaining[j], i))
  }

  /** One step of the loop: remaining[best] is appended to order and dropped. */
  method TakeBest(t: Table, order: seq<nat>, remaining: seq<nat>, best: nat)
    returns (order': seq<nat>, remaining': seq<nat>)
    requires WellFormed(t) && SortState(t, order, remaining)
    requires |order| < |t.cols| && best < |remaining|
    requires forall j :: 0 <= j < |remaining| && j != best ==> Beats(t, remaining[best], remaining[j], |order|)
    ensures SortState(t, order', remaining')
    ensures order' == order + [remaining[best]] && |remaining'| == |remaining| - 1
  {
    var picked := remaining[best];
    var rest := remaining[..best] + remaining[best + 1..];
    RemoveAt(order, remaining, best);
    TakenBeatRest(t, order, remaining, best);
    order', remaining' := order + [picked], rest;
  }

  /** The rows taken, now including remaining[best], each beat the later ones in
      their own column, and the rows left over. */
  lemma TakenBeatRest(t: Table, order: seq<nat>, remaining: seq<nat>, best: nat)
    requires WellFormed(t) && best < |remaining| && |order| < |t.cols|
    requires forall j :: 0 <= j < |remaining| ==> remaining[j] < |t.rows|
    requires forall i, j :: 0 <= i < j < |order| ==> Beats(t, order[i], order[j], i)
    requires forall i, j :: 0 <= i < |order| && 0 <= j < |remaining| ==> Beats(t, order[i], remaining[j], i)
    requires forall j :: 0 <= j < |remaining| && j != best ==> Beats(t, remaining[best], remaining[j], |order|)
    ensures var order', rest := order + [remaining[best]], remaining[..best] + remaining[best + 1..];
      && (forall j :: 0 <= j < |rest| ==> rest[j] < |t.rows|)
      && (forall i, j :: 0 <= i < j < |order'| ==> Beats(t, order'[i], order'[j], i))
      && (forall i, j :: 0 <= i < |order'| && 0 <= j < |rest| ==> Beats(t, order'[i], rest[j], i))
  {
    var order', rest := order + [remaining[best]], remaining[..best] + remaining[best + 1..];
    forall i, j | 0 <= i < |order'| && 0 <= j < |rest| ensures rest[j] < |t.rows| && Beats(t, order'[i], rest[j], i) {
      var j' := if j < best then j else j + 1;
      assert rest[j] == remaining[j'];
    }
    forall i, j | 0 <= i < j < |order'| ensures Beats(t, order'[i], order'[j], i) {
      if j == |order| { assert order'[j] == remaining[best]; }
    }
    forall j | 0 <= j < |rest| ensures rest[j] < |t.rows| {
      var j' := if j < best then j else j + 1;
      assert rest[j] == remaining[j'];
    }
  }

  /** Moving remaining[best] to the end of order keeps the multiset of both and
      leaves the rest in increasing order. */
  lemma RemoveAt(order: seq<nat>, remaining: seq<nat>, best: nat)
    requires best < |remaining| && StrictlyIncreasing(remaining)
    ensures var rest := remaining[..best] + remaining[best + 1..];
      && multiset((order + [remaining[best]]) + rest) == multiset(order + remaining)
      && StrictlyIncreasing(rest)
  {
    var picked := remaining[best];
    var rest := remaining[..best] + remaining[best + 1..];
    assert remaining == remaining[..best] + [picked] + remaining[best + 1..];
    assert multiset(remaining) == multiset(remaining[..best]) + multiset([picked]) + multiset(remaining[best + 1..]);
    forall a, b | 0 <= a < b < |rest| ensures rest[a] < rest[b] {
      var a' := if a < best then a else a + 1;
      var b' := if b < best then b else b + 1;
      assert rest[a] == remaining[a'] && rest[b] == remaining[b'];
    }
  }

  /** After the loop the rows not taken follow, which gives the final order. */
  method FinishOrder(t: Table, order: seq<nat>, remaining: seq<nat>) returns (full: seq<nat>)
    requires WellFormed(t) && SortState(t, order, remaining)
    requires |order| == |t.cols| || remaining == []
    ensures multiset(full) == multiset(Range(|t.rows|))
    ensures forall i :: 0 <= i < |full| ==> full[i] < |t.rows|
    ensures forall i, j :: 0 <= i < j < |full| && i < Min(|t.cols|, |t.rows|) ==> Beats(t, full[i], full[j], i)
  {
    full := order + remaining;
    assert |full| == |t.rows| by {
      assert |multiset(full)| == |multiset(Range(|t.rows|))|;
    }
    forall i, j | 0 <= i < j < |full| && i < Min(|t.cols|, |t.rows|) ensures Beats(t, full[i], full[j], i) {
      if j < |order| {
      } else {
        assert full[j] == remaining[j - |order|];
      }
    }
  }

  // ---------------------------------------------------------------------------
  // Reverse relabelling and the final normalisation

  /** piv.columns = ['n'] + ['n - {}'.format(int(i) - 1) for i in piv.columns[1:]] */
  function RelabelReverse(t: Table): (r: Result<Table, Error>)
    requires forall c :: 0 <= c < |t.cols| ==> t.cols[c].Step?
    ensures r.Err? <==> |t.cols| == 0
    ensures r.Err? ==> r.error == LengthMismatch
    ensures r.Ok? ==> r.value.rows == t.rows && |r.value.cols| == |t.cols| && r.value.cols[0] == Named("n")
    ensures r.Ok? ==> forall c :: 1 <= c < |t.cols| ==>
      r.value.cols[c] == ReverseLabel(t.cols[c].rank)
  {
    if |t.cols| == 0 then Err(LengthMismatch)
    else
      Ok(Table(seq(|t.cols|, c requires 0 <= c < |t.cols| =>
                     if c == 0 then Named("n") else ReverseLabel(t.cols[c].rank)),
               t.rows))
  }

  /** The label of the reverse step column of the given rank: 'n - (rank-1)'. */
  function ReverseLabel(rank: int): Label {
    Named("n - " + IntToString(rank - 1))
  }

  /** Different ranks get different reverse labels, and none of them is 'n'. */
  lemma ReverseLabelInjective(a: int, b: int)
    ensures ReverseLabel(a) != Named("n")
    ensures ReverseLabel(a) == ReverseLabel(b) ==> a == b
  {
    if ReverseLabel(a) == ReverseLabel(b) {
      var x := "n - " + IntToString(a - 1);
      var y := "n - " + IntToString(b - 1);
      assert x[4..] == IntToString(a - 1) && y[4..] == IntToString(b - 1);
      IntToStringInjective(a - 1, b - 1);
    }
  }

  function Column(t: Table, c: nat): (r: seq<real>)
    requires WellFormed(t) && c < |t.cols|
    ensures |r| == |t.rows|
  {
    seq(|t.rows|, i requires 0 <= i < |t.rows| => t.rows[i].values[c])
  }

  function ColumnSum(t: Table, c: nat): real
    requires WellFormed(t) && c < |t.cols|
  {
    Sum(Column(t, c))
  }

  /** The value of column c of t divided by the column sum s, elsewhere unchanged. */
  function DivideColumn(t: Table, c: nat, s: real): (r: Table)
    requires WellFormed(t) && c < |t.cols| && s != 0.0
    ensures WellFormed(r) && r.cols == t.cols && |r.rows| == |t.rows|
    ensures forall i :: 0 <= i < |t.rows| ==> r.rows[i].name == t.rows[i].name
    ensures forall i, d :: 0 <= i < |t.rows| && 0 <= d < |t.cols| ==>
      r.rows[i].values[d] == if d == c then t.rows[i].values[d] / s else t.rows[i].values[d]
  {
    Table(t.cols, seq(|t.rows|, i requires 0 <= i < |t.rows| =>
      MatrixRow(t.rows[i].name, t.rows[i].values[c := t.rows[i].values[c] / s])))
  }

  /** A column whose entries are divided by its sum sums to 1; one that sums to 0
      and is left alone still sums to 0. */
  lemma ColumnRenormalized(t: Table, r: Table, d: nat)
    requires WellFormed(t) && WellFormed(r) && r.cols == t.cols && |r.rows| == |t.rows| && d < |t.cols|
    requires forall i :: 0 <= i < |t.rows| ==>
      r.rows[i].values[d] == (if ColumnSum(t, d) == 0.0 then t.rows[i].values[d]
                              else t.rows[i].values[d] / ColumnSum(t, d))
    ensures ColumnSum(r, d) == (if ColumnSum(t, d) == 0.0 then 0.0 else 1.0)
  {
    var s := ColumnSum(t, d);
    if s == 0.0 {
      assert Column(r, d) == Column(t, d);
    } else {
      SumScaled(Column(t, d), Column(r, d), s);
      assert s / s == 1.0;
    }
  }

  /** r is t with every column divided by its sum, a column summing to 0 kept as it is. */
  predicate NormalizedOf(t: Table, r: Table)
    requires WellFormed(t)
  {
    && WellFormed(r) && r.cols == t.cols && |r.rows| == |t.rows|
    && (forall i :: 0 <= i < |t.rows| ==> r.rows[i].name == t.rows[i].name)
    && (forall i, c :: 0 <= i < |t.rows| && 0 <= c < |t.cols| ==>
          r.rows[i].values[c] == (if ColumnSum(t, c) == 0.0 then t.rows[i].values[c]
                                  else t.rows[i].values[c] / ColumnSum(t, c)))
  }

  /** The final loop of get_step_matrix: every column is divided by its own sum.
      A column that sums to 0 is left as it is. */
  method Renormalize(t: Table) returns (r: Table)
    requires WellFormed(t)
    ensures NormalizedOf(t, r)
    ensures forall c :: 0 <= c < |t.cols| ==> ColumnSum(r, c) == (if ColumnSum(t, c) == 0.0 then 0.0 else 1.0)
  {
    r := t;
    var c := 0;
    while c < |t.cols|
      invariant 0 <= c <= |t.cols|
      invariant WellFormed(r) && r.cols == t.cols && |r.rows| == |t.rows|
      invariant forall i :: 0 <= i < |t.rows| ==> r.rows[i].name == t.rows[i].name
      invariant forall i, d :: 0 <= i < |t.rows| && c <= d < |t.cols| ==> r.rows[i].values[d] == t.rows[i].values[d]
      invariant forall i, d :: 0 <= i < |t.rows| && 0 <= d < c ==>
        r.rows[i].values[d] == (if ColumnSum(t, d) == 0.0 then t.rows[i].values[d]
                                else t.rows[i].values[d] / ColumnSum(t, d))
    {
      assert Column(r, c) == Column(t, c);
      var s := ColumnSum(r, c);
      if s != 0.0 {
        r := DivideColumn(r, c, s);
      }
      c := c + 1;
    }
    forall d | 0 <= d < |t.cols| ensures ColumnSum(r, d) == (if ColumnSum(t, d) == 0.0 then 0.0 else 1.0) {
      ColumnRenormalized(t, r, d);
    }
  }
}
