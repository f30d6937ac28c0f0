# Retentioneering trajectory analytics in Dafny

This project models the analytical core of retentioneering's `BaseTrajectory`
accessor. The accessor works on an event log of `(entity, event, timestamp)`
rows and holds four engines:

- **Successor pairing and transitions.**
  - `get_shift` pairs every row with the next row of the same entity.
  - `get_edgelist` groups the pairs into weighted `(source, target)` edges. The
    weight is a raw count or a count of distinct keys. There are three
    normalisations: none, `'full'`, `'node'`.
  - `get_adjacency` projects the edges into a square matrix over the event names.
- **Step matrix** (`get_step_matrix`, `_add_accums`, `_sort_matrix`).
  - Forward mode ranks every row within its weighting key. Reverse mode re-ranks
    rows backwards inside segments that end in a target event, and drops
    segments that never reach one.
  - Cells are the share of weighting keys that had an event at a step.
  - Accumulated rows, threshold pruning, greedy diagonal sorting, reverse
    column labels and a final per-column renormalisation follow.
- **Session segmentation** (`split_sessions`).
  - Gap mode splits on pauses longer than a threshold and can add
    end-of-session rows.
  - Marker mode splits on a marker event.
  - Every row is labelled `<entity>_<ordinal>`.
- **Graph input** (`plot_graph` up to the renderer): highlight classes from
  the configured roles, node weights and the edge list.

The modelling choices:

- **Log.** The log is a `seq<Row>`. Timestamps are whole seconds. Besides the
  entity id, a row has one extra integer column that can serve as the weighting
  key (`KeyColumn`).
- **Configuration.** The retention configuration is an explicit `Config`
  value. The three role events (`positive_target_event`,
  `negative_target_event`, `source_event`) are `Option`s, `None` when the key
  is not set. `target_event_list` is a plain list that is always present. The
  column-name keys (`index_col`, `event_col`, `event_time_col`) are not part of
  `Config`: the columns are fixed fields of `Row`.
- **Errors.** The core's `ValueError` paths are `Result` errors
  (`EventLog.Error`), and so is the `KeyError` of a reverse step matrix whose
  `positive_target_event` or `negative_target_event` is not set. The other
  `KeyError`s of missing configuration keys are not modelled (see "Left out").
- **Numbers.** Shares and normalised weights are exact `real`s. `max_steps` is
  an unbounded integer: 0 keeps every step, and a negative value passes
  `if max_steps:` and keeps none.
- **Sorted input.** The log is assumed already sorted by `(entity, time)`,
  which is what `get_shift` produces (`EventLog.Sorted`). `get_step_matrix`
  ranks rows in the given order and never sorts.

Modules, one per file:

| file | module | models |
|---|---|---|
| `wrappers.dfy` | `Wrappers` | `Option`, `Result` |
| `event_log.dfy` | `EventLog` | rows, configuration, errors, the `(entity, time)` order |
| `text.dfy` | `Text` | `str` of integers, code-point string order, sorted de-duplication |
| `sums.dfy` | `Sums` | sums of reals |
| `filtering.dfy` | `Filtering` | boolean-mask row selection (`df[mask]`) |
| `shifter.dfy` | `Shifter` | `get_shift` |
| `edge_list.dfy` | `EdgeList` | `get_edgelist` |
| `adjacency.dfy` | `Adjacency` | `get_adjacency` |
| `step_ranks.dfy` | `StepRanks` | `event_rank`, `convpoint`, reverse rank, `non-detriment` |
| `step_table.dfy` | `StepTable` | `_add_accums`, pruning, `_sort_matrix`, relabelling, renormalisation |
| `step_matrix.dfy` | `StepMatrix` | the aggregation, the pivot and the `get_step_matrix` pipeline |
| `sessions.dfy` | `Sessions` | `split_sessions` |
| `graph_export.dfy` | `GraphExport` | `node_params`, `node_weights`, the edge list handed to the renderer |

## Model

| member | source | states |
|---|---|---|
| Shifter.Shift | retentioneering/core/base_classes/base_trajectory.py:42-47 | one shifted row per input row; every original field of row i is unchanged |
| Shifter.NextOf | retentioneering/core/base_classes/base_trajectory.py:44 | a row has no successor exactly when no later row belongs to its entity |
| Shifter.ShiftWithinEntity | retentioneering/core/base_classes/base_trajectory.py:42-47 | within each entity, the k-th row's next event and next time are those of the entity's (k+1)-th row; the entity's last row has none |
| Shifter.ShiftOnSortedLog | retentioneering/core/base_classes/base_trajectory.py:43-47 | on a log sorted by (entity, time), the successor is the next row if it has the same entity, and none otherwise |
| Shifter.NextOfIsFirstOfEntity | retentioneering/core/base_classes/base_trajectory.py:44 | the successor is the first later row of the same entity |
| EdgeList.ParseNorm | retentioneering/core/base_classes/base_trajectory.py:77-78 | a norm_type outside {None, 'full', 'node'} is an UnknownNormType error, and 'full'/'node' select their modes |
| EdgeList.GetEdgeList | retentioneering/core/base_classes/base_trajectory.py:77-117 | the edge list fails exactly for an unknown norm_type, with that name in the error |
| EdgeList.Transitions | retentioneering/core/base_classes/base_trajectory.py:84-92 | the rows of the shifted log whose next event is not null, in log order, as (event, next event, row): no more transitions than rows, exactly as many when every row has a next event, and each transition's source is its row's event; TransitionOrigin and TransitionOfRow state the correspondence in both directions |
| EdgeList.TransitionOrigin | retentioneering/core/base_classes/base_trajectory.py:84-92 | every transition comes from some row of the shifted log that has a next event, with source = its event, target = its next event and the row itself |
| EdgeList.TransitionOfRow | retentioneering/core/base_classes/base_trajectory.py:84-92 | every row of the shifted log that has a next event gives a transition (its event, its next event, the row) |
| EdgeList.ObservedIffFollows | retentioneering/core/base_classes/base_trajectory.py:90-92 | a pair is among the grouped transitions exactly when some row of its source event has its target as next event |
| EdgeList.CountIsRowsAlong | retentioneering/core/base_classes/base_trajectory.py:89-93 | the count() aggregate of a pair is the number of rows of the shifted log along that pair |
| EdgeList.Pairs | retentioneering/core/base_classes/base_trajectory.py:90-99 | the grouped pairs are distinct, and a pair is grouped exactly when some transition has it |
| EdgeList.EdgeListPairs | retentioneering/core/base_classes/base_trajectory.py:84-100 | the edge list has no repeated pair, and has an edge (s, t) exactly when some row of event s has next event t within its entity |
| EdgeList.EdgesOverWeight | retentioneering/core/base_classes/base_trajectory.py:89-115 | each edge's weight is its raw count or distinct-key count divided by the divisor its normalisation selects, and that divisor is at least 1 |
| EdgeList.EdgesOver | retentioneering/core/base_classes/base_trajectory.py:84-115 | one edge per grouped pair, in the order of the pairs, with that pair as source and target |
| EdgeList.RawWeight | retentioneering/core/base_classes/base_trajectory.py:89-100 | definition: the number of transitions along the pair, or with weight_col the number of distinct keys on them; its value per edge is stated by EdgesOverWeight |
| EdgeList.Divisor | retentioneering/core/base_classes/base_trajectory.py:102-115 | definition: 1 without normalisation; with 'full' the total count, or the number of distinct keys of the log; with 'node' the number of transitions leaving the source, or the distinct keys of the source's rows; stated by EdgesOverWeight and the sum lemmas |
| EdgeList.FullNormSumsToOne | retentioneering/core/base_classes/base_trajectory.py:103-105 | with weight_col None and 'full', the weights of all edges sum to 1 |
| EdgeList.NodeNormSumsToOne | retentioneering/core/base_classes/base_trajectory.py:109-112 | with weight_col None and 'node', the outgoing weights of each source that has a transition sum to 1 |
| EdgeList.DistinctSharesAreFractions | retentioneering/core/base_classes/base_trajectory.py:103-115 | with a weighting column and 'full' or 'node', every weight lies in (0, 1] |
| EdgeList.EdgeWeightsPositive | retentioneering/core/base_classes/base_trajectory.py:89-115 | every edge weight is positive |
| EdgeList.SumCountsOverCover | retentioneering/core/base_classes/base_trajectory.py:105 | summing the per-pair counts over distinct pairs that cover all transitions gives the total transition count, from one source or overall |
| Adjacency.Project | retentioneering/core/base_classes/base_trajectory.py:147-149 | the matrix is indexed by the set of edge endpoints on both axes and has a cell for every ordered pair of them |
| Adjacency.Endpoints | retentioneering/core/base_classes/base_trajectory.py:147-149 | definition: the graph's nodes, every source and every target of an edge; Project and AdjacencyCells state that the matrix is indexed by them |
| Adjacency.GetAdjacency | retentioneering/core/base_classes/base_trajectory.py:145-149 | the adjacency fails exactly when the edge list fails, with the same error |
| Adjacency.AdjacencyCells | retentioneering/core/base_classes/base_trajectory.py:145-149 | the matrix is square over the endpoints; cell (s, t) is the edge-list weight of (s, t), or 0 when there is no such edge |
| Adjacency.AdjacencyNonZeroIsEdge | retentioneering/core/base_classes/base_trajectory.py:145-149 | a cell is non-zero exactly when the edge list has that pair |
| Adjacency.WeightOfDistinct | retentioneering/core/base_classes/base_trajectory.py:148 | for edges with distinct pairs, the cell of an edge's pair is that edge's weight |
| Adjacency.WeightOf | retentioneering/core/base_classes/base_trajectory.py:147-148 | definition: the weight of the last edge along the pair, 0 when there is none; WeightOfLast, WeightOfDistinct and WeightOfAbsent state it |
| Adjacency.WeightOfLast | retentioneering/core/base_classes/base_trajectory.py:147-148 | when several edges share a pair, add_weighted_edges_from keeps the weight of the last one |
| Adjacency.WeightOfAbsent | retentioneering/core/base_classes/base_trajectory.py:148 | a pair with no edge has cell 0 |
| StepRanks.Rank | retentioneering/core/base_classes/base_trajectory.py:226-227 | every event_rank is at least 1 |
| StepRanks.RankIncreasing | retentioneering/core/base_classes/base_trajectory.py:226-227 | within one weighting key, a later row has a larger rank |
| StepRanks.RankOneIffFirst | retentioneering/core/base_classes/base_trajectory.py:226-227 | the rank is 1 exactly for the first row of its weighting key |
| StepRanks.KeyCount | retentioneering/core/base_classes/base_trajectory.py:226-227 | definition: the number of the first n rows with weighting key w, the groupby cumsum; RankIncreasing and RankOneIffFirst state its use as event_rank |
| StepRanks.MarkCount | retentioneering/core/base_classes/base_trajectory.py:239-244 | definition: the number of target rows with key w among the first n rows, the groupby cumsum of the isin mask; Segment states its use as convpoint |
| StepRanks.Segment | retentioneering/core/base_classes/base_trajectory.py:239-244 | the segment id is the number of target rows of the same key strictly before the row, so a target row closes its segment |
| StepRanks.SegmentEnd | retentioneering/core/base_classes/base_trajectory.py:250-254 | the last row of a segment is at or after the row, is in the segment, and no later row is |
| StepRanks.GroupMaxRank | retentioneering/core/base_classes/base_trajectory.py:248 | definition: x.max() of event_rank over the rows of group (w, s) among the first n; GroupMaxIsLastRank states that it is the rank of the group's last row |
| StepRanks.GroupLastUpTo | retentioneering/core/base_classes/base_trajectory.py:250-253 | x.iloc[-1]: when some row of group (w, s) lies before n the result is the last of them, and otherwise there is none |
| StepRanks.GroupMaxIsLastRank | retentioneering/core/base_classes/base_trajectory.py:245-249 | the maximum rank of a segment is the rank of its last row |
| StepRanks.ReverseRankBounds | retentioneering/core/base_classes/base_trajectory.py:245-249 | every reverse rank is at least 1, and the row that ends its segment has reverse rank 1 |
| StepRanks.ReverseRankOneIsTarget | retentioneering/core/base_classes/base_trajectory.py:191-197 | reverse rank 1 belongs exactly to the row that ends its segment, so a kept row of reverse rank 1 has a target event: the column 'n' holds target events only |
| StepRanks.ReverseRank | retentioneering/core/base_classes/base_trajectory.py:245-249 | definition: the maximum rank of the row's (key, convpoint) group minus its rank plus 1; ReverseRankBounds and GroupMaxIsLastRank state it |
| StepRanks.Kept | retentioneering/core/base_classes/base_trajectory.py:250-258 | definition: the last row of the row's segment is a target; KeptIffTargetAhead states it |
| StepRanks.KeptIffTargetAhead | retentioneering/core/base_classes/base_trajectory.py:250-258 | a row is kept exactly when a target row of the same key occurs at or after it |
| StepMatrix.Targets | retentioneering/core/base_classes/base_trajectory.py:230-237 | the target list maps each 'pos' to the positive target and each 'neg' to the negative one, keeping order and length |
| StepMatrix.ReverseTargets | retentioneering/core/base_classes/base_trajectory.py:230-237 | definition: the d lookups of 'pos' and 'neg', failing on the positive role first and then the negative one, else Targets; GetStepMatrix states the errors it produces |
| StepMatrix.NoneKept | retentioneering/core/base_classes/base_trajectory.py:255-256 | definition: no row survives the non-detriment filter; GetStepMatrix states that the reverse matrix then fails with the first target's name, and ReverseFirstStep what holds otherwise |
| StepMatrix.ReverseFails | retentioneering/core/base_classes/base_trajectory.py:255-256 | definition: the reverse matrix fails before any table is built, on a missing role or with no surviving row; GetStepMatrix states both errors |
| StepMatrix.Contributes | retentioneering/core/base_classes/base_trajectory.py:258-259 | definition: every row counts in forward mode, only the non-detriment rows in reverse mode; ObservationOfRow and AllKeysOfLog state its use |
| StepMatrix.ObservationAt | retentioneering/core/base_classes/base_trajectory.py:262-265 | definition: the (event_rank, event, weight key) that row i puts into the groupby, with the forward or the reverse rank; ForwardKeysAt and ReverseKeysAt state it |
| StepMatrix.Observations | retentioneering/core/base_classes/base_trajectory.py:258-265 | definition: the observations of the contributing rows, in row order, never more than the rows; ObservationOfRow and ObservationOrigin state the correspondence both ways |
| StepMatrix.ObservationOfRow | retentioneering/core/base_classes/base_trajectory.py:258-265 | every row that survives the filter contributes its (rank, event, key) to the aggregation |
| StepMatrix.ObservationOrigin | retentioneering/core/base_classes/base_trajectory.py:258-265 | every aggregated (rank, event, key) comes from a surviving row |
| StepMatrix.KeysAt | retentioneering/core/base_classes/base_trajectory.py:262-265 | definition: the distinct weighting keys with event e at rank r; ForwardKeysAt and ReverseKeysAt state it on the log |
| StepMatrix.Share | retentioneering/core/base_classes/base_trajectory.py:262-266 | definition: KeysAt over all distinct keys, 0 when there are none; PivotCell states its bounds |
| StepMatrix.UnderCap | retentioneering/core/base_classes/base_trajectory.py:268-269 | definition: the `if max_steps:` cut; 0 keeps every rank and a negative max_steps keeps none; Ranks, EventsUnder and NoRanksUnderNegativeCap state it |
| StepMatrix.Ranks | retentioneering/core/base_classes/base_trajectory.py:268-272 | the columns are the ranks at or below max_steps (all ranks when it is 0), strictly ascending; an input with no observation under the cap gives no column |
| StepMatrix.EventsUnder | retentioneering/core/base_classes/base_trajectory.py:268-272 | an event is a row candidate exactly when it was observed at a rank within max_steps |
| StepMatrix.Pivot | retentioneering/core/base_classes/base_trajectory.py:262-274 | the pivot is rectangular, labelled by step columns holding the kept ranks in order, with strictly sorted row names that are exactly the events observed within max_steps |
| StepMatrix.PivotCell | retentioneering/core/base_classes/base_trajectory.py:262-272 | each cell is the distinct-key count at (rank, event) over all distinct keys (counted before the max_steps cut), lies in [0, 1], and is positive exactly when the pair was observed |
| StepMatrix.ForwardKeysAt | retentioneering/core/base_classes/base_trajectory.py:226-227 | in forward mode, key w counts at (r, e) exactly when w's row of rank r has event e |
| StepMatrix.ReverseKeysAt | retentioneering/core/base_classes/base_trajectory.py:245-265 | in reverse mode, key w counts at (r, e) exactly when one of w's kept rows has event e and reverse rank r |
| StepMatrix.AllKeysOfLog | retentioneering/core/base_classes/base_trajectory.py:258-266 | the denominator counts the keys of the surviving rows only |
| StepMatrix.ReverseFirstStep | retentioneering/core/base_classes/base_trajectory.py:245-290 | when some segment ends in a target, the reverse matrix has a first column and it is step 1, the one labelled 'n' |
| StepMatrix.SegmentEndObservation | retentioneering/core/base_classes/base_trajectory.py:191-197 | the last row of a kept row's segment is kept, has a target event and the same key, and is observed at reverse step 1 |
| StepMatrix.FirstStepOnlyTargets | retentioneering/core/base_classes/base_trajectory.py:191-197 | in the reverse pivot, a positive share at step 1 (the column relabelled 'n') belongs to a target event |
| StepMatrix.SingleTargetKeys | retentioneering/core/base_classes/base_trajectory.py:191-197 | with one target, every weighting key of the reverse matrix has that target at step 1 |
| StepMatrix.SingleTargetFirstStepShare | retentioneering/core/base_classes/base_trajectory.py:191-197 | with one target ('pos' or 'neg') and some surviving row, the target's share at step 1 is 1 |
| StepMatrix.ShareOfAllKeys | retentioneering/core/base_classes/base_trajectory.py:262-266 | a cell reached by every weighting key has share 1 |
| StepMatrix.NoRanksUnderNegativeCap | retentioneering/core/base_classes/base_trajectory.py:268-269 | a negative max_steps passes `if max_steps:` and removes every observation, since every rank is at least 1, so the pivot has no column |
| StepMatrix.GetStepMatrix | retentioneering/core/base_classes/base_trajectory.py:220-296 | error causes in order (missing role, no segment ending in a target, then the relabel's length mismatch when a negative max_steps leaves the reverse matrix without columns, or idxmax on an empty matrix); otherwise the result is Shaped from the pivot of the log's observations: every cell is determined (accumulated rows, pruned rows in order, a sort order, relabelling, column normalisation), and the idxmax error happens exactly when sorting finds columns but no row; a negative max_steps gives a forward matrix without columns |
| StepMatrix.ShapeMatrix | retentioneering/core/base_classes/base_trajectory.py:276-296 | the result is Shaped from the pivot: accumulated rows appended in the forward mode, pruned by thr, then as FinishMatrix; the reverse relabelling of a pivot with no column fails with a length mismatch; also rectangular, columns summing to 1 or 0, forward columns unchanged and reverse columns starting with n |
| StepMatrix.FinishMatrix | retentioneering/core/base_classes/base_trajectory.py:285-296 | relabelling a table with no column fails with a length mismatch; otherwise, without sorting, the result is the pruned table, relabelled in the reverse mode, with every column divided by its sum; with sorting it fails exactly when there are columns but no rows, and otherwise is the rows reordered by an order _sort_matrix can take, relabelled and normalised |
| StepMatrix.Relabelled | retentioneering/core/base_classes/base_trajectory.py:288-290 | the reverse relabelling applies only when reverse and not for_diff, and keeps the rows |
| StepMatrix.Finished | retentioneering/core/base_classes/base_trajectory.py:285-296 | definition: the relation FinishMatrix establishes between the pruned table and the result |
| StepMatrix.Shaped | retentioneering/core/base_classes/base_trajectory.py:276-296 | definition: the relation ShapeMatrix establishes between the pivot and the result |
| StepTable.FindRow | retentioneering/core/base_classes/base_trajectory.py:153-155 | finds the first row of that name, or reports that there is none |
| StepTable.AccumulatedRow | retentioneering/core/base_classes/base_trajectory.py:152-155 | the row is named 'Accumulated <name>', has one value per column, and is all zeros when no row has that name |
| StepTable.ShiftedCumSum | retentioneering/core/base_classes/base_trajectory.py:154 | cumsum().shift(1).fillna(0): the first value is 0 and each next value adds the previous entry |
| StepTable.AccumulatedRowShape | retentioneering/core/base_classes/base_trajectory.py:155 | the first value is 0, each next value adds the target row's value in the previous column, and for a non-negative row the values never decrease |
| StepTable.AppendAccumulated | retentioneering/core/base_classes/base_trajectory.py:276-278 | the result is WithAccumulated of the pivot: the rows and columns are kept, and one accumulation row per target is appended, each computed over the table built so far |
| StepTable.WithAccumulated | retentioneering/core/base_classes/base_trajectory.py:276-278 | definition: the table after the loop over target_event_list |
| StepTable.AccumulatedOfEventRow | retentioneering/core/base_classes/base_trajectory.py:277-278 | when the target is a row of the pivot, its accumulation row is the shifted cumulative sum of that row |
| StepTable.Prune | retentioneering/core/base_classes/base_trajectory.py:280-283 | thr == 0 keeps the table; otherwise the columns are kept, a row is kept exactly when some value reaches thr or it is an Accumulated or target row, and each kept row keeps its multiplicity |
| StepTable.PruneKeeps | retentioneering/core/base_classes/base_trajectory.py:280-283 | for thr != 0 the kept rows are the rows of the table at strictly increasing positions, and a position is kept exactly when its row survives |
| StepTable.Reaches | retentioneering/core/base_classes/base_trajectory.py:283 | definition: some value of the row is at least thr, (piv >= thr).any(1) |
| StepTable.AlwaysKept | retentioneering/core/base_classes/base_trajectory.py:281-282 | definition: the row's name starts with 'Accumulated' or is in target_event_list |
| Filtering.Filter | retentioneering/core/base_classes/base_trajectory.py:283 | boolean-mask selection keeps exactly the elements that satisfy the mask, each with its multiplicity, and is the identity when every element does |
| Filtering.FilterPositions | retentioneering/core/base_classes/base_trajectory.py:283 | the selected elements are those at strictly increasing positions, and a position is selected exactly when its element satisfies the mask |
| StepTable.IdxMax | retentioneering/core/base_classes/base_trajectory.py:162 | the chosen candidate beats every other one in the column: a larger value, or an equal value and an earlier row |
| StepTable.SortMatrix | retentioneering/core/base_classes/base_trajectory.py:157-168 | fails exactly when there are columns but no rows; otherwise the order is a permutation of the row indices, the result permutes the rows, and the k-th chosen row is the first maximum of column k among the rows not yet chosen, for the first min(columns, rows) picks |
| StepTable.SortOrder | retentioneering/core/base_classes/base_trajectory.py:159-167 | the order of the rows taken is a permutation of the row indices, and the k-th row taken beats every later one in column k for the first min(columns, rows) picks |
| StepTable.IsSortOrder | retentioneering/core/base_classes/base_trajectory.py:157-168 | definition: a permutation of the row indices whose pick for each column it reaches beats every later pick in that column |
| StepTable.ReorderPermutes | retentioneering/core/base_classes/base_trajectory.py:167-168 | selecting rows by a permutation of their indices yields a permutation of the rows |
| StepTable.Reorder | retentioneering/core/base_classes/base_trajectory.py:168 | step_matrix.loc[order] by position: the columns are kept and there is one row per entry of order, row i being row order[i]; ReorderPermutes states the permutation |
| StepTable.RelabelReverse | retentioneering/core/base_classes/base_trajectory.py:288-290 | with no columns the relabelling fails; otherwise the labels are 'n' then 'n - (rank-1)' for each later column |
| StepTable.ReverseLabel | retentioneering/core/base_classes/base_trajectory.py:290 | definition: the label 'n - (rank-1)'; ReverseLabelInjective states that the labels are distinct |
| StepTable.ReverseLabelInjective | retentioneering/core/base_classes/base_trajectory.py:290 | different ranks get different labels 'n - k', and none of them is 'n' |
| StepTable.DivideColumn | retentioneering/core/base_classes/base_trajectory.py:296 | divides one column by the given sum and leaves every other entry alone |
| StepTable.Renormalize | retentioneering/core/base_classes/base_trajectory.py:295-296 | the result is NormalizedOf the table: every entry is divided by its column sum, names and columns are kept, and each column then sums to 1, or to 0 when it summed to 0 |
| StepTable.NormalizedOf | retentioneering/core/base_classes/base_trajectory.py:295-296 | definition: r is the table with every column divided by its sum, a column summing to 0 kept as it is |
| Sessions.SplitSessions | retentioneering/core/base_classes/base_trajectory.py:343-383 | fails exactly when neither by_event nor thresh is given; marker mode labels every row with its marker ordinal; gap mode labels each row with its gap ordinal; with eos_event the result is sorted by time and is a permutation of the labelled rows plus their end-of-session rows |
| Sessions.Mark | retentioneering/core/base_classes/base_trajectory.py:353-358 | a row is masked exactly when its successor in the full log comes more than thresh seconds later |
| Sessions.MarkOnSortedLog | retentioneering/core/base_classes/base_trajectory.py:353-358 | on a sorted log, a row is masked exactly when the next row has the same entity and a gap greater than thresh |
| Sessions.WithoutEvent | retentioneering/core/base_classes/base_trajectory.py:350-351 | dropping existing eos rows keeps exactly the other rows, each with its mask and multiplicity, and changes nothing when there is no eos_event |
| Sessions.WithoutEventOrder | retentioneering/core/base_classes/base_trajectory.py:350-351 | the remaining rows are those at strictly increasing positions of the input, and a position remains exactly when its row is not an eos row |
| Sessions.GapAfter | retentioneering/core/base_classes/base_trajectory.py:358 | definition: the row has a next row within its entity and the time to it exceeds thresh (a null successor is not masked) |
| Sessions.GapOrdinal | retentioneering/core/base_classes/base_trajectory.py:360-363 | definition: the number of masked rows of the row's entity before it, the cumsum shifted one row within the entity |
| Sessions.GapsBefore | retentioneering/core/base_classes/base_trajectory.py:361-363 | definition: the number of masked rows of entity e among the first n rows, the groupby cumsum of the mask; GapOrdinalFirst, GapOrdinalMonotone and GapOrdinalNext state it |
| Sessions.GapLabelled | retentioneering/core/base_classes/base_trajectory.py:360-374 | every row labelled with its entity and gap ordinal, in row order |
| Sessions.GapOrdinalFirst | retentioneering/core/base_classes/base_trajectory.py:361-363 | an entity's first row is in session 0 |
| Sessions.GapOrdinalMonotone | retentioneering/core/base_classes/base_trajectory.py:361-363 | gap ordinals never decrease along an entity, and are larger after a masked row |
| Sessions.GapOrdinalNext | retentioneering/core/base_classes/base_trajectory.py:361-363 | from one row of an entity to its next, the ordinal grows by one exactly when the earlier row is masked |
| Sessions.LabelByGaps | retentioneering/core/base_classes/base_trajectory.py:361-374 | the one-pass counter loop labels every row with its gap ordinal |
| Sessions.EosRowOrigin | retentioneering/core/base_classes/base_trajectory.py:366-369 | every end-of-session row copies a masked row, with event eos_event, time one second later and the same session |
| Sessions.EosRowCount | retentioneering/core/base_classes/base_trajectory.py:366-369 | there is one end-of-session row per masked row |
| Sessions.EosRow | retentioneering/core/base_classes/base_trajectory.py:367-369 | definition: the row with event eos_event and time one second later, in the same session |
| Sessions.EosRows | retentioneering/core/base_classes/base_trajectory.py:366-369 | definition: the end-of-session rows of the masked rows, in row order; EosRowOrigin and EosRowCount state it |
| Sessions.CollectEosRows | retentioneering/core/base_classes/base_trajectory.py:366-369 | the loop collects exactly EosRows of all rows |
| Sessions.SortByTime | retentioneering/core/base_classes/base_trajectory.py:371-372 | the rows come out sorted by time, as a permutation of the input |
| Sessions.InsertByTime | retentioneering/core/base_classes/base_trajectory.py:372 | inserting into a time-sorted sequence keeps it sorted and adds exactly that row |
| Sessions.LabelByMarker | retentioneering/core/base_classes/base_trajectory.py:379-381 | every row is labelled with the inclusive per-entity count of by_event rows |
| Sessions.MarkerOrdinalNext | retentioneering/core/base_classes/base_trajectory.py:379-380 | from one row of an entity to its next, the ordinal grows by one exactly when the later row is the marker |
| Sessions.MarkerOrdinalMonotone | retentioneering/core/base_classes/base_trajectory.py:379-380 | marker ordinals never decrease along an entity |
| Sessions.MarkerOrdinal | retentioneering/core/base_classes/base_trajectory.py:379-380 | definition: the number of by_event rows of the row's entity up to and including it |
| Sessions.MarkersBefore | retentioneering/core/base_classes/base_trajectory.py:379-381 | definition: the number of by_event rows of entity e among the first n rows, the groupby cumsum; MarkerOrdinalNext and MarkerOrdinalMonotone state it |
| Sessions.MarkerLabelled | retentioneering/core/base_classes/base_trajectory.py:379-381 | every row labelled with its entity and marker ordinal, in row order |
| Sessions.SessionId | retentioneering/core/base_classes/base_trajectory.py:374 | definition: str(entity) + '_' + str(ordinal); SessionIdInjective states it |
| Sessions.SessionIdInjective | retentioneering/core/base_classes/base_trajectory.py:374-381 | two rows have the same session id only when they have the same entity and ordinal |
| Text.NatToStringInjective | retentioneering/core/base_classes/base_trajectory.py:363 | different ordinals render as different strings |
| Text.IntToStringInjective | retentioneering/core/base_classes/base_trajectory.py:374 | different entity ids render as different strings |
| Text.IntToString | retentioneering/core/base_classes/base_trajectory.py:374 | str(n) of an integer: non-empty, starting with a minus sign exactly for a negative n, and never containing the session separator |
| Text.StrLt | retentioneering/core/base_classes/base_trajectory.py:272 | definition: code-point lexicographic order, the order of the pivot index |
| Text.StrLtIrreflexive | retentioneering/core/base_classes/base_trajectory.py:272 | no string sorts before itself |
| Text.StrLtTransitive | retentioneering/core/base_classes/base_trajectory.py:272 | the order is transitive |
| Text.StrLtTotal | retentioneering/core/base_classes/base_trajectory.py:272 | of two different strings one sorts before the other |
| Text.SortedDistinct | retentioneering/core/base_classes/base_trajectory.py:272 | the pivot index is strictly sorted and holds exactly the input's names |
| GraphExport.NodeParams | retentioneering/core/base_classes/base_trajectory.py:466-477 | given node_params are used as they are; otherwise exactly the configured role events are highlighted, a later role overriding an earlier one (source over bad_target over nice_target) |
| GraphExport.RoleClass | retentioneering/core/base_classes/base_trajectory.py:467-477 | definition: the class of a role event, the later role winning: 'source' over 'bad_target' over 'nice_target'; AllRolesPlaced states that the loop reaches it |
| GraphExport.AllRolesPlaced | retentioneering/core/base_classes/base_trajectory.py:466-477 | after the three roles, the mapping holds exactly the role events, each with its RoleClass |
| GraphExport.ValueCounts | retentioneering/core/base_classes/base_trajectory.py:478 | the counts are defined exactly for the events of the log, and each is that event's row count, at least 1 |
| GraphExport.EventCountIsRows | retentioneering/core/base_classes/base_trajectory.py:478 | an event's count is the number of rows that carry it |
| GraphExport.NodeWeights | retentioneering/core/base_classes/base_trajectory.py:478 | given non-empty node weights are used; a missing or empty mapping falls back to the value counts: defined exactly for the events of the log, each being that event's row count |
| GraphExport.PlotGraphInput | retentioneering/core/base_classes/base_trajectory.py:464-481 | the renderer gets the edge list of get_edgelist with the given norm_type (failing exactly when it fails, with its error), the given node_params unchanged or else the derived highlight classes, and the node weights |

## Left out

- Rendering: `plot.step_matrix` and `plot.graph` are external visualisation calls, so the model ends at the tables handed to them.
- The `dt_means` branch of `get_step_matrix` averages datetime differences in floating point over columns the step matrix does not compute.
- Datetime handling: `pd.to_datetime`, `total_seconds` and `Timedelta` are integer seconds, and `thresh` is an integer.
- Sorting inside `get_shift`: the log is taken as already sorted by (entity, time). `Shifter.Shift` pairs each row with the next row of its entity in the given order. The sorted case is stated by `EventLog.Sorted` and `Shifter.ShiftOnSortedLog`.
- Index alignment in gap mode: the mask is computed on the shifted copy and assigned to `res` by index label. On a pre-sorted log with a default index this is position by position, which is how the model reads it.
- The `index_col`/`event_col` overrides of `get_shift` and `plot_graph`, and weighting by the event or time column: the model has one entity column, one event column and one extra integer key column.
- The `edge_attributes` column name and the hash-derived temporary column names only name columns.
- EdgeList.GetEdgeList: lists the edges in order of first occurrence rather than pandas' sorted group order; the set of edges and their weights are the same.
- StepTable.SortMatrix: the rows that are never chosen follow in ascending index order, while the source appends them in the arbitrary order of a `set` difference; the contract promises only that they are a permutation of the rest.
- StepTable.SortMatrix: selects positions, so it does not model `drop`/`loc` on duplicate row labels. Those arise when a target is listed twice in `target_event_list` (two rows "Accumulated X"), or when an event is itself named "Accumulated X" beside target X.
- StepTable.Renormalize: leaves a column that sums to 0 unchanged, where pandas makes it NaN (0/0). Such a column can arise after pruning removes its non-zero rows.
- Sessions.SortByTime: is a stable sort, while `sort_values` defaults to an unstable quicksort; the contract states only sortedness and permutation, which both satisfy.
- StepMatrix.GetStepMatrix: takes reverse as a list of `Pos`/`Neg`, where a single string is a one-element list. An unknown string, a `KeyError` in the source, is not representable.
- StepMatrix.GetStepMatrix: models a role that is missing from the configuration as a `MissingRole` error. A role stored as an explicit `None` is modelled the same way; in the source it would instead end in the "no target" error.
- StepMatrix.GetStepMatrix: with sorting, the contract fixes the order of the rows only as far as `StepTable.IsSortOrder` does; the rows that are never chosen may follow in any order, as for `StepTable.SortMatrix`.
- Missing configuration keys: the `KeyError`s for `index_col`, `event_col` and `event_time_col` (base_trajectory.py lines 38-40, 80-81, 220-222, 337-339, 464) and for `target_event_list` (line 221) are not modelled. The columns are fields of `Row`, and `Config.targetEventList` is always present.
- Keyword defaults: `split_sessions`' `thresh=1800` and `plot_graph`'s `norm_type='full'` are defaults of the Python signatures. The model takes `thresh` and `normType` as explicit parameters, where `None` is Python's `None`, not the default.
- Rounding (`piv.round(2)`) is applied only for plotting.
