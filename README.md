# Post-processing of a learned weighted adjacency matrix

This project models, in Dafny, the post-processing step of the GOLEM
structure learner (`golem_utils/train.py`). The optimiser produces a
`d x d` weighted adjacency matrix `B`. Entry `B[j, i]` is the weight of the
directed edge `i -> j`, and an entry of exactly zero means "no edge". Two
operations turn `B` into a directed acyclic graph (DAG):

- `threshold_till_dag(B)`. If `B` already passes the `is_dag` check, it
  returns `B` itself with threshold `0`. Otherwise it copies `B` and lists
  the nonzero entries in row-major order. It sorts them, stably, by
  absolute weight. Walking that list, it stops as soon as the copy passes
  `is_dag`; until then it zeroes the next entry and records its magnitude
  as `dag_thres`.
- `postprocess(B, graph_thres=0.3)`. It copies `B` and zeroes every entry
  whose magnitude is at most `graph_thres`; the boundary is inclusive. It
  then passes the copy to `threshold_till_dag` and keeps only the matrix.

The model takes the same imperative form. The numpy buffer is an
`array2<real>`:

- `Matrices.Copy` stands for `np.copy`.
- `Train.ThresholdTillDag` and `Train.Postprocess` update the private copy
  in place, with a loop (`Train.RemoveUntilDag`) and a masked assignment.
- The caller's buffer is never in a `modifies` clause, so it is never
  written.

Each method is proved equal to a specification function on matrix values
(`Matrices.Snapshot` reads a buffer as a value):

- `Train.Prune` for `threshold_till_dag`;
- `Train.PostprocessResult` for `postprocess`. It applies `Train.Prune` to
  `Train.ZeroSmall`, which models the masked assignment
  `B[np.abs(B) <= graph_thres] = 0`: entries of magnitude at most the
  threshold become zero and the others stay.

The loop of `threshold_till_dag`, together with its early `break`, is the
method `Train.RemoveUntilDag`. That method carries the loop invariant, and
`Train.ThresholdTillDag` calls it on the private copy.

The lemmas state what those functions promise. `is_dag` lives in a module
whose source is not part of this model. It is modelled by
`Acyclicity.IsDag`, an executable test that repeatedly deletes sink nodes,
and `Acyclicity.IsDagCorrect` proves that this test holds exactly when the
graph has no directed cycle (`Acyclicity.Acyclic`).

Python's `sorted` is a stable sort keyed on `abs(weight)`. It is modelled
by an insertion sort (`Train.SortByAbs`). The lemmas prove that its output:

- is a permutation of the candidate list;
- is ascending by magnitude;
- keeps equal magnitudes in row-major order.

These three facts determine the output of any stable sort on that key.

## Model

| member | source | states |
|---|---|---|
| Acyclicity.IsDagCorrect | castle/algorithms/gradient/notears/torch/golem_utils/train.py:4 | the `is_dag` check (sink peeling) succeeds exactly when the graph, read as edge `i -> j` for nonzero `B[j, i]`, has no directed cycle |
| Acyclicity.EdgelessIsDag | castle/algorithms/gradient/notears/torch/golem_utils/train.py:36-45 | a matrix whose entries are all zero passes `is_dag`, so removing every edge always ends in a DAG |
| Matrices.Copy | castle/algorithms/gradient/notears/torch/golem_utils/train.py:26 | `np.copy` yields a fresh buffer of the same shape and entries |
| Train.Abs | castle/algorithms/gradient/notears/torch/golem_utils/train.py:34 | the sort key `abs(w)` is non-negative and equals `w` or `-w` |
| Train.RowScanSound | castle/algorithms/gradient/notears/torch/golem_utils/train.py:28-32 | scanning one row records only nonzero entries of that row with their own weights, in increasing column order, at most one per column |
| Train.RowScanComplete | castle/algorithms/gradient/notears/torch/golem_utils/train.py:28-32 | scanning one row misses no nonzero entry of it |
| Train.ScanSound | castle/algorithms/gradient/notears/torch/golem_utils/train.py:28-32 | the scan from row `r` records nonzero entries of rows `r` onward, strictly in row-major order |
| Train.ScanComplete | castle/algorithms/gradient/notears/torch/golem_utils/train.py:28-32 | the scan from row `r` misses no nonzero entry of rows `r` onward |
| Train.ScanSize | castle/algorithms/gradient/notears/torch/golem_utils/train.py:28-32 | on a square matrix the scan from row `r` has at most `(d - r) * d` entries |
| Train.Candidates | castle/algorithms/gradient/notears/torch/golem_utils/train.py:28-32 | the `(weight, j, i)` list holds exactly the nonzero entries with their weights, in row-major order as `np.where` yields them, at most `d * d` of them |
| Train.InsertByAbs | castle/algorithms/gradient/notears/torch/golem_utils/train.py:34 | inserting one candidate adds exactly that candidate to the multiset |
| Train.InsertSorted | castle/algorithms/gradient/notears/torch/golem_utils/train.py:34 | inserting into a list ascending by magnitude keeps it ascending |
| Train.InsertKeepsTiesOrdered | castle/algorithms/gradient/notears/torch/golem_utils/train.py:34 | inserting a candidate that comes row-major before every element of a sorted list keeps equal magnitudes in row-major order |
| Train.SortByAbs | castle/algorithms/gradient/notears/torch/golem_utils/train.py:34 | the sort's output is a permutation of its input |
| Train.SortByAbsSorted | castle/algorithms/gradient/notears/torch/golem_utils/train.py:34 | the sort's output is ascending by absolute weight |
| Train.SortByAbsStable | castle/algorithms/gradient/notears/torch/golem_utils/train.py:34 | the sort is stable: on a row-major input, candidates of equal magnitude stay in row-major order |
| Train.SortedCandidates | castle/algorithms/gradient/notears/torch/golem_utils/train.py:28-34 | the list the loop visits is a permutation of the nonzero entries, ascending by magnitude, with ties in row-major order |
| Train.SortedCandidatesExact | castle/algorithms/gradient/notears/torch/golem_utils/train.py:28-34 | every visited candidate is a nonzero entry with its own weight, every nonzero entry is visited, and the list has one element per nonzero entry |
| Train.ZeroAllAt | castle/algorithms/gradient/notears/torch/golem_utils/train.py:42 | after the writes `B[j, i] = 0` for a list of candidates, an entry is zero if some candidate hit it and otherwise keeps its value |
| Train.StopIndex | castle/algorithms/gradient/notears/torch/golem_utils/train.py:36-39 | the loop stops at the first prefix whose removal passes `is_dag`, or when the list runs out; every earlier prefix fails `is_dag` |
| Train.NotDagRemovesSome | castle/algorithms/gradient/notears/torch/golem_utils/train.py:36-45 | on a matrix that is not a DAG the loop removes at least one edge, so `dag_thres` is always assigned before it is returned |
| Train.PruneRemovesSortedPrefix | castle/algorithms/gradient/notears/torch/golem_utils/train.py:23-45 | the output has the input's shape and differs from it exactly by zeroing a prefix of the sorted candidates; the prefix is empty exactly when the input is already a DAG |
| Train.PruneSubgraph | castle/algorithms/gradient/notears/torch/golem_utils/train.py:42 | only zeros are written: no edge is added and every surviving edge keeps its weight |
| Train.PruneAcyclic | castle/algorithms/gradient/notears/torch/golem_utils/train.py:18-19 | the returned matrix passes `is_dag` and has no directed cycle |
| Train.PruneThreshold | castle/algorithms/gradient/notears/torch/golem_utils/train.py:20-21 | `dag_thres` is 0 for a DAG and otherwise the magnitude of the last removed edge; no removed edge is heavier and no surviving edge is lighter |
| Train.PruneThresholdSuffices | castle/algorithms/gradient/notears/torch/golem_utils/train.py:20-21 | `dag_thres` is a threshold that yields a DAG: zeroing every entry of magnitude at most `dag_thres` leaves no directed cycle |
| Train.PruneThresholdLeast | castle/algorithms/gradient/notears/torch/golem_utils/train.py:20-21 | `dag_thres` is the minimum such threshold: zeroing only the entries of magnitude at most any non-negative `t` below it leaves a cycle |
| Train.PruneMinimal | castle/algorithms/gradient/notears/torch/golem_utils/train.py:37-39 | every strictly shorter prefix of the removed candidates still leaves a cycle, so no edge is removed once the graph is a DAG |
| Train.RemovedCountBound | castle/algorithms/gradient/notears/torch/golem_utils/train.py:36 | on a `d x d` matrix the loop removes at most one edge per nonzero entry, hence at most `d * d` |
| Train.PruneAcyclicUnchanged | castle/algorithms/gradient/notears/torch/golem_utils/train.py:23-24 | an acyclic input comes back unchanged with threshold 0 |
| Train.PruneIdempotent | castle/algorithms/gradient/notears/torch/golem_utils/train.py:23-24 | pruning an already pruned matrix changes nothing and reports threshold 0 |
| Train.ThresholdTillDag | castle/algorithms/gradient/notears/torch/golem_utils/train.py:7-45 | returns the caller's own buffer on the fast path and a fresh one otherwise; never writes the caller's buffer; the returned contents and `dag_thres` are those of `Prune` |
| Train.RemoveUntilDag | castle/algorithms/gradient/notears/torch/golem_utils/train.py:36-43 | the loop removes exactly the first `StopIndex` candidates in place and leaves `dag_thres` at the magnitude of the last one removed |
| Train.Postprocess | castle/algorithms/gradient/notears/torch/golem_utils/train.py:48-71 | returns a fresh buffer holding the thresholded copy pruned to a DAG; the caller's buffer is never written; `graph_thres` defaults to 0.3 |
| Train.PostprocessSound | castle/algorithms/gradient/notears/torch/golem_utils/train.py:67-69 | the output keeps the input's shape; entries of magnitude at most `graph_thres` (boundary included) are zero; every nonzero output entry equals the input's and exceeds `graph_thres`; the output is acyclic |
| Train.PostprocessOnlyThresholds | castle/algorithms/gradient/notears/torch/golem_utils/train.py:68-69 | when thresholding alone leaves a DAG, `postprocess` removes exactly the entries at or below the threshold |
| Train.ThreeCycleCandidates | castle/algorithms/gradient/notears/torch/golem_utils/train.py:28-32 | for the cycle `0 -> 1 -> 2 -> 0` with weights 5, 3, 1, the candidate list is the weight-1, weight-5, weight-3 entries, in row-major order |
| Train.ThreeCycleSort | castle/algorithms/gradient/notears/torch/golem_utils/train.py:34 | sorting that list by magnitude gives weight 1, then 3, then 5 |
| Train.ThreeCycleDags | castle/algorithms/gradient/notears/torch/golem_utils/train.py:37-42 | the three-cycle fails `is_dag`; zeroing its weight-1 edge leaves a matrix that passes it |
| Train.ThreeCycleExample | castle/algorithms/gradient/notears/torch/golem_utils/train.py:7-45 | `threshold_till_dag` on the three-cycle removes only the weight-1 edge and returns threshold 1 |

## Left out

- Floating point: weights are mathematical reals. Rounding, NaN and infinities are not modelled. A NaN entry, which numpy counts as nonzero and which has no order under `abs`, has no counterpart.
- `is_dag` lives in the `utils` module, which is not part of this model. It is replaced by an acyclicity test proved to decide exactly the absence of directed cycles.
- ThresholdTillDag: requires a square buffer, as the documented `[d, d]` shape demands. Whatever `is_dag` or numpy would raise on another shape is not modelled.
- Postprocess: requires a square buffer, for the same reason.
- ThresholdTillDag: `dag_thres` is a float in the model even on the fast path, where the source returns the integer `0`.
- ThresholdTillDag: `dag_thres` is initialised to 0 before the loop. In the source it is unbound until the first removal. `Train.NotDagRemovesSome` proves that on this path at least one removal always happens, so the initial value is never returned.
- The rest of the repository is not part of this model: the GOLEM optimiser, its torch tensors, the training loop and logging.
