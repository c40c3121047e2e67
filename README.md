# nuclearcraft-designer, modelled in Dafny

This project models the search core of nuclearcraft-designer. The tool designs NuclearCraft turbine parts:
- a rotor-blade sequence;
- a square grid of dynamo coils around a rotor shaft.

Both designers encode a design as a list of integer ids. An `OptimizableSequence` enumerates those lists depth
first. It prunes every partial list that breaks a constraint and keeps the first complete list with the highest
score. The model covers:

- **The enumerator and optimiser** (`optimizer.dfy`, `enumeration.dfy`). `Optimizer.OptimizableSequence` is a
  class over an `array<int>` buffer. Its in-place moves `advance`, `next_row`, `prev_row` and `next_sequence` are
  each proved equal to a pure step function in `Enumeration`. The properties are proved about those functions:
  - prefix form is kept;
  - every move goes up in lexicographic order;
  - no candidate is skipped.

  Here a *candidate* is a complete list whose every prefix state satisfies the constraints. `Optimize` returns the
  lexicographically first highest-scoring candidate. For a buffer of positive length it returns `false` only
  when no candidate exists; a buffer of length 0 ends the search at once and returns `false`. Its two
  `while True` loops end because the buffer, read as a number in base `max_value + 1`, increases at every step.
- **Grid indexing** (`core_multi_sequence.dfy`, `common_multi_sequence.dfy`, `index_arith.dfy`):
  - the row-major `int_to_tuple` / `tuple_to_int` with both round trips;
  - the first-index-fastest tuple indexing of the common grid;
  - `Sequence2D`.
- **Placement rules** (`core_placement_rule.dfy`, `utils_placement_rule.dfy`). These are a `Rule` datatype
  (base, simple, compound AND/OR) with an evaluation predicate. `Call` methods follow the source's counting loops.
  The neighbours come either as a tuple ordered `(+d, -d)` per dimension or as the six named sides.
- **Layout constraints** (`core_constraints.dfy`, `common_constraints.dfy`, `utils_constraints.dfy`, `shaft.dfy`):
  - maximum quantity;
  - mirror symmetry;
  - per-cell placement rules with the `"wall"` and `"incomplete"` sentinels;
  - the centred-bearings block.

  Each is a scanning method proved equal to a predicate. A "rejection is kept" lemma shows that filling empty
  cells never turns a rejected grid into an accepted one. `Enumeration.CandidateIffValid` shows why that makes
  pruning safe: for constraints that keep their rejections, the optimiser's candidates are exactly the complete
  sequences every constraint accepts.
- **The turbine designers** (`dynamo_coils.dfy`, `dynamo_designer.dfy`, `rotor_designer.dfy`):
  - the dynamo-coil catalogue and what each coil's rule demands;
  - id-to-component mapping;
  - the designer's own bearing and placement checks;
  - the mean-conductivity efficiency;
  - the constraint list of the dynamo `design_generator`;
  - the rotor designer's name-to-limit translation.

Scores are `real`s and the score function is a parameter. Constraints are a sequence of `seq<int> -> bool`
functions.

`optimize` prunes only with the constraints, scores only complete sequences and reports a single result at the
end of the enumeration. The dynamo designer assigns every cell, shaft included, and rejects grids with misplaced
bearings.

## Model

| member | source | states |
|---|---|---|
| Optimizer.OptimizableSequence.constructor | src/nuclearcraft_designer/optimizer.py:9-28 | the buffer has `length` entries, all 0 (nothing assigned), and the state invariant (entries in `0..max_value`, assigned entries form a prefix) holds |
| Optimizer.OptimizableSequence.IsValid | src/nuclearcraft_designer/optimizer.py:30-38 | true exactly when every constraint accepts the current buffer |
| Optimizer.OptimizableSequence.Advance | src/nuclearcraft_designer/optimizer.py:40-51 | the new buffer and result are those of `Enumeration.Advance`; the invariant is kept |
| Optimizer.OptimizableSequence.NextRow | src/nuclearcraft_designer/optimizer.py:53-62 | the new buffer and result are those of `Enumeration.NextRow`; the invariant is kept |
| Optimizer.OptimizableSequence.PrevRow | src/nuclearcraft_designer/optimizer.py:64-76 | the new buffer and result are those of `Enumeration.PrevRow`; the recursion ends because the filled count decreases |
| Optimizer.OptimizableSequence.NextSequence | src/nuclearcraft_designer/optimizer.py:78-86 | a valid state may be extended by `next_row`; an invalid one only advances or backtracks (`Enumeration.NextSequence`) |
| Optimizer.OptimizableSequence.NextValidSequence | src/nuclearcraft_designer/optimizer.py:88-97 | on success the state satisfies every constraint, lies lexicographically above the start, and no candidate lies strictly between them; on failure the buffer is all zeros and no candidate lies above the start |
| Optimizer.OptimizableSequence.IsComplete | src/nuclearcraft_designer/optimizer.py:99-107 | true exactly when no entry is 0 |
| Optimizer.OptimizableSequence.Optimize | src/nuclearcraft_designer/optimizer.py:116-132 | on success the buffer is complete and valid, and scores at least as high as every candidate above the start and strictly higher than every earlier one, so the first best is kept; from a reachable start it is itself a candidate; on failure no candidate exists above the start |
| Enumeration.AdvanceSpec | src/nuclearcraft_designer/optimizer.py:40-51 | advance succeeds iff some entry is assigned and the last one is below `max_value`; it then increments only that entry and moves up lexicographically; otherwise nothing changes |
| Enumeration.NextRowSpec | src/nuclearcraft_designer/optimizer.py:53-62 | next_row succeeds iff some entry is 0; it then sets the first 0 to 1 (filled count + 1, lexicographically larger); otherwise nothing changes |
| Enumeration.PrevRowStep | src/nuclearcraft_designer/optimizer.py:69-75 | clearing the last assigned entry lowers the filled count; prev_row is then advance, or prev_row again when advance fails |
| Enumeration.PrevRowSpec | src/nuclearcraft_designer/optimizer.py:64-76 | prev_row keeps prefix form; on success the filled count strictly decreases; it fails only by leaving the buffer all zeros |
| Enumeration.PrevRowLeavesSubtree | src/nuclearcraft_designer/optimizer.py:64-76 | a successful prev_row moves up lexicographically at a position before the last assigned one, leaving the current subtree |
| Enumeration.NextSequenceSpec | src/nuclearcraft_designer/optimizer.py:78-86 | next_sequence keeps prefix form and moves strictly up lexicographically, or fails with all zeros; from an invalid state it never increases the filled count |
| Enumeration.NextSequenceSkipsNothing | src/nuclearcraft_designer/optimizer.py:78-86 | no candidate lies strictly between a state and its successor, and none lies above a state whose successor fails |
| Enumeration.NextSequenceReachable | src/nuclearcraft_designer/optimizer.py:78-86 | the successor of a state whose proper prefixes all satisfy the constraints has the same property |
| Enumeration.AdvanceSkips | src/nuclearcraft_designer/optimizer.py:40-51 | once the subtree of the current state holds no candidate above the start, advancing skips no candidate |
| Enumeration.PrevRowSkips | src/nuclearcraft_designer/optimizer.py:64-76 | backtracking from an exhausted subtree skips no candidate; when it fails none is left above the start |
| Enumeration.NextRowSkips | src/nuclearcraft_designer/optimizer.py:53-62 | no candidate lies strictly between a state and its next_row extension |
| Enumeration.CompleteIffFilled | src/nuclearcraft_designer/optimizer.py:99-107 | in prefix form, `is_complete` (no zero entry) agrees with the last entry being assigned |
| Enumeration.ProbeStep | src/nuclearcraft_designer/optimizer.py:88-97 | one pass of the `next_valid_sequence` loop keeps its invariant, strictly increases the base-`(max_value+1)` value of the buffer, and on failure leaves no candidate above the start |
| Enumeration.RecordStart | src/nuclearcraft_designer/optimizer.py:121-122 | the empty record accounts for every candidate seen before the first move |
| Enumeration.RecordStep | src/nuclearcraft_designer/optimizer.py:124-127 | recording a complete state only when it scores strictly higher keeps the record the first highest-scoring candidate seen; the loop measure increases |
| Enumeration.RecordFinal | src/nuclearcraft_designer/optimizer.py:129-132 | at the end of the search the record beats or ties every candidate above the start, strictly beats earlier ones, and an empty record means there was no candidate |
| Enumeration.BestOverall | src/nuclearcraft_designer/optimizer.py:124-127 | a record that accounts for every candidate seen up to a state beyond which none remains accounts for all of them |
| Enumeration.CandidateIntro | src/nuclearcraft_designer/optimizer.py:124-125 | a complete valid state reached through valid prefixes is a candidate |
| Enumeration.CandidateIffValid | src/nuclearcraft_designer/optimizer.py:83-86 | when every constraint rejects the whole subtree of a state it rejects, pruning loses nothing: the candidates are exactly the complete sequences over `1..max_value` that every constraint accepts (both directions) |
| Enumeration.LexLessVal | src/nuclearcraft_designer/optimizer.py:93-97 | lexicographic order implies a larger base-`(max_value+1)` value, the termination measure of the search loops |
| CoreMultiSequence.New | src/nuclearcraft_designer/core/multi_sequence.py:9-17 | construction succeeds iff the product of the dimensions equals the flat length |
| CoreMultiSequence.IntToTupleInBounds | src/nuclearcraft_designer/core/multi_sequence.py:25-34 | for positive dimensions every component of `int_to_tuple(k)` lies in `[0, dims[i])` |
| CoreMultiSequence.IntToTupleCons | src/nuclearcraft_designer/core/multi_sequence.py:25-34 | component 0 is `(k mod prod(dims)) div prod(dims[1:])`, and the rest is `int_to_tuple` of the remainder over the remaining dimensions |
| CoreMultiSequence.TupleToIntRange | src/nuclearcraft_designer/core/multi_sequence.py:36-45 | an in-range tuple maps into `[0, len)` |
| CoreMultiSequence.IntToTupleRoundTrip | src/nuclearcraft_designer/core/multi_sequence.py:25-45 | `tuple_to_int(int_to_tuple(k)) == k` for `0 <= k < len` |
| CoreMultiSequence.TupleToIntRoundTrip | src/nuclearcraft_designer/core/multi_sequence.py:25-45 | `int_to_tuple(tuple_to_int(t)) == t` for every in-range tuple |
| CoreMultiSequence.TupleIndexingAgrees | src/nuclearcraft_designer/core/multi_sequence.py:47-50 | indexing by `int_to_tuple(k)` returns the flat element `k` |
| CommonMultiSequence.New | src/nuclearcraft_designer/common/multi_sequence.py:12-20 | construction succeeds iff the product of the dimensions equals the flat length |
| CommonMultiSequence.AtIndex | src/nuclearcraft_designer/common/multi_sequence.py:28-30 | an integer key returns the flat element unchanged, counting from the end when negative |
| CommonMultiSequence.FlatIndexRange | src/nuclearcraft_designer/common/multi_sequence.py:31-34 | the first-index-fastest flat index of an in-range tuple lies in `[0, len)` |
| CommonMultiSequence.FlatIndexInjective | src/nuclearcraft_designer/common/multi_sequence.py:31-34 | distinct in-range tuples have distinct flat indices |
| CommonMultiSequence.RowsCover | src/nuclearcraft_designer/common/multi_sequence.py:48-57 | `rows` is `len div cols`: `rows*cols <= len < (rows+1)*cols` |
| CommonMultiSequence.Sequence2DIndexRange | src/nuclearcraft_designer/common/multi_sequence.py:62-70 | `y*cols + x` lies in range for every `(x, y)` in a full row |
| CommonMultiSequence.Sequence2DInjective | src/nuclearcraft_designer/common/multi_sequence.py:62-70 | distinct in-grid pairs give distinct indices |
| CorePlacementRule.CallSimple | src/nuclearcraft_designer/core/placement_rule.py:63-86 | true iff a neighbour is "incomplete", or the count of `name` passes the exact/at-least test and, when axial, some pair `(2i, 2i+1)` is `name` |
| CorePlacementRule.Call | src/nuclearcraft_designer/core/placement_rule.py:144-154 | agrees with `Holds`: the base rule accepts everything, AND needs every sub-rule (true when empty), OR some sub-rule (false when empty) |
| CorePlacementRule.UnpairedTrailingIgnored | src/nuclearcraft_designer/core/placement_rule.py:72-76 | an unpaired trailing neighbour never contributes to the axial test |
| CorePlacementRule.RejectionKept | src/nuclearcraft_designer/core/placement_rule.py:63-86 | replacing "incomplete" neighbours by names never turns a rejection into an acceptance |
| UtilsPlacementRule.CallSimple | src/nuclearcraft_designer/utils/placement_rule.py:48-68 | true iff a side is "incomplete", or the count passes the exact/at-least test and, when axial, up/down, right/left or front/back are both `name` |
| UtilsPlacementRule.Call | src/nuclearcraft_designer/utils/placement_rule.py:82-92 | agrees with `Holds`: base accepts, AND is all (empty true), OR is any (empty false) |
| UtilsPlacementRule.QuantityBySide | src/nuclearcraft_designer/utils/placement_rule.py:52-57 | the quantity is the number of the six sides equal to `name`, a missing front/back counting 0 |
| UtilsPlacementRule.MissingFrontBackNeverMatch | src/nuclearcraft_designer/utils/placement_rule.py:48-59 | with no front and back, count and axial test read only the four sides |
| UtilsPlacementRule.RejectionKept | src/nuclearcraft_designer/utils/placement_rule.py:48-68 | filling in "incomplete" sides never turns a rejection into an acceptance |
| Counting.CountRefines | src/nuclearcraft_designer/core/constraints.py:53-64 | assigning empty cells never lowers the count of a name |
| CoreConstraints.CallMaxQuantity | src/nuclearcraft_designer/core/constraints.py:53-64 | true iff the number of non-empty cells named `target_name` is at most `max_quantity` |
| CoreConstraints.MirrorInvolution | src/nuclearcraft_designer/core/constraints.py:99-102 | the mirror of an in-range tuple is in range, maps `c` to `dims[d]-c-1`, and mirroring twice is the identity |
| CoreConstraints.CallSymmetry | src/nuclearcraft_designer/core/constraints.py:93-107 | true iff for every non-empty cell and every dimension the mirror cell is empty or has the same name |
| CoreConstraints.NameOf | src/nuclearcraft_designer/core/constraints.py:130-136 | `component_name`: "incomplete" for an empty cell, the component's name otherwise |
| CoreConstraints.CollectNeighbours | src/nuclearcraft_designer/core/constraints.py:138-159 | builds the `2*len(dims)` neighbour names ordered `(+d, -d)` per dimension, "wall" outside the grid, "incomplete" for empty cells |
| CoreConstraints.NeighbourDuality | src/nuclearcraft_designer/core/constraints.py:144-159 | a cell's `+d` neighbour is the cell one step up in `d`, whose `-d` neighbour is the first cell |
| CoreConstraints.CallPlacementRule | src/nuclearcraft_designer/core/constraints.py:138-162 | true iff every non-empty cell's rule accepts its neighbour names; empty cells are never checked |
| CoreConstraints.CallCenteredBearings | src/nuclearcraft_designer/core/constraints.py:213-237 | true iff every non-empty cell holds a bearing exactly when it lies in the parity-dependent centred block |
| CoreConstraints.Call | src/nuclearcraft_designer/core/constraints.py:12-23 | dispatches to each constraint's check; the base constraint accepts every grid |
| CoreConstraints.NeighboursRefine | src/nuclearcraft_designer/core/constraints.py:138-159 | assigning empty cells changes only neighbour names that were "incomplete" |
| CoreConstraints.RejectionKept | src/nuclearcraft_designer/core/constraints.py:53-162 | for max-quantity, symmetry, placement and bearings, a grid rejected with empty cells stays rejected once they are filled |
| Shaft.BlockIsCentredSquare | src/nuclearcraft_designer/core/constraints.py:216-237 | the parity-dependent block is the square of side `w` (same parity as `n`) or `w-1` (otherwise), equally far from both edges |
| Shaft.NoShaftNoBlock | src/nuclearcraft_designer/core/constraints.py:216-225 | with shaft width 0 the block is empty |
| Shaft.BlockInGrid | src/nuclearcraft_designer/core/constraints.py:216-237 | for `0 <= w <= n` the block lies inside the grid |
| Shaft.BearingOkCentred | src/nuclearcraft_designer/core/constraints.py:216-237 | a cell passes iff it is empty or holds a bearing exactly when inside the centred square |
| UtilsConstraints.CallMaxQuantity | src/nuclearcraft_designer/utils/constraints.py:29-36 | true iff the number of non-None entries named `target_name` is at most `max_quantity` |
| UtilsConstraints.Call | src/nuclearcraft_designer/utils/constraints.py:8-15 | agrees with `Holds`; the base constraint accepts every list |
| UtilsConstraints.AllEmptyAccepted | src/nuclearcraft_designer/utils/constraints.py:31-36 | an all-None or empty list is accepted iff `max_quantity >= 0` |
| UtilsConstraints.LimitExtremes | src/nuclearcraft_designer/utils/constraints.py:36 | a negative limit rejects every list; a limit of at least the length accepts every list |
| UtilsConstraints.RejectionKept | src/nuclearcraft_designer/utils/constraints.py:29-36 | filling None entries never turns a rejection into an acceptance |
| CommonConstraints.CallMaxQuantity | src/nuclearcraft_designer/common/constraints.py:57-68 | true iff the number of non-empty cells named `target_name` is at most `max_quantity` |
| CommonConstraints.MaxQuantityAgreesWithList | src/nuclearcraft_designer/common/constraints.py:57-68 | the grid check agrees with the flat-list check on the same cells |
| CommonConstraints.CompareMirrors | src/nuclearcraft_designer/common/constraints.py:101-111 | true iff for every dimension the mirror of the cell is empty or has its name |
| CommonConstraints.CallSymmetry | src/nuclearcraft_designer/common/constraints.py:97-111 | true iff the mirror rule holds at every cell enumerated through the row-major `int_to_tuple` |
| CommonConstraints.SymmetryOverTuples | src/nuclearcraft_designer/common/constraints.py:97-111 | that enumeration reaches every in-range tuple, so the check is the mirror rule over all tuples |
| CommonConstraints.CallAsWritten | src/nuclearcraft_designer/common/constraints.py:97-111 | as written, for both `SymmetryConstraint.__call__` (lines 97-111) and `PlacementRuleConstraint.__call__` (lines 142-177): the first `int_to_tuple` call raises `AttributeError`, so every non-empty grid fails and an empty one passes |
| CommonConstraints.NameOf | src/nuclearcraft_designer/common/constraints.py:134-140 | `component_name`: "incomplete" for an empty cell, the component's name otherwise |
| CommonConstraints.CheckCell2D | src/nuclearcraft_designer/common/constraints.py:145-157 | the 2D cell check with `x=coords[1]`, `y=coords[0]` and up/right/down/left at `(y-1,x)`, `(y,x+1)`, `(y+1,x)`, `(y,x-1)` |
| CommonConstraints.CheckCell3D | src/nuclearcraft_designer/common/constraints.py:158-174 | the 3D cell check passing `(yp, xp, yn, xn, zp, zn)` into up/right/down/left/front/back |
| CommonConstraints.CheckCell | src/nuclearcraft_designer/common/constraints.py:142-176 | a grid neither 2D nor 3D gives `NotImplementedError`; otherwise the cell's rule decides |
| CommonConstraints.CallPlacementRule | src/nuclearcraft_designer/common/constraints.py:142-177 | `NotImplementedError` for other dimensions, otherwise true iff every non-empty cell is placed |
| CommonConstraints.MissingIntToTupleFails | src/nuclearcraft_designer/common/constraints.py:97-111 | a one-cell empty grid that the intended checks accept makes the as-written checks fail |
| CommonConstraints.Neighbours2DDuality | src/nuclearcraft_designer/common/constraints.py:145-157 | right/left and down/up neighbours of adjacent cells name each other |
| CommonConstraints.CallCenteredBearings | src/nuclearcraft_designer/common/constraints.py:245-269 | true iff every non-empty cell holds a bearing exactly when it lies in the centred block |
| DynamoCoils.CatalogueShape | src/nuclearcraft_designer/overhauled/turbine_dynamo_coil/data_structures.py:48-58 | nine coils in order: casing, bearing, connector, then the six metals; names distinct; the first three conduct negatively and the metals positively; no rule is exact or axial |
| DynamoCoils.StructuralAlwaysPlaceable | src/nuclearcraft_designer/overhauled/turbine_dynamo_coil/data_structures.py:25-26 | casing and bearing are accepted with any neighbours |
| DynamoCoils.ConnectorRule | src/nuclearcraft_designer/overhauled/turbine_dynamo_coil/data_structures.py:27-34 | a connector is placed iff some side is "incomplete" or some neighbour is one of the six metals |
| DynamoCoils.MetalRules | src/nuclearcraft_designer/overhauled/turbine_dynamo_coil/data_structures.py:35-46 | magnesium needs a bearing or connector, beryllium a magnesium, aluminum two magnesium, gold an aluminum, copper a beryllium, silver a gold and a copper (or an "incomplete" side) |
| DynamoDesigner.IdsToCoils | src/nuclearcraft_designer/overhauled/turbine_dynamo_coil/designer.py:21-30 | keeps the length; a negative id becomes an empty cell and id `i` the `i`-th coil type |
| DynamoDesigner.IdsToCoilsInjective | src/nuclearcraft_designer/overhauled/turbine_dynamo_coil/designer.py:27-30 | with distinct types, two id lists give the same grid iff they agree up to the choice of negative id |
| DynamoDesigner.SquareRows | src/nuclearcraft_designer/overhauled/turbine_dynamo_coil/designer.py:27-30 | a grid of `cols*cols` coils has `cols` rows |
| DynamoDesigner.CenteredBearingsConstraint | src/nuclearcraft_designer/overhauled/turbine_dynamo_coil/designer.py:32-63 | true iff every non-empty cell holds a bearing exactly when it lies in the centred block |
| DynamoDesigner.CoilName | src/nuclearcraft_designer/overhauled/turbine_dynamo_coil/designer.py:65-66 | "incomplete" for an empty cell, the coil's name otherwise |
| DynamoDesigner.NeighbourDuality | src/nuclearcraft_designer/overhauled/turbine_dynamo_coil/designer.py:77-80 | up/down and left/right neighbours of adjacent cells name each other; sides at the border are "wall" |
| DynamoDesigner.PlacementRuleConstraint | src/nuclearcraft_designer/overhauled/turbine_dynamo_coil/designer.py:68-83 | true iff every non-empty coil's rule accepts its four sides |
| DynamoDesigner.IdsRefineConf | src/nuclearcraft_designer/overhauled/turbine_dynamo_coil/designer.py:27-30 | assigning negative ids only fills empty cells |
| DynamoDesigner.BearingsRejectionKept | src/nuclearcraft_designer/overhauled/turbine_dynamo_coil/designer.py:32-63 | a grid the bearing check rejects stays rejected once empty cells are filled |
| DynamoDesigner.PlacementRejectionKept | src/nuclearcraft_designer/overhauled/turbine_dynamo_coil/designer.py:68-83 | a grid the placement check rejects stays rejected once empty cells are filled |
| DynamoDesigner.TotalEfficiency | src/nuclearcraft_designer/overhauled/turbine_dynamo_coil/designer.py:85-97 | an empty cell gives an `AttributeError`; otherwise the result is the mean positive conductivity, 0 when there is none |
| DynamoDesigner.EfficiencySign | src/nuclearcraft_designer/overhauled/turbine_dynamo_coil/designer.py:91-97 | the efficiency is non-negative and positive iff some coil conducts positively |
| DynamoDesigner.EfficiencyWithin | src/nuclearcraft_designer/overhauled/turbine_dynamo_coil/designer.py:91-97 | when all positive conductivities lie in `[lo, hi]`, so does their mean |
| DynamoDesigner.CatalogueEfficiency | src/nuclearcraft_designer/overhauled/turbine_dynamo_coil/designer.py:91-97 | with the built-in catalogue and at least one metal, the efficiency lies in `[0.88, 1.12]` |
| DynamoDesigner.ChecksAsWritten | src/nuclearcraft_designer/overhauled/turbine_dynamo_coil/designer.py:116-122 | as written: the bearing check, the placement check, then one wrapper per caller constraint, each applying the last one |
| DynamoDesigner.ChecksAsWrittenMeaning | src/nuclearcraft_designer/overhauled/turbine_dynamo_coil/designer.py:116-122 | the as-written list accepts iff bearings and placement hold and the last caller constraint holds |
| DynamoDesigner.Checks | src/nuclearcraft_designer/overhauled/turbine_dynamo_coil/designer.py:116-122 | the intended list: the bearing check, the placement check, each caller constraint in turn |
| DynamoDesigner.ChecksMeaning | src/nuclearcraft_designer/overhauled/turbine_dynamo_coil/designer.py:116-122 | the intended list accepts iff bearings and placement hold and every caller constraint accepts the coil list |
| DynamoDesigner.LateBindingCounterexample | src/nuclearcraft_designer/overhauled/turbine_dynamo_coil/designer.py:119-122 | one casing with caller constraints `[at most 0 casings, base]`: the as-written list accepts, the intended list rejects |
| RotorDesigner.IdsToBlades | src/nuclearcraft_designer/overhauled/turbine_rotor_blade/designer.py:21-30 | keeps the length; a negative id becomes None and id `i` the `i`-th blade type |
| RotorDesigner.IdsToBladesInjective | src/nuclearcraft_designer/overhauled/turbine_rotor_blade/designer.py:27-30 | with distinct types, two id lists give the same blades iff they agree up to the choice of negative id |
| RotorDesigner.TypeLimits | src/nuclearcraft_designer/overhauled/turbine_rotor_blade/designer.py:79-83 | one entry per blade type: the caller's limit for its name, -1 when the name is not given; unknown names are ignored |
| RotorDesigner.MaxAppearancesConstraints | src/nuclearcraft_designer/overhauled/turbine_rotor_blade/designer.py:88-91 | one `(id, limit)` per non-negative limit, in increasing id order, none for negative limits |
| RotorDesigner.ConstraintsFromLimits | src/nuclearcraft_designer/overhauled/turbine_rotor_blade/designer.py:79-91 | a type gets exactly one constraint, carrying the caller's limit, iff the caller names it with a non-negative limit |

## Left out

- `to_model` and `apply_to_model` in the constraint and placement-rule files are not part of this model, and neither is `core/scaled_ops.py`. They build models for an external CP-SAT solver whose semantics are not visible.
- Floating point: scores, conductivities and efficiencies are exact `real`s. The score function of the optimiser is a parameter.
- Optimizer.OptimizableSequence.Optimize: the initial score of `-inf` is modelled by a "found" flag (`opt_seq` is `None` until the first record). A search over a buffer of length 0 ends at once, since `next_row`, `advance` and `prev_row` all fail, and returns `false`, although the empty list is trivially complete and valid; the contract speaks only of candidates lexicographically above the start, of which there are none.
- Optimizer.OptimizableSequence.constructor: requires `max_value >= 1`. With `max_value < 1` the source enumeration does not terminate.
- `score` (optimizer.py:109-114) is the score-function parameter applied to the buffer and has no member of its own.
- Both `design_generator` bodies are not part of this model. They drive `utils.optimizer.SequenceOptimizer` and `ConstrainedIntegerSequence`, which are not part of this model. Only the constraint list and the limit translation they build are modelled.
- RotorDesigner.MaxAppearances: records only the arguments of `optimizer.max_appearances_constraint`; that function is not part of this model.
- `utils.ndim_sequence.Sequence2D` is not part of this model. The dynamo designer's grid is taken to be the `Sequence2D` of `common/multi_sequence.py`, with `(x, y) -> y*cols + x`.
- DynamoDesigner.IdsToCoils: `round(len(sequence) ** (1/2))` is replaced by a `cols` parameter. The designer's checks require `|ids| == cols*cols`, the only case the generator produces.
- The rotor designer's `expansion_levels` and `total_efficiency` (turbine_rotor_blade/designer.py:32-64) use fractional powers and are left out. So is `overhauled/turbine_rotor_blade.py`.
- `overhauled/turbine_rotor_blade/designer.py:4` reads `wfrom`, a syntax error, so that module cannot be imported at all. The model describes the logic of the rest of the file as if the import were correct.
- Non-positive dimensions (a `ZeroDivisionError` or empty ranges in the source) are excluded by the grids' `Valid` predicates.
- Out-of-range ids raise `IndexError` in the source, and so does a flat index outside `[-len, len)`. Out-of-range coordinates in a tuple key raise nothing: `tuple_to_int` (core/multi_sequence.py:42-45), the common `MultiSequence.__getitem__` (common/multi_sequence.py:31-34) and `Sequence2D.__getitem__` (common/multi_sequence.py:70) compute a flat index from any coordinates, so such a key silently reads another cell or wraps through negative indexing. The model requires ids below the number of types and tuple keys inside the grid (`InBounds`, `InGrid`); no modelled caller builds any other key.
- CoreConstraints.CallCenteredBearings, CommonConstraints.CallCenteredBearings: require a two-dimensional grid, which the source indexes with the pair `(y, x)`; a one-dimensional grid raises `IndexError` on `dims[1]`, and a grid of three or more dimensions raises it on the missing `key[2]`.
- `utils/component.py` and the `component.py` files of `core` and `common` are not part of this model. Each component is a datatype with a name (and a placement rule where the checks read one).
- `test.py` only prints results and is left out.

## Findings

| source | as written | input that shows it | evidently intended | confidence | as-written member | corrected member |
|---|---|---|---|---|---|---|
| src/nuclearcraft_designer/common/constraints.py:97-111 | `SymmetryConstraint` and `PlacementRuleConstraint` call `sequence.int_to_tuple`, which `common/multi_sequence.py` does not define, so both raise `AttributeError` on any non-empty grid | a 1×1 grid holding one empty cell | enumerate the cells through a row-major `int_to_tuple` and index with tuple keys | not executed | CommonConstraints.MissingIntToTupleFails | CommonConstraints.SymmetryOverTuples |
| src/nuclearcraft_designer/overhauled/turbine_dynamo_coil/designer.py:119-122 | the wrappers `lambda seq: constraint(...)` read `constraint` after the comprehension ends, so every wrapper applies the last caller constraint | one casing on a 1×1 grid, shaft width 0, caller constraints `[at most 0 casings, base constraint]` | each wrapper applies its own constraint | not executed | DynamoDesigner.LateBindingCounterexample | DynamoDesigner.ChecksMeaning |
