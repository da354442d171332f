# tfhe-rs: scheduler graph, casting key, GLWE tensor product, parameter filter

This project models four pieces of tfhe-rs in Dafny and proves properties of them.

- **The bootstrapping scheduler graph** of `mpi_test/src/async_pbs_graph.rs`.
  - `FheGraph` is a DAG of nodes. Each node is `Computed`, `BootsrapQueued` or `ToCompute`.
  - Each node carries a priority, and the graph counts the nodes not yet computed.
  - The model is the class `AsyncPbsGraph.FheGraph`. Node weights live in an array that `BuildTask` and `CommitResult` overwrite in place. The edges are a list in insertion order.
  - The tasks are `multisum`, `pbs` and the seven lookup tables of `Luts`. They are in `PbsTasks`.
  - `SchedulerRun` is a sequential run of the graph operations. It builds the graph, calls `init`, evaluates the queued tasks one at a time and commits each result until `is_finished`.
- **The shortint casting key** of `tfhe/src/shortint/key_switching_key/mod.rs` (`KeySwitchingKey`).
  - Construction by `new`, `from_raw_parts` and `try_new`, with their checks.
  - The raw-parts round trip and the view.
  - `cast`: which keyswitch and which lookup table produce the body in each branch, and the degree and noise-level bookkeeping, including the PBS-order fix-up.
- **The GLWE tensor product and relinearisation** of `tfhe/src/core_crypto/algorithms/glwe_tensor_product.rs` (`GlweTensorProduct`).
  - The size checks.
  - The layout of the `k*(k+3)/2` output mask polynomials and the floor division by `scale`.
  - The order in which relinearisation consumes the slots and the key entries.
- **The parameter search of the KS-PBS timing experiment** of `tfhe-rs-cost-model/src/ks_pbs_timing.rs` (`KsPbsTiming`).
  - The `(base log, level)` filter and the bound handed to it.
  - The `ParamsHash` deduplication key and `unique_by` over it.

Some library code is not modelled; its results enter the model as function-valued parameters:

- ciphertexts, lookup tables and polynomial products are opaque;
- key switching, bootstrapping, table generation, the negacyclic multiply-accumulate and the signed decomposition are not modelled.

The parameter records are named `ServerKeyOps`, `CryptoOps`, `TensorOps` and `RelinOps`.

Each `assert!`, `unwrap`, `expect` and `unreachable!` of the modelled functions becomes an `Err` value of a `Result`, so the model does not require callers to avoid them. Integer-width panics are the exception: the ones that are modelled and the ones that are not are listed under "## Left out".

Acyclicity (petgraph's `is_cyclic_directed`) is stated as the existence of a ranking of the nodes that strictly decreases along every edge. `AcyclicHasNoCycle` shows that such a graph has no closed walk.

`common.dfy` holds shared helpers: `Result`, `Option`, powers of two, `ilog2` and a few arithmetic lemmas.

## Model

| member | source | states |
|---|---|---|
| AsyncPbsGraph.Node.Ct | mpi_test/src/async_pbs_graph.rs:95-100 | `Node::ct` yields a ciphertext exactly for a computed node, and it is that node's ciphertext |
| AsyncPbsGraph.IncomingEdges | mpi_test/src/async_pbs_graph.rs:208-210 | the incoming edges of v are edges of the graph that end at v, and every edge ending at v is among them |
| AsyncPbsGraph.IncomingEdgesCount | mpi_test/src/async_pbs_graph.rs:208-210 | each edge ending at v is listed as often as it occurs in the graph (parallel edges repeated), and no other edge is listed |
| AsyncPbsGraph.OutgoingTargets | mpi_test/src/async_pbs_graph.rs:293-295 | the outgoing neighbours of v are exactly the targets of edges leaving v |
| AsyncPbsGraph.OutgoingEdges | mpi_test/src/async_pbs_graph.rs:293-295 | the outgoing edges of v are edges of the graph that start at v |
| AsyncPbsGraph.OutgoingEdgesCount | mpi_test/src/async_pbs_graph.rs:293-295 | each edge leaving v is listed as often as it occurs in the graph (parallel edges repeated), and no other edge is listed |
| AsyncPbsGraph.OutgoingTargetsOfEdges | mpi_test/src/async_pbs_graph.rs:293-295 | the neighbour list holds one target per outgoing edge, in the same order, so a parallel edge repeats its target |
| AsyncPbsGraph.AcyclicHasNoCycle | mpi_test/src/async_pbs_graph.rs:177 | a graph with a ranking has no walk that returns to its start, which is what `is_cyclic_directed` detects |
| AsyncPbsGraph.MaxSuccessorPriorityIsMax | mpi_test/src/async_pbs_graph.rs:131-134 | the max over the assigned successors bounds each of them and, when positive, is attained by one of them (`unwrap_or(0)` when there is none) |
| AsyncPbsGraph.InsertPredecessorsRecursively | mpi_test/src/async_pbs_graph.rs:118-142 | an assigned node is never revisited; a node is assigned only once all its successors are, with 1 + their maximum; the map only grows and stays consistent; the node ends settled and nothing settled earlier becomes unsettled |
| AsyncPbsGraph.AllAssignedIffAcyclic | mpi_test/src/async_pbs_graph.rs:153-164 | after the pass from every sink, every node has a priority iff the graph is acyclic, so the `successors_max_depth[..]` lookup panics exactly on a cyclic graph |
| AsyncPbsGraph.PrioritiesRank | mpi_test/src/async_pbs_graph.rs:131-136 | priorities assigned to every node strictly decrease along every edge, which makes the graph acyclic |
| AsyncPbsGraph.SinkPriorityIsOne | mpi_test/src/async_pbs_graph.rs:136 | a sink gets priority 1, not 0 |
| AsyncPbsGraph.PriorityIsOnePlusMaxOfSuccessors | mpi_test/src/async_pbs_graph.rs:131-136 | a node with successors has a priority above each successor and exactly one above the largest of them |
| AsyncPbsGraph.CountNotComputedZero | mpi_test/src/async_pbs_graph.rs:146-149 | the count of nodes that are not `Computed` is zero iff every node is computed |
| AsyncPbsGraph.CountNotComputed | mpi_test/src/async_pbs_graph.rs:146-149 | the count of nodes that are not `Computed` is at most the node count, and an uncomputed last node is counted |
| AsyncPbsGraph.CountNotComputedAfterCompute | mpi_test/src/async_pbs_graph.rs:280-291 | computing one node that was not computed lowers the count by exactly one |
| AsyncPbsGraph.CountNotComputedSameShape | mpi_test/src/async_pbs_graph.rs:229 | queuing a node (ToCompute to BootsrapQueued) does not change the count |
| AsyncPbsGraph.CollectPredecessors | mpi_test/src/async_pbs_graph.rs:208-218 | one `(weight, ciphertext)` pair per incoming edge, in edge order; fails iff some source is not computed |
| AsyncPbsGraph.CollectPredecessorsStable | mpi_test/src/async_pbs_graph.rs:208-218 | the snapshot depends only on the computed predecessors, so queuing other nodes does not change it |
| AsyncPbsGraph.TaskFor | mpi_test/src/async_pbs_graph.rs:231-238 | the task of a ready node carries its index and its lookup table, and one input per incoming edge |
| AsyncPbsGraph.ReadyNodes | mpi_test/src/async_pbs_graph.rs:251-270 | `init`'s filter lists, in ascending order, exactly the nodes that are `ToCompute` and have every predecessor computed |
| AsyncPbsGraph.FilterSuccessors | mpi_test/src/async_pbs_graph.rs:293-314 | `commit_result`'s filter fails iff some successor is not `ToCompute`; otherwise it keeps the successors with every predecessor computed, in neighbour order |
| AsyncPbsGraph.ReadyAmongMembers | mpi_test/src/async_pbs_graph.rs:302-312 | a candidate is kept iff all its predecessors are computed |
| AsyncPbsGraph.TasksFor | mpi_test/src/async_pbs_graph.rs:272-275 | one task per listed node, in order, each tagged `Priority(0)` and carrying the node's index |
| AsyncPbsGraph.TasksForAt | mpi_test/src/async_pbs_graph.rs:272-275 | task i is `Priority(0)` with the `build_task` task of the i-th listed node (`TaskFor`: its index, its lookup table and its predecessor snapshot) |
| AsyncPbsGraph.MarkQueuedKeepsPredecessors | mpi_test/src/async_pbs_graph.rs:272-275 | queuing some ready nodes leaves every other ready node ready with the same task, and a node queued already is no longer `ToCompute` |
| AsyncPbsGraph.FheGraph.New | mpi_test/src/async_pbs_graph.rs:145-175 | `new` fails iff the graph is cyclic; otherwise it keeps nodes and edges, every node gets a consistent priority, and the counter equals the number of nodes not computed |
| AsyncPbsGraph.FheGraph.ValidIsAcyclic | mpi_test/src/async_pbs_graph.rs:161-169 | a graph that `new` built is acyclic |
| AsyncPbsGraph.FheGraph.TestGraphInit | mpi_test/src/async_pbs_graph.rs:176-192 | passes iff the graph is acyclic, every source is computed and every other node is to compute |
| AsyncPbsGraph.FheGraph.AssertFinishable | mpi_test/src/async_pbs_graph.rs:194-205 | passes iff the graph is acyclic and every source is computed; it does not check the other nodes |
| AsyncPbsGraph.FheGraph.PredecessorsList | mpi_test/src/async_pbs_graph.rs:208-218 | one `(weight, ciphertext)` pair per incoming edge; fails iff some predecessor is not computed |
| AsyncPbsGraph.FheGraph.BuildTask | mpi_test/src/async_pbs_graph.rs:221-239 | fails iff a predecessor is not computed or the node is not `ToCompute` (`unreachable!`), changing nothing; otherwise only the node becomes `BootsrapQueued` and the task is its snapshot at `Priority(0)` |
| AsyncPbsGraph.FheGraph.Init | mpi_test/src/async_pbs_graph.rs:248-276 | fails iff a source is not computed or another node is not to compute; otherwise exactly the ready nodes are queued and get one task each, in index order |
| AsyncPbsGraph.FheGraph.NodesToCompute | mpi_test/src/async_pbs_graph.rs:251-270 | the nodes `init` selects, distinct and all ready |
| AsyncPbsGraph.FheGraph.BuildTasks | mpi_test/src/async_pbs_graph.rs:272-275 | building distinct ready nodes never fails; exactly they become queued, with one task each |
| AsyncPbsGraph.FheGraph.CommitResult | mpi_test/src/async_pbs_graph.rs:279-320 | fails iff the counter is 0, there is no such node, the node is not queued, a successor is not to compute, or a successor listed twice is built twice; otherwise the node is computed, the counter drops by one, the successors now ready are queued with one task each, and no other node changes |
| AsyncPbsGraph.FheGraph.BuildTasksUntilRepeat | mpi_test/src/async_pbs_graph.rs:316-319 | building the listed ready nodes fails iff one is listed twice; otherwise exactly they are queued and their tasks are returned in order |
| AsyncPbsGraph.FheGraph.BuildNext | mpi_test/src/async_pbs_graph.rs:318 | one `build_task` call of the list: it appends the next task, or it fails only on a repeated node |
| AsyncPbsGraph.FheGraph.IsFinished | mpi_test/src/async_pbs_graph.rs:322-324 | the counter is zero iff every node is computed |
| PbsTasks.AsU8 | mpi_test/src/async_pbs_graph.rs:56-59 | `as u8` keeps a weight below 256 |
| PbsTasks.Multisum | mpi_test/src/async_pbs_graph.rs:45-67 | fails iff the task has no inputs; otherwise keeps index and table and returns the accumulated weighted sum |
| PbsTasks.MultisumIsFirstThenRest | mpi_test/src/async_pbs_graph.rs:54-60 | the sum is `scalar_mul` of the first pair followed by one `add_scalar_mul` per remaining pair, in list order |
| PbsTasks.MultisumTruncatesWeights | mpi_test/src/async_pbs_graph.rs:56-59 | weights that agree modulo 256 give the same sum |
| PbsTasks.Pbs | mpi_test/src/async_pbs_graph.rs:78-83 | `pbs` keeps the node index |
| PbsTasks.PbsAppliesTheNodeFunction | mpi_test/src/async_pbs_graph.rs:400-444 | with the tables of `Luts::new`, `get` selects for each of the seven variants the table generated from that variant's function, and `pbs` applies it |
| PbsTasks.LookupFunction | mpi_test/src/async_pbs_graph.rs:400-431 | the tables of the two products and of the prefix sum are bivariate and the other four univariate; the prefix-sum table uses `prefix_sum_carry_propagation` itself |
| PbsTasks.NewLuts | mpi_test/src/async_pbs_graph.rs:399-432 | `Luts::new` generates one table per variant, and `get` returns for each variant the table generated from that variant's function |
| PbsTasks.ExtractionsRecompose | mpi_test/src/async_pbs_graph.rs:404-411 | the message and carry tables split x into its two base-m digits, and the bivariate low/high tables split x*y the same way |
| PbsTasks.CarryTablesAgree | mpi_test/src/async_pbs_graph.rs:415-430 | the two carry tables of `Luts::new` both give the code of `Generated` for x >= m; below m the first gives `None`, and the second gives `Propagated` exactly at x == m-1 and `None` below that |
| SchedulerRun.OutgoingTargetsDistinct | mpi_test/src/async_pbs_graph.rs:293-295 | when no two edges leave the node for the same target, its outgoing neighbours are distinct |
| SchedulerRun.InitEstablishes | mpi_test/src/async_pbs_graph.rs:248-276 | after `init` the queue lists exactly the queued nodes, every task has an input, and every node still to compute waits on an uncomputed predecessor |
| SchedulerRun.CommitSucceeds | mpi_test/src/async_pbs_graph.rs:279-320 | committing the head task of a schedulable state never panics when parallel edges leave only computed nodes |
| SchedulerRun.StartParallelEdgesLeaveComputed | mpi_test/src/async_pbs_graph.rs:194-201 | after `init`'s checks the sources are computed, so parallel edges that leave only sources leave only computed nodes |
| SchedulerRun.ParallelEdgesStayComputed | mpi_test/src/async_pbs_graph.rs:288-291 | a commit only adds a computed node, so parallel edges keep leaving only computed nodes |
| SchedulerRun.CommitOnlyComputesHead | mpi_test/src/async_pbs_graph.rs:288-291 | a commit computes exactly the head node, which was not computed before, and changes no computed node |
| SchedulerRun.CommitPreserves | mpi_test/src/async_pbs_graph.rs:279-320 | a commit keeps the state schedulable: the queue matches the queued nodes, tasks are non-empty, and successors wait |
| SchedulerRun.PendingWhileUnfinished | mpi_test/src/async_pbs_graph.rs:322-324 | while some node is not computed, the queue is not empty (no deadlock) |
| SchedulerRun.CommittedOnceStep | mpi_test/src/async_pbs_graph.rs:279-291 | committing one uncomputed node, which alone becomes computed while computed nodes stay unchanged, extends the log of committed nodes without repeats |
| SchedulerRun.CommittedOnceAtEnd | mpi_test/src/async_pbs_graph.rs:279-291 | once every node is computed, the log holds every initially uncomputed node exactly once, and the initially computed nodes are unchanged |
| SchedulerRun.Step | mpi_test/src/async_pbs_graph.rs:353-354 | one task through `multisum`, `pbs` and `commit_result`: exactly the head node becomes computed, the counter drops, and the state stays schedulable |
| SchedulerRun.Drive | mpi_test/src/async_pbs_graph.rs:322-324 | taking tasks until `is_finished` terminates with every node computed, each committed once |
| SchedulerRun.Run | mpi_test/src/async_pbs_graph.rs:340-354 | `new` then `init` then commits: fails iff the graph is cyclic or `init`'s checks fail; otherwise every node ends computed, computed inputs are kept, and each other node is computed exactly once; parallel edges may leave sources |
| KeySwitchingKey.New | tfhe/src/shortint/key_switching_key/mod.rs:66-111 | succeeds iff both full moduli are powers of two, narrowing has a source key, and both logs fit `i8`; then `cast_rshift` = ilog2(out) - ilog2(in) and the keys and destination choice are stored as given |
| KeySwitchingKey.NewCastRshiftMeaning | tfhe/src/shortint/key_switching_key/mod.rs:100-108 | shifting the input full modulus by `cast_rshift` gives the output full modulus; the shift is negative iff the cast narrows, and then a source key is present |
| KeySwitchingKey.FromRawParts | tfhe/src/shortint/key_switching_key/mod.rs:172-235 | succeeds iff the parts are compatible (source dimension and modulus, or a non-negative shift without source; destination dimension by key choice; keyswitch key modulus), and then holds exactly those parts |
| KeySwitchingKey.TryNew | tfhe/src/shortint/key_switching_key/mod.rs:287-350 | succeeds iff the parts are compatible |
| KeySwitchingKey.ConstructorsAgree | tfhe/src/shortint/key_switching_key/mod.rs:294-341 | `from_raw_parts` and `try_new` fail on the same parts with the same error, and on success `try_new` gives the view of the key `from_raw_parts` builds |
| KeySwitchingKey.RawPartsRoundTrip | tfhe/src/shortint/key_switching_key/mod.rs:132-156 | `from_raw_parts(into_raw_parts(k))` gives back k when its parts are compatible |
| KeySwitchingKey.AsView | tfhe/src/shortint/key_switching_key/mod.rs:113-129 | the view of a key whose parts fit together is the one `try_new` builds from those parts |
| KeySwitchingKey.IntoRawParts | tfhe/src/shortint/key_switching_key/mod.rs:132-156 | parts that fit together are accepted by `try_new`, which rebuilds the key's view |
| KeySwitchingKey.Cast | tfhe/src/shortint/key_switching_key/mod.rs:382-497 | fails iff the shift is negative with no source key; otherwise the degree is set by the sign of the shift, the noise level is nominal after a bootstrap and unknown otherwise, and the moduli and PBS order are the destination's. The body is the branch's body (`BranchCt`) when the order matches; otherwise it is that body keyswitched with the destination key (big key) or put through the bare programmable bootstrap of the destination's bootstrapping key with the identity table, without a keyswitch (small key) |
| KeySwitchingKey.KeyswitchAndShift | tfhe/src/shortint/key_switching_key/mod.rs:383-452 | the three branches on the sign of `cast_rshift`. Shift 0 keeps the degree and only keyswitches. A positive shift keyswitches, then applies the `n >> r` table under the destination key. A negative shift applies the `(n << -r) % full` table under the source key, then keyswitches, and shifts that table's degree right. Noise is nominal only for a positive shift |
| KeySwitchingKey.FixPbsOrder | tfhe/src/shortint/key_switching_key/mod.rs:454-494 | a ciphertext under the right order is returned as is; otherwise degree and noise are carried over. The body is the destination keyswitch of the input body for the big key, and the bare programmable bootstrap of it (destination bootstrapping key, identity table, no keyswitch) for the small key, which also sets noise nominal |
| KeySwitchingKey.WideningLutRecoversMessage | tfhe/src/shortint/key_switching_key/mod.rs:413-415 | `n >> r` maps a re-encoded message x*2^r back to x and every output-space value into the input space |
| KeySwitchingKey.NarrowingLutKeepsLowBits | tfhe/src/shortint/key_switching_key/mod.rs:428-448 | `(n << s) % 2^(b+s)` on u64, then `>> s`, is n mod 2^b |
| KeySwitchingKey.NewWideningCastDecodes | tfhe/src/shortint/key_switching_key/mod.rs:410-420 | for a key from `new` with a positive shift, the widening table decodes every input message |
| KeySwitchingKey.NewNarrowingCastKeepsLowBits | tfhe/src/shortint/key_switching_key/mod.rs:422-448 | for a key from `new` with a negative shift, the narrowing table and the degree shift keep n mod the output full modulus |
| GlweTensorProduct.TensorProduct | tfhe/src/core_crypto/algorithms/glwe_tensor_product.rs:212-391 | fails iff polynomial size, GLWE size or modulus differ (or `scale` is 0 with non-empty polynomials); otherwise the output has `k*(k+3)/2` mask polynomials, each the scaled product of its slot, the body the scaled body product, and size and modulus kept |
| GlweTensorProduct.FillRow | tfhe/src/core_crypto/algorithms/glwe_tensor_product.rs:278-357 | the inner loop for row i writes the cross terms j < i, then the square and the linear term, each at its layout position |
| GlweTensorProduct.SquareAndLinearTerms | tfhe/src/core_crypto/algorithms/glwe_tensor_product.rs:279-332 | the i == j iteration writes `a_i*a'_i`, then `a_i*b' + b*a'_i`, scaled |
| GlweTensorProduct.CrossTerm | tfhe/src/core_crypto/algorithms/glwe_tensor_product.rs:333-355 | a j < i iteration writes `a_i*a'_j + a_j*a'_i`, scaled |
| GlweTensorProduct.Store | tfhe/src/core_crypto/algorithms/glwe_tensor_product.rs:284 | the output iterator moves to the next polynomial; earlier polynomials stay as written |
| GlweTensorProduct.ScaleInto | tfhe/src/core_crypto/algorithms/glwe_tensor_product.rs:285-292 | every coefficient becomes its u128 quotient by `scale`, cast to the Scalar width |
| GlweTensorProduct.ScaleDownIsFloor | tfhe/src/core_crypto/algorithms/glwe_tensor_product.rs:289-292 | the division floors: coefficient*scale <= x < (coefficient+1)*scale |
| GlweTensorProduct.RowStartClosedForm | tfhe/src/core_crypto/algorithms/glwe_tensor_product.rs:245-246 | rows of i+2 slots add up to i*(i+3)/2 slots before row i |
| GlweTensorProduct.SlotLayoutBijection | tfhe/src/core_crypto/algorithms/glwe_tensor_product.rs:277-358 | positions below k*(k+3)/2 and the cross, square and linear slots of dimension k correspond one to one: none missing, none written twice |
| GlweTensorProduct.SlotIndexIsUnique | tfhe/src/core_crypto/algorithms/glwe_tensor_product.rs:277-358 | two slots at the same position are the same slot |
| GlweTensorProduct.RowLayout | tfhe/src/core_crypto/algorithms/glwe_tensor_product.rs:277-358 | row i holds the cross terms j = 0..i-1, then the square term, then the linear term |
| GlweTensorProduct.SlotAt | tfhe/src/core_crypto/algorithms/glwe_tensor_product.rs:277-358 | the slot written at position s lies in the row that holds s, and that slot's position is s |
| GlweTensorProduct.WrappingAddToZero | tfhe/src/core_crypto/algorithms/glwe_tensor_product.rs:427-430 | adding the body to the zeroed output polynomial copies it |
| GlweTensorProduct.ResetOutput | tfhe/src/core_crypto/algorithms/glwe_tensor_product.rs:423-430 | the output is zeroed, then its body gets the input body |
| GlweTensorProduct.InitialOutputCopiesBody | tfhe/src/core_crypto/algorithms/glwe_tensor_product.rs:423-430 | before any key entry is used, the output mask is zero and its body is the input body |
| GlweTensorProduct.Relinearise | tfhe/src/core_crypto/algorithms/glwe_tensor_product.rs:395-464 | fails iff `d*(d+3)/2` differs from the input dimension, GLWE sizes differ or polynomial sizes differ, leaving the output untouched; otherwise the output is the zeroed body copy updated in the consumption order |
| GlweTensorProduct.RelineariseRows | tfhe/src/core_crypto/algorithms/glwe_tensor_product.rs:443-463 | the outer loop applies every row's reads in order |
| GlweTensorProduct.RelineariseRow | tfhe/src/core_crypto/algorithms/glwe_tensor_product.rs:444-462 | row i: i+1 quadratic reads, then the linear read |
| GlweTensorProduct.ConsumeQuadratics | tfhe/src/core_crypto/algorithms/glwe_tensor_product.rs:444-457 | the i+1 quadratic polynomials of row i, each with the next key entry |
| GlweTensorProduct.ConsumeQuadratic | tfhe/src/core_crypto/algorithms/glwe_tensor_product.rs:445-456 | the key levels are taken from the highest down, each with the next decomposition term |
| GlweTensorProduct.SubScalarMulAssign | tfhe/src/core_crypto/algorithms/glwe_tensor_product.rs:451-455 | each output polynomial is reduced by its level polynomial times the decomposed term |
| GlweTensorProduct.AddLinear | tfhe/src/core_crypto/algorithms/glwe_tensor_product.rs:458-462 | the linear polynomial of row i is added into mask polynomial i |
| GlweTensorProduct.ConsumptionReadsEverySlotOnce | tfhe/src/core_crypto/algorithms/glwe_tensor_product.rs:443-463 | relinearisation reads d*(d+3)/2 input polynomials, the n-th read being slot n |
| GlweTensorProduct.ConsumptionMatchesLayout | tfhe/src/core_crypto/algorithms/glwe_tensor_product.rs:443-463 | each quadratic read meets a cross or square term with that term's key entry, and each linear read of row i meets the linear term of i |
| GlweTensorProduct.KeyIndexInRange | tfhe/src/core_crypto/algorithms/glwe_tensor_product.rs:443-457 | the key entries the quadratic slots use all exist in a key of dimension d |
| KsPbsTiming.FilterBaseLevelLimited | tfhe-rs-cost-model/src/ks_pbs_timing.rs:219-243 | the result is exactly the admissible pairs of the product, in product order |
| KsPbsTiming.FilterRow | tfhe-rs-cost-model/src/ks_pbs_timing.rs:225-240 | the nested conditions keep exactly the admissible pairs of one base, levels in order |
| KsPbsTiming.FilterKeepsExactlyAdmissible | tfhe-rs-cost-model/src/ks_pbs_timing.rs:225-240 | (b, l) is kept iff b and l are inputs, b*l <= bound, l <= 10, and base 1 only with l % 5 == 0 |
| KsPbsTiming.FilterAdmissibleMembers | tfhe-rs-cost-model/src/ks_pbs_timing.rs:226-239 | the filter keeps a pair iff it is in the input and admissible |
| KsPbsTiming.ProductMembers | tfhe-rs-cost-model/src/ks_pbs_timing.rs:225 | `iproduct!` holds exactly the pairs of an input base and an input level |
| KsPbsTiming.ProductAt | tfhe-rs-cost-model/src/ks_pbs_timing.rs:225 | element i*|levels|+j of `iproduct!` is (bases[i], levels[j]): bases outer, levels inner |
| KsPbsTiming.ProductLength | tfhe-rs-cost-model/src/ks_pbs_timing.rs:225 | the product has |bases|*|levels| pairs |
| KsPbsTiming.Row | tfhe-rs-cost-model/src/ks_pbs_timing.rs:225 | one base with every level, in order |
| KsPbsTiming.ModulusLog2 | tfhe-rs-cost-model/src/ks_pbs_timing.rs:266-270 | 64 for the native modulus, the exponent of a power-of-two custom modulus otherwise |
| KsPbsTiming.MaxBaseLogLevelProd | tfhe-rs-cost-model/src/ks_pbs_timing.rs:273-284 | the bound is the least of the preserved mantissa, the modulus log and 40 |
| KsPbsTiming.RangeInclusive | tfhe-rs-cost-model/src/ks_pbs_timing.rs:277-280 | `1..=n` has n elements, the k-th being k+1 |
| KsPbsTiming.BaseLevelSearchSpace | tfhe-rs-cost-model/src/ks_pbs_timing.rs:254-296 | fails iff a custom modulus is not a power of two; otherwise it is exactly the filter of `iproduct!(1..=log2, 1..=log2)`, in that order: every pair has base and level in range, level <= 10, product within the bound and 40, and base 1 only with level % 5 == 0, and every such pair is present |
| KsPbsTiming.HashKey | tfhe-rs-cost-model/src/ks_pbs_timing.rs:60-71 | the flag `ks_base_log_smaller_than_5` is set iff `ks_base_log <= 5`, inclusive |
| KsPbsTiming.HashKeyCollision | tfhe-rs-cost-model/src/ks_pbs_timing.rs:39-71 | two parameter sets share a key iff they agree on the five copied fields and on the side of 5 of `ks_base_log`; `pbs_base_log` and `grouping_factor` are ignored |
| KsPbsTiming.UniqueByKeyFromKeepsUnseen | tfhe-rs-cost-model/src/ks_pbs_timing.rs:356-359 | `unique_by` keeps only input elements whose key was not seen before |
| KsPbsTiming.UniqueByKeyFromDistinct | tfhe-rs-cost-model/src/ks_pbs_timing.rs:356-359 | the kept elements have pairwise distinct keys |
| KsPbsTiming.UniqueByKeyFromCovers | tfhe-rs-cost-model/src/ks_pbs_timing.rs:356-359 | every key of the input has a kept element |
| KsPbsTiming.UniqueByKeyDropsLaterDuplicate | tfhe-rs-cost-model/src/ks_pbs_timing.rs:356-359 | of two leading candidates with the same key, only the first is kept (a special case of `UniqueByKeyKeepsFirstOccurrences`) |
| KsPbsTiming.UniqueByKey | tfhe-rs-cost-model/src/ks_pbs_timing.rs:356-359 | `unique_by` never lengthens the list and always keeps the first candidate |
| KsPbsTiming.UniqueByKeyFrom | tfhe-rs-cost-model/src/ks_pbs_timing.rs:356-359 | with keys already seen, the list does not grow, and a first candidate with an unseen key is kept in front |
| KsPbsTiming.UniqueByKeyFromFirstOccurrences | tfhe-rs-cost-model/src/ks_pbs_timing.rs:356-359 | the kept elements are, in increasing input position, exactly the first occurrences of the keys not seen before |
| KsPbsTiming.UniqueByKeyKeepsFirstOccurrences | tfhe-rs-cost-model/src/ks_pbs_timing.rs:356-359 | each kept parameter set is the first of its key in the input, the kept ones are in input order, and the first parameter set of every key is kept |

## Left out

- MPI, serialisation and timing. `async_pbs_graph_queue_master1` / `_worker1` are not modelled. The generic master and worker loops of `crate::async_task_graph` are not part of this model either.
- `SchedulerRun.Run` stands in for that engine. It is a sequential run that takes tasks in FIFO order.
  - `SchedulerRun.Run` requires that parallel edges leave only sources. Sources start computed and are never committed, so their edges never reach `commit_result`.
  - For a parallel edge u⇉v out of a node u that is not a source, `commit_result(u)` lists v twice. Both copies pass the filter only when that commit makes v ready, i.e. when u is the last predecessor of v to be computed. Then the second `build_task` reaches `unreachable!`, and `CommitResult` models that case as an error. If v still waits on another node, both copies are filtered out and the run goes on.
  - So `Run` also excludes some graphs the program completes: those with a parallel edge u⇉v from a non-source u where another predecessor of v is computed after u.
- The order in which petgraph lists the edges at a node (newest first) is library behaviour, and `IncomingEdges` and `OutgoingTargets` assume it. petgraph's cycle detection is replaced by the ranking predicate `Acyclic`.
- Priorities are computed and stored by `FheGraph.New`, but they never reach a task: `build_task` always uses `Priority(0)`, and the model follows the code in this.
- `FheGraph.New`: priorities are unbounded naturals. The `i32` of the source could overflow on a path longer than 2^31 nodes; that is not modelled.
- `FheGraph.CommitResult`: a decrement of a zero counter is modelled as a panic, as in a build with overflow checks. A release build would wrap instead.
- The `dbg!` output and the `#[time]` instrumentation are not modelled.
- Cryptographic primitives are parameters without meaning. This covers key switching, bootstrapping, lookup-table generation and application, the scalar multiply-accumulate, the negacyclic product, the wrapping sub-multiply and the signed decomposer.
  - `Pbs`: the contract does not go beyond the node index, because the ciphertext comes from an opaque function. `PbsAppliesTheNodeFunction` states which table is used.
- `PbsTasks.LookupFunction` receives `prefix_sum_carry_propagation` and the integer codes of `OutputCarry` as parameters. They are defined outside the shown files.
- The `u64` arithmetic inside the table closures (e.g. `x * y` overflow) is not modelled; values are unbounded.
- `KeySwitchingKey.New` takes the key-switching key generated by `ShortintEngine` as a parameter.
- `KeySwitchingKey::cast` forwards to the view's `cast`, so it is `Cast` applied to `AsView(k)`. There is no separate member.
- `PbsTasks.Get` has no contract of its own: `NewLuts` states what `get` returns for each variant (mpi_test/src/async_pbs_graph.rs:434-444).
- Integer-width panics of `cast` and of the tables are not modelled as errors; values are unbounded naturals:
  - `KeySwitchingKey.ShiftLeftMod` returns 0 for an input full modulus of 0, where `% 0` on `u64` panics.
  - `KeySwitchingKey.ShiftRightLut` gives 0 for a shift of 64 or more. In the source, `n >> cast_rshift` on `u64` panics in a debug build; `from_raw_parts` can produce such a shift.
  - `KeySwitchingKey.ShiftLeftMod` gives 0 for a shift of 64 or more. In the source, `n << -cast_rshift` on `u64` panics in a debug build; `from_raw_parts` can produce such a shift (a `cast_rshift` in -127..-64).
  - `KeySwitchingKey.CastDegree` shifts the table degree right without bound, giving 0 for a shift of 64 or more. In the source, `shifted_cipher.degree.get() >> -cast_rshift` on `usize` panics in a debug build for such a shift.
  - `KeySwitchingKey.NarrowingLut` computes the `usize` product `carry_modulus * message_modulus` of the input ciphertext without bound; in the source it can overflow.
  - `KeySwitchingKey.NarrowingLut`: negating a `cast_rshift` of -128 overflows `i8` and panics in a debug build; the model negates without bound.
  - `KeySwitchingKey.New`: the `usize` products `carry * message` of the full moduli cannot overflow in the model.
  - `PbsTasks.LookupFunction` and `PbsTasks.NewLuts` require a message modulus of at least 1. With 0, the closures of `Luts::new` panic (`x % 0`, `m - 1` underflow) when the tables are generated.
- Noise levels other than those `cast` sets are not modelled.
- `GlweTensorProduct.TensorProduct`: the negacyclic product is a parameter of unknown meaning. What the model checks is which inputs each slot multiplies, in which order, and the floor division.
  - A `scale` of 0 panics in the source (division by zero) only when there are coefficients to divide. The model returns an error in that case.
- The pipeline functions of `glwe_tensor_product.rs` are not modelled: `tensor_mult_with_relin`, `pack_lwe_list_into_glwe*`, `glwe_tensor_mult_with_relin_pbs_ks_a/_c` and `square_trick`. They are chains of the two modelled functions and library calls.
- `KsPbsTiming.BaseLevelSearchSpace`: any power-of-two custom modulus counts as compatible. The library's own bounds on custom moduli are not modelled.
- The rest of `ks_pbs_timing.rs` is not modelled:
  - noise-variance estimation and the uniform-randomness check (floating point, external noise model);
  - performance metrics (`Duration`, floats);
  - writing results to files;
  - the random shuffle;
  - the key generation and measurement runs (rayon, CUDA).
