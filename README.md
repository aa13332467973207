# AMD matrix-core lowering and epilogue store bypass, in Dafny

This project models two rewrite patterns of Triton's AMD GPU backend. Both act
on the TritonGPU dataflow graph, and both are proved against their own
specifications.

- **BlockedToMFMA** (`AccelerateAMDMatmul.cpp`) lowers a `tt.dot` whose
  result is in a blocked layout to an MFMA dot. The steps are:
  - choose the instruction tile (mDim, nDim) from the output shape, or take
    the enforced size;
  - look up kDim in the MFMA instruction table;
  - assign warps to the tile (`warpsPerTileMFMA`);
  - test whether the dot is chained to another dot through its
    same-region slice (`isChainDot`);
  - build the MFMA accumulator encoding, the 32-bit accumulator type and
    kWidth;
  - convert A, B and the accumulator into the new layouts, casting where
    the element type changes (`convertAndCastTensor`);
  - create the new dot, convert its result back to the original type, and
    replace the old dot.
- **BypassEpilogueSMEM** (`OptimizeEpilogue.cpp`) acts on a store of a
  blocked tensor. The pattern applies when the stored value comes from a
  layout conversion out of an MMA/MFMA layout, through a chain of one-use,
  one-operand elementwise operations. The rewrite then:
  - moves the chain in front of the conversion and makes it compute in the
    accumulator layout;
  - converts the pointer (and the mask, if any) to that layout;
  - replaces the store.

The graph is the class `Ir.Graph`. Its `nodes` field maps ids to operations,
and `nextId` is the id the next created operation gets. The rewriter
primitives are its methods: create, set operand, set result type,
replace-all-uses, replace and erase. The patterns are methods on that class.
Each pattern's decisions are functions, proved equal to what the methods
compute.

Modules:
- `Ir`: types, encodings, operations, the graph.
- `Pow2`: powers of two.
- `Slice`: the same-region slice and `isChainDot`.
- `WarpTiling`: `warpsPerTileMFMA`.
- `MfmaSelect`: `chooseMfmaDimensions`, kWidth, the accumulator type, the lowering plan.
- `CastRules`: the cast chosen by `convertAndCastTensor`.
- `AccelerateMatmul`: `convertAndCastTensor` and `BlockedToMFMA::matchAndRewrite`.
- `Epilogue`: the allow-list, the walk, the match, the rewrite and what it preserves.

Source paths below are relative to the repository root.

## Model

| member | source | states |
|---|---|---|
| Slice.Closure | third_party/amd/lib/TritonAMDGPUTransforms/AccelerateAMDMatmul.cpp:81-86 | the slice contains the start set, lies in the graph and is closed under same-region neighbours |
| Slice.ClosureIsLeast | third_party/amd/lib/TritonAMDGPUTransforms/AccelerateAMDMatmul.cpp:81-86 | the slice is contained in every neighbour-closed set holding the start, so it is the least such set |
| Slice.PathStaysInClosure | third_party/amd/lib/TritonAMDGPUTransforms/AccelerateAMDMatmul.cpp:81-86 | the end of any same-region producer/user path from the start set is in the slice |
| Slice.ConnectedDotIsChained | third_party/amd/lib/TritonAMDGPUTransforms/AccelerateAMDMatmul.cpp:77-92 | a dot joined to another dot by a same-region path is a chain dot |
| Slice.FeedingDotIsChained | third_party/amd/lib/TritonAMDGPUTransforms/AccelerateAMDMatmul.cpp:77-92 | a dot whose result feeds another dot of the same region is a chain dot |
| Slice.UnconnectedDotIsNotChained | third_party/amd/lib/TritonAMDGPUTransforms/AccelerateAMDMatmul.cpp:77-92 | a dot is not chained when some neighbour-closed set around it holds no other dot |
| WarpTiling.GrowStep | third_party/amd/lib/TritonAMDGPUTransforms/AccelerateAMDMatmul.cpp:50-58 | one turn of the loop doubles exactly one side, so the warp count doubles; M grows exactly when its per-warp share wins the comparison and M still has room |
| WarpTiling.GreedyWarpsBounds | third_party/amd/lib/TritonAMDGPUTransforms/AccelerateAMDMatmul.cpp:43-59 | from powers of two the loop ends with powers of two covering numWarps, and with fewer than twice numWarps unless it did not run |
| WarpTiling.WarpsPerTileProduct | third_party/amd/lib/TritonAMDGPUTransforms/AccelerateAMDMatmul.cpp:37-65 | a chained dot gets (numWarps, 1); otherwise both sides are powers of two whose product covers numWarps, stays below twice numWarps, and equals numWarps when numWarps is a power of two; the final swap keeps the product |
| WarpTiling.WarpsPerTileMfma | third_party/amd/lib/TritonAMDGPUTransforms/AccelerateAMDMatmul.cpp:25-66 | the loop computes WarpsPerTile: (numWarps, 1) for chained dots, powers of two covering numWarps otherwise, exactly numWarps when it is a power of two |
| Pow2.Pow2Divides | third_party/amd/lib/TritonAMDGPUTransforms/AccelerateAMDMatmul.cpp:149 | an instruction side (4, 16, 32 or 64) divides any power of two at least as large |
| MfmaSelect.InstrShape | third_party/amd/lib/TritonAMDGPUTransforms/AccelerateAMDMatmul.cpp:109-139 | the tile is (enforced, enforced) when a size is enforced, otherwise one of 32x32, 16x16, 4x64, 64x4, 4x4; never zero |
| MfmaSelect.ChooseMfmaDimensions | third_party/amd/lib/TritonAMDGPUTransforms/AccelerateAMDMatmul.cpp:97-152 | on success the tile is InstrShape, kDim is the table's entry for tile, operand types and version, and all three are non-zero and divide M, N and K; it succeeds exactly when the 4x4 check passes, the entry exists and is non-zero and the three divisibilities hold; it fails with the 4x4 error exactly when the fallback is 4x4 and K < 64, and with the missing-instruction error exactly when the table has no entry |
| MfmaSelect.KWidth | third_party/amd/lib/TritonAMDGPUTransforms/AccelerateAMDMatmul.cpp:276-288 | kWidth is set exactly for the five instruction shapes; it then lies in 0..kDim, and for square tiles kWidth times the group count does not exceed kDim |
| MfmaSelect.AccType | third_party/amd/lib/TritonAMDGPUTransforms/AccelerateAMDMatmul.cpp:264-268 | the accumulator is i32 or f32, an integer exactly when the result element is an integer or index |
| MfmaSelect.PlanLowering | third_party/amd/lib/TritonAMDGPUTransforms/AccelerateAMDMatmul.cpp:252-288 | success exactly when the instruction choice succeeds, the result element is an integer or float, and kWidth is set; the plan then holds that choice, version.0, warps from WarpsPerTile, transposition exactly for chained dots, the inherited CTA layout, KWidth and AccType; each failure names the check that failed |
| MfmaSelect.AutoShapeDividesPow2Tile | third_party/amd/lib/TritonAMDGPUTransforms/AccelerateAMDMatmul.cpp:115-149 | for power-of-two output sides of at least 4, the chosen tile divides the output, so the divisibility assertion holds |
| MfmaSelect.AutoShapeFitsTile | third_party/amd/lib/TritonAMDGPUTransforms/AccelerateAMDMatmul.cpp:115-137 | the chosen tile never exceeds an output of sides at least 4 |
| CastRules.SelectCast | third_party/amd/lib/TritonAMDGPUTransforms/AccelerateAMDMatmul.cpp:189-221 | no cast exactly when the element types agree; for integer targets a bitcast exactly at equal width, trunci exactly when narrowing, extsi exactly when widening a signed source and extui exactly when widening any other; for float targets extf exactly for f16 to f32, truncf exactly for f32 to f16 and fp_to_fp for every other pair |
| CastRules.CastResultElem | third_party/amd/lib/TritonAMDGPUTransforms/AccelerateAMDMatmul.cpp:183-201 | the result element is the new type, except that it stays the old one exactly when the same-width integer bitcast is chosen |
| CastRules.CastBackReverses | third_party/amd/lib/TritonAMDGPUTransforms/AccelerateAMDMatmul.cpp:196-221 | the cast chosen back from the new type to the old reverses the one chosen forth (extension against truncation, bitcast and fp_to_fp against themselves) |
| CastRules.CastRoundTrip | third_party/amd/lib/TritonAMDGPUTransforms/AccelerateAMDMatmul.cpp:171-223 | casting to another type and back returns the original element type |
| AccelerateMatmul.NewAccElem | third_party/amd/lib/TritonAMDGPUTransforms/AccelerateAMDMatmul.cpp:264-272 | the new accumulator's element type is the accumulator type, or the result type when that is a non-signless 32-bit integer |
| AccelerateMatmul.OutputKeepsResultElem | third_party/amd/lib/TritonAMDGPUTransforms/AccelerateAMDMatmul.cpp:297-303 | converting the new dot's result back yields exactly the old dot's result element type |
| AccelerateMatmul.ConvertAndCastTensor | third_party/amd/lib/TritonAMDGPUTransforms/AccelerateAMDMatmul.cpp:171-223 | adds a layout conversion of the value to the new encoding with its old shape and element type and, when the types differ, the SelectCast cast of that conversion (ConvertedCast); the last node created has the same shape, element CastResultElem and the new encoding; older nodes are unchanged |
| AccelerateMatmul.PlanFor | third_party/amd/lib/TritonAMDGPUTransforms/AccelerateAMDMatmul.cpp:238-268 | the accumulator encoding is transposed exactly when the dot is a chain dot |
| AccelerateMatmul.LoweredDotSurvivesReplace | third_party/amd/lib/TritonAMDGPUTransforms/AccelerateAMDMatmul.cpp:305 | replacing the old dot keeps the description of the new dot and its operands |
| AccelerateMatmul.ConvertAB | third_party/amd/lib/TritonAMDGPUTransforms/AccelerateAMDMatmul.cpp:289-296 | A and B are converted, in that order, to dot-operand layouts 0 and 1 of the MFMA encoding with kWidth, keeping shape and element type |
| AccelerateMatmul.LowerOperands | third_party/amd/lib/TritonAMDGPUTransforms/AccelerateAMDMatmul.cpp:270-296 | the three new operands are A and B converted into their dot-operand layouts, and the old accumulator operand itself converted to the MFMA layout and cast to the accumulator type (ConvertedCast of it); older nodes are unchanged |
| AccelerateMatmul.BuildMfmaDot | third_party/amd/lib/TritonAMDGPUTransforms/AccelerateAMDMatmul.cpp:270-303 | the new dot has the old dot's attributes over the lowered operands and is typed as the new accumulator; the output is the new dot converted back to the old encoding and cast back to the old element type (ConvertedCast of the new dot), and has exactly the old dot's result type; the only nodes created are the new dot, its three lowered operands, the output and the conversions read by the two casts (CreatedByLowering) |
| AccelerateMatmul.PlanDot | third_party/amd/lib/TritonAMDGPUTransforms/AccelerateAMDMatmul.cpp:252-288 | the checks, in source order, decide exactly PlanFor |
| AccelerateMatmul.BlockedToMfma | third_party/amd/lib/TritonAMDGPUTransforms/AccelerateAMDMatmul.cpp:225-308 | no match exactly when the result is not blocked or MFMA is unsupported; a fatal error exactly when the plan fails; otherwise the dot is gone, the lowered dot (reading the converted old accumulator) is present and not blocked, the output is the new dot converted and cast back and has the old result type, every other use reads the output, no node is created beyond those CreatedByLowering names, and nothing else changes |
| Ir.OneUseIsTheUse | third_party/amd/lib/TritonAMDGPUTransforms/OptimizeEpilogue.cpp:119 | a value with one use has no other use |
| Ir.Graph.constructor | third_party/amd/lib/TritonAMDGPUTransforms/AccelerateAMDMatmul.cpp:225-227 | the graph wraps a valid node map |
| Ir.Graph.Create | third_party/amd/lib/TritonAMDGPUTransforms/OptimizeEpilogue.cpp:129-130 | the new operation gets the next free id and nothing else changes |
| Ir.Graph.SetOperand | third_party/amd/lib/TritonAMDGPUTransforms/OptimizeEpilogue.cpp:135 | only the given operand of the given operation changes |
| Ir.Graph.SetResultType | third_party/amd/lib/TritonAMDGPUTransforms/OptimizeEpilogue.cpp:138-140 | only the first result type of the given operation changes |
| Ir.Graph.ReplaceAllUsesWith | third_party/amd/lib/TritonAMDGPUTransforms/AccelerateAMDMatmul.cpp:305 | every use of the old value reads the new one, so the old value has no uses left |
| Ir.Graph.ReplaceOp | third_party/amd/lib/TritonAMDGPUTransforms/AccelerateAMDMatmul.cpp:305 | uses are redirected and the replaced operation is removed |
| Ir.Graph.Erase | third_party/amd/lib/TritonAMDGPUTransforms/OptimizeEpilogue.cpp:152-153 | an operation without uses is removed and the graph stays valid |
| Epilogue.Atan2PassesAsWritten | third_party/amd/lib/TritonAMDGPUTransforms/OptimizeEpilogue.cpp:40-60 | a two-operand atan2 passes the written allow-list but not the one-operand one |
| Epilogue.Atan2MixesLayoutsAsWritten | third_party/amd/lib/TritonAMDGPUTransforms/OptimizeEpilogue.cpp:44-45 | under the allow-list as written, retyping a two-operand atan2 as the rewiring loop at lines 132-141 does puts its result in the new layout while its second operand keeps its blocked type, so it is not in one layout |
| Epilogue.ChainCons | third_party/amd/lib/TritonAMDGPUTransforms/OptimizeEpilogue.cpp:99-109 | a one-use allow-listed operation in front of the chain from its operand gives a chain from that operation |
| Epilogue.ChainTail | third_party/amd/lib/TritonAMDGPUTransforms/OptimizeEpilogue.cpp:99-109 | the rest of a chain is a chain from what its first operation reads |
| Epilogue.WalkFindsChain | third_party/amd/lib/TritonAMDGPUTransforms/OptimizeEpilogue.cpp:98-113 | whatever the walk returns is a chain from the stored value to a layout conversion |
| Epilogue.WalkFindsEveryChain | third_party/amd/lib/TritonAMDGPUTransforms/OptimizeEpilogue.cpp:98-113 | any chain from the value is the one the walk returns, so the walk fails exactly when there is none |
| Epilogue.ChainDescends | third_party/amd/lib/TritonAMDGPUTransforms/OptimizeEpilogue.cpp:98-109 | along a chain each operation comes after the one it reads and after the conversion |
| Epilogue.WalkStep | third_party/amd/lib/TritonAMDGPUTransforms/OptimizeEpilogue.cpp:100-108 | one turn of the loop: the operation joins the chain of its operand 0, which is an earlier value |
| Epilogue.FindChain | third_party/amd/lib/TritonAMDGPUTransforms/OptimizeEpilogue.cpp:98-113 | the while loop returns exactly the walk |
| Epilogue.Retarget | third_party/amd/lib/TritonAMDGPUTransforms/OptimizeEpilogue.cpp:133-140 | the retargeted operation keeps kind, region and arity, reads the new value as operand 0, and has its first result in the new encoding |
| Epilogue.RewiredFrame | third_party/amd/lib/TritonAMDGPUTransforms/OptimizeEpilogue.cpp:132-141 | the corrected loop changes only operations of the chain |
| Epilogue.RewiredReadsNext | third_party/amd/lib/TritonAMDGPUTransforms/OptimizeEpilogue.cpp:132-141 | after the corrected loop, operation i reads operation i + 1, and the last reads the conversion's source |
| Epilogue.AsWrittenFrame | third_party/amd/lib/TritonAMDGPUTransforms/OptimizeEpilogue.cpp:132-141 | the loop as written changes only operations of the chain |
| Epilogue.AsWrittenReadsPrevious | third_party/amd/lib/TritonAMDGPUTransforms/OptimizeEpilogue.cpp:132-141 | after the loop as written, operation i reads operation i - 1, and the first reads the conversion's source |
| Epilogue.ChainIsRewirable | third_party/amd/lib/TritonAMDGPUTransforms/OptimizeEpilogue.cpp:132-141 | a chain from a tensor has distinct operations, each with an operand and a tensor result |
| Epilogue.MatchStore | third_party/amd/lib/TritonAMDGPUTransforms/OptimizeEpilogue.cpp:85-120 | what the checks find satisfies every condition of the pattern |
| Epilogue.MatchIsComplete | third_party/amd/lib/TritonAMDGPUTransforms/OptimizeEpilogue.cpp:85-120 | every match satisfying all the conditions is the one the checks find |
| Epilogue.OffChain | third_party/amd/lib/TritonAMDGPUTransforms/OptimizeEpilogue.cpp:88-90 | the pointer and the mask of a matched store are neither chain operations nor the conversion |
| Epilogue.AsWrittenBreaksDominance | third_party/amd/lib/TritonAMDGPUTransforms/OptimizeEpilogue.cpp:132-141 | with two or more chain operations, the loop as written makes an operation read a later one, and the store reads the wrong value |
| Epilogue.RewiredChainOp | third_party/amd/lib/TritonAMDGPUTransforms/OptimizeEpilogue.cpp:132-141 | after the corrected loop each chain operation keeps its kind, computes in the new encoding and reads the next operation or the source |
| Epilogue.RewiredKeepsDominance | third_party/amd/lib/TritonAMDGPUTransforms/OptimizeEpilogue.cpp:132-141 | the corrected loop keeps every definition before its uses |
| Epilogue.RewiredBypassesConversion | third_party/amd/lib/TritonAMDGPUTransforms/OptimizeEpilogue.cpp:122-141 | after the corrected loop only the last chain operation's input changes, to the conversion's source; all compute in the new layout; dominance holds |
| Epilogue.RewireChain | third_party/amd/lib/TritonAMDGPUTransforms/OptimizeEpilogue.cpp:132-141 | the loop produces the Rewired graph and returns the value the store must read |
| Epilogue.ConvertAndRewire | third_party/amd/lib/TritonAMDGPUTransforms/OptimizeEpilogue.cpp:122-141 | the pointer is converted at the next id, then the chain is rewired; the store and its mask are untouched |
| Epilogue.StoreThrough | third_party/amd/lib/TritonAMDGPUTransforms/OptimizeEpilogue.cpp:143-153 | the mask (if any) is converted, a store of the same kind through the new pointer, of the new value, under the new mask is created, and the old store is erased |
| Epilogue.MatchedStore | third_party/amd/lib/TritonAMDGPUTransforms/OptimizeEpilogue.cpp:85-130 | a matched store has what the rewrite steps need: a distinct tensor chain, a tensor pointer and an off-chain tensor mask |
| Epilogue.RewriteIsBypassed | third_party/amd/lib/TritonAMDGPUTransforms/OptimizeEpilogue.cpp:122-153 | the rewritten graph: the old store gone, the new operations at their ids, the chain reading the source in the new layout, nothing else changed |
| Epilogue.RewriteSteps | third_party/amd/lib/TritonAMDGPUTransforms/OptimizeEpilogue.cpp:122-154 | the rewrite leaves exactly RewriteResult, with the new store at NewStoreId |
| Epilogue.BypassEpilogueSmem | third_party/amd/lib/TritonAMDGPUTransforms/OptimizeEpilogue.cpp:82-155 | it rewrites exactly when MatchStore finds a match, into RewriteResult; otherwise nothing changes |
| Epilogue.RewriteKeepsClosed | third_party/amd/lib/TritonAMDGPUTransforms/OptimizeEpilogue.cpp:122-153 | after the rewrite every operand is a value of the graph |
| Epilogue.RewriteKeepsDominance | third_party/amd/lib/TritonAMDGPUTransforms/OptimizeEpilogue.cpp:122-153 | after the rewrite every operand is defined before its use |
| Epilogue.RewriteKeepsTyping | third_party/amd/lib/TritonAMDGPUTransforms/OptimizeEpilogue.cpp:122-153 | the rewrite keeps every invariant of a well-typed epilogue graph |
| Epilogue.RewriteKeepsGraph | third_party/amd/lib/TritonAMDGPUTransforms/OptimizeEpilogue.cpp:82-155 | rewriting a matched store leaves a graph satisfying the same invariants |
| Epilogue.MatchedConversion | third_party/amd/lib/TritonAMDGPUTransforms/OptimizeEpilogue.cpp:111-120 | the matched conversion is read only by the chain or the store, and is neither the pointer, the mask nor its own source |
| Epilogue.RewriteSkipsConversion | third_party/amd/lib/TritonAMDGPUTransforms/OptimizeEpilogue.cpp:122-153 | after the rewrite the conversion is unchanged and has no uses |
| Epilogue.RewriteLeavesConversionDead | third_party/amd/lib/TritonAMDGPUTransforms/OptimizeEpilogue.cpp:111-155 | the rewrite of a matched store leaves the old conversion in place, unchanged and unused |
| Epilogue.RewrittenStoreIsFinal | third_party/amd/lib/TritonAMDGPUTransforms/OptimizeEpilogue.cpp:93-96 | the new store's pointer is in a non-blocked layout, so the pattern does not match it |
| Epilogue.RewriteIsFinal | third_party/amd/lib/TritonAMDGPUTransforms/OptimizeEpilogue.cpp:82-155 | after rewriting a matched store the graph is valid and the new store does not match again |
| Epilogue.ChainComputesInOneLayout | third_party/amd/lib/TritonAMDGPUTransforms/OptimizeEpilogue.cpp:40-60 | after the rewrite of a matched store every chain operation computes in the accumulator layout and every operand it reads is in that layout |

## Left out

- Integer widths: shapes, warp counts and tile sizes are unbounded naturals. The source's `int64_t`/`unsigned` arithmetic and the `int` used for `minSize` are not modelled. On realistic tensor shapes they do not overflow.
- The module's warp count, the `supportMFMA` hardware query and the MFMA instruction database (`MfmaInsn::selectMfma`) are parameters. The database is a map from (mDim, nDim, operand types, version) to kDim.
- The fatal errors and failed assertions of `chooseMfmaDimensions` and `matchAndRewrite` become outcome values (`Fatal`), not aborts. In the source the kWidth assertion runs after the accumulator conversion has been created. The model decides it before any node is created, because an abort leaves no graph to observe.
- The assertions of `convertAndCastTensor` (both element types integer or float, the same category) are preconditions. For its two calls they follow from a well-typed dot together with the plan's `AccNotIntOrFloat` outcome: a dot whose result element is neither integer nor float (an index accumulator, say) ends with that fatal outcome before any conversion is created.
- The numeric meaning of casts, of elementwise math and of the dot itself is not modelled. Only operation kinds, operands and types are.
- `getSlice` is modelled as a same-region closure over producers and users. Block arguments (which the backward slice omits) and operations nested in other regions are not modelled.
- A value is the first result of the operation that defines it. Multi-result operations are kept only where the pattern reads result 0. Values without a defining operation (block arguments) are not modelled; in the source, `getDefiningOp` returns null for them.
- A missing layout encoding in the epilogue checks counts as neither blocked nor MMA. The source would dereference a null attribute there.
- Source locations, the MLIR context, cache and eviction attributes (carried in the store's kind), `allowTF32` and `maxNumImpreciseAcc` (carried in the dot's kind) are opaque.
- The pass drivers are not part of this model. This covers the greedy pattern application, pattern benefits, `runOnOperation` and the version check at AccelerateAMDMatmul.cpp:331-334. It also covers removal of the conversion the epilogue rewrite leaves dead; `Epilogue.RewriteLeavesConversionDead` states that it is left unchanged and unused.
- The guarantees of the operation verifiers are preconditions, not proofs: `AccelerateMatmul.WellTypedDot` and `Epilogue.EpilogueGraph`. The epilogue requires definitions to come before uses (operand id below user id). The matmul lowering neither needs nor keeps that order, because the new nodes get fresh ids above their users.
- Epilogue.BypassEpilogueSmem: the method rewires the chain in the corrected order (see Findings), not in the order as written.
- Epilogue.FindChain: the walk admits only allow-listed operations with exactly one operand and one result, so a two-operand `math.atan2` that the source walks through ends the walk with no match (see Findings).
- Epilogue.MatchStore: because of the corrected allow-list, a store whose value is computed by a two-operand `math.atan2` is not matched, where the source matches it (see Findings).
- Epilogue.BypassEpilogueSmem: leaves a store through a two-operand `math.atan2` unchanged, where the source rewrites it and leaves the atan2 reading one operand in each layout (see Findings).

## Findings

| source | as written | input that shows it | evidently intended | confidence | as-written member | corrected member |
|---|---|---|---|---|---|---|
| third_party/amd/lib/TritonAMDGPUTransforms/OptimizeEpilogue.cpp:132-141 | the rewiring loop visits the chain from the store side; each operation reads the value rewired before it, the first the conversion's source | a store of `negf(exp(convert_layout(x)))` with x in an MFMA layout: exp (defined first) is made to read negf, negf reads x, and the store reads exp | visit the chain from the conversion side, so each operation keeps reading its own predecessor, the last reads x, and the store reads the operation next to it | not executed | Epilogue.AsWrittenBreaksDominance | Epilogue.RewiredBypassesConversion |
| third_party/amd/lib/TritonAMDGPUTransforms/OptimizeEpilogue.cpp:40-60 | the one-operand allow-list includes `math::Atan2Op`, which has two operands | a store of `atan2(convert_layout(y), x)` with y in an MFMA layout: the walk accepts atan2, which is then retyped to the MFMA layout while its second operand x stays blocked | admit only operations with exactly one operand and one result | not executed | Epilogue.Atan2MixesLayoutsAsWritten | Epilogue.ChainComputesInOneLayout |
