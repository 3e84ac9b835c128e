# polars-metal: machine-checked models

A Dafny 4.11 model of the host logic of a Metal execution engine for Polars, with proofs. It covers
the fusion compiler and its null handling, the resident join gather, the FFT planner and algorithms,
the composite-key group-by, filter predicates and compaction, tiled top-k search, and three small
stateful pieces (a JSON bracket scanner and two caches). `dafny verify dfyconfig.toml` checks all of it.

## Modules

- **Fusion.** `FusionIr` has expressions, arrays and their meaning on the device; `FusionCompile` and
  `FusionSound` the two-pass lowering and its correctness; `FusionAnalyzer` the same passes as methods
  that mutate one scope and its tables. `FusionNulls` has Polars' meaning over nullable columns;
  `FusionAgreement` and `FusionNullSafety` say where a device that sees NaN for null computes Polars'
  value; `FusionValidity`, `FusionValiditySound` and `FusionMask` treat the second graph, which computes
  the null mask. `FusionAcceptance` characterises what is accepted, `FusionHeads` where a chain has nulls,
  `FusionDispatch` routes and executes one binding, `FusionReduction` one chain reduction, `FusionPlans` the
  null-free confirmation over the plan below. `FusionOperators` writes out what each named operator delivers. `FusionLimits`, `FusionScanLimits`, `FusionShiftReduction` and
  `FusionParameterLimits` (scans, sums with constants and rounding over the concrete arithmetic of
  `FusionReference`) show where the code departs from Polars, and exactly when.
- **Joins.** `DenseKey`, `JoinGather`.
- **FFT.** `ComplexSums`, `FourierSpec` (the naive DFT and its laws), `RadixCodelets`, `StockhamKernel`,
  `FourStep`, `RadixPlanner`, `Bluestein`, `FftDispatch`.
- **Group-by.** `KeyPacking`, `KeyCodec`, `KeyRoundTrip` (values to lanes and back), `FirstSeenOrder`,
  `GroupAggregates`, `GroupAtomics` (racing threads), `GroupAnswers` (folds of each group's values), `GroupRows`
  (the same answers row by row over the column), `GroupBy`.
- **Filters.** `NullBitmap`, `FilterCompaction`, `Comparisons`, `Predicates`.
- **Search and state.** `TiledSearch`, `BracketScanner`, `CaptureCache`, `PipelineCache`.
- **Shared.** `Options`, `IndexArith`, `BitArith`.

## What is assumed

- Arithmetic is exact. FFTs work over complex numbers with real parts and any family of roots of unity with
  the relations of `FourierSpec.UnitRoots`; the decimal constants of the codelets are the numbers they round.
  Fused operators are an arbitrary family of functions subject to the laws in `FusionNulls.Lawful` (strict
  operators propagate NaN, comparisons are IEEE comparisons, multiplication of flags and running sums with
  zero are exact, and the two engines' elementary functions coincide). Float group sums are sums of extended
  reals.
- A cell is NaN or a number, so infinities and signed zeros are not told apart in fused expressions. In filter
  predicates floats are their 64-bit patterns.
- What the fused dispatch returns is stated for every accepted input (`FusionDispatch.Delivered`,
  `FusionReduction.DeviceAnswer`). That it is Polars' answer is stated under `Dependable` and `Reducible`. Each
  condition in them has lemmas that show it is needed and where the boundary lies: no comparison meets a NaN that
  is a value rather than a null (`ComparisonsAgreeExactly`, `ComparedColumnExactly`); parameters the lowering drops have the
  values it assumes (`RoundedExactly`, `LogExactly`), scan nodes having one input, as in Polars' IR; every `when`
  condition outside other conditions is a NaN-false comparison of NaN-propagating operands, or has no nulls at all
  (`ComparisonDecidesExactly` for any two operands, with families of expressions); no scan runs over a shift except
  a running sum over shifts and their multiples by literals (`ScanOverHeadExactly` for any argument with a filled
  head, `ScanOfShiftExactly` and `ScanOfShiftedPlusExactly` for expressions); and a masked binding reads a column
  (`ScalarMaskDelivers`).
- GPU kernels are one thread per row with atomic steps in any order, the schedule being an argument that is
  quantified over. A compare-and-swap may fail for no reason. Reductions within a simdgroup may take any order, and
  the shader's `min` and `max` of a number and a NaN are the number. A partition puts the positions of some k smallest
  values first, in any order. The library sort is a sorted permutation.
- Inner joins list rows in left order.

## Where the code and its promises part

- The validity rule in force for `when` is the code at `_fusion_analyzer.py:1340-1350`: the mask is that of the
  branch taken, with no factor for the condition's own validity. The docstring at line 1026 says otherwise;
  the model follows the code, and `FusionMask.MaskAgrees` proves that rule right.
- `_is_nan_safe_predicate` looks only at the top operator of a condition. Shifts and cast comparisons below it
  are admitted and can be decided wrongly (`ShiftedConditionExactly`, `CastConditionExactly`; for any two
  operands `ComparisonDecidesExactly`).
- Scans over a shift of a null-free column, with or without a constant added, are admitted and masked, and the
  device scans what fills the head. A running sum over the bare shift is right, and `w*k` ahead over `shift(w) + k`.
  A running product is wrong unless the first value is zero or the filling has product one, a running maximum or
  minimum unless the first value is on its side of zero (`ScanOfShiftExactly`, `ScanOfShiftedPlusExactly`, inputs in
  `ScanOfShiftInputs`).
- A reduction over a shift of null-free columns is sent to the device without regard for the shift's nulls. The sum
  of the bare shift is right; means, extremes, variances and deviations exactly under `HarmlessHead`
  (`ShiftReductionExactly`). With a constant added the sum is ahead by one constant for every row emptied, and the
  others are right exactly when they were (`ShiftedPlusReductionExactly`).
- `round` with decimals is admitted and rounds to whole numbers: right exactly if every value is within half a unit
  of the last decimal of one (`RoundedExactly`, input in `RoundedInput`). A logarithm's base within a billionth of
  `e` is taken for it (`LogExactly`).
- A binding without a mask is right exactly when the chain has no shift and reads no null (`UnmaskedExactly`).
  The resident gather never builds a mask, so a shift, or a null in a column it carries, makes it wrong
  (`ResidentExactly`, with `ShiftedGatherIsWrong` and the input of `ShiftedGatherInput`).
- The null-free confirmation asks the scan about columns by name. It is right when no node above rebinds a
  column it was asked about, and in general exactly when every rebinding is unshifted over clean columns
  (`ConfirmedIsNullFree`, `ConfirmationExactly`); a column recomputed as its own shift is the failing case
  (`ShadowedColumn`).
- The mask of a binding that reads no column, such as a shifted literal, is written to one cell of an uninitialised
  buffer: right for every buffer exactly if there is at most one row (`ScalarMaskDelivers`, `ShiftedLiteralExactly`).
- The filter kernels compare floats as IEEE 754 does, and their comments call that Polars' order. Polars puts NaN
  above every number and equal to itself, as `test_filter_comparison.py:87-100` says; the two orders agree exactly
  outside the cases of `OrdersMeet` (`OrdersMeetExactly`, `ComparisonRowsExactly`), and on the kernel `x > 0` drops a
  NaN that Polars keeps (`NanIsDropped`), and the same test notes that the cost model now sends such filters to the CPU.
- Integer group means divide a wrapped sum (`MeanExactly`, `Mean32Exactly`, input in `OverflowingMean`).
- Group extremes of Float32 ignore NaN where those of Float64 are poisoned by it, so the two agree exactly on groups
  without one (`WidthsAgreeExactly`).
- The shader library promises to build each entry point at most once. It does exactly when no two calls that
  build are in flight together (`BuiltOnceExactly`, `SettledOnceExactly`), so in particular when calls for it do
  not overlap (`SequentialCallsBuildOnce`); two threads can both build it (`BuiltTwice`), though they still
  return one object.
- The capture cache's evictor removes whatever is at its key: a live captured frame is found exactly when no
  callback at its address has run since its capture (`FoundExactly`). `LateCallback` shows a run in which one
  does. CPython calls a weak reference's callback before the referent's memory is released, so the program does
  not meet that run today; what a lookup returns is right even without that (`LookupIsOwn`).

## Model

| member | source | states |
|---|---|---|
| `FusionAnalyzer.AnalyzeIr` | python/polars_metal/_fusion_analyzer.py:564-621 | the graph is the one the two passes define, has all inputs first and each op after its arguments, and on every staged input evaluates to the meaning of the expression |
| `FusionOperators.OperatorDelivers` | python/polars_metal/_fusion_analyzer.py:27-42 | every named operator over two null-free columns is accepted and runs unmasked, and row i of what is delivered, as of Polars' column, is x[i] + y[i], x[i] - y[i], x[i] / y[i] where y[i] is not zero, 1.0 or 0.0 as x[i] < y[i], and so on, name by name |
| `FusionOperators.NanOnTop` | python/polars_metal/_fusion_analyzer.py:34-39 | in Polars the six comparisons follow the order with NaN equal to itself and above every number, written out cell by cell; on the device only `!=` holds of a NaN |
| `FusionOperators.KleeneTable` | python/polars_metal/_fusion_analyzer.py:40-41 | `And` and `Or` over nullable truth values are Kleene's tables |
| `FusionOperators.LiteralDelivers` | python/polars_metal/_fusion_analyzer.py:1448-1463 | a literal is its number, true and false are 1.0 and 0.0, to both engines |
| `FusionSound.CompileSound` | python/polars_metal/_fusion_analyzer.py:564-694 | two-pass compilation, with or without a gather context, never misses a leaf index in pass 2 and preserves meaning although equal columns and literals share a slot |
| `FusionSound.GatherSound` | python/polars_metal/_fusion_analyzer.py:1366-1621 | pass 1 keeps every table entry pointing at its own slot and, when it succeeds, has recorded every leaf pass 2 will look up |
| `FusionSound.VisitSound` | python/polars_metal/_fusion_analyzer.py:1623-1735 | pass 2 on a covered tree never raises a key error and returns a slot that evaluates to the tree, leaving earlier slots in place |
| `FusionSound.RunnableIsLaidOut` | crates/polars-metal-core/src/fusion/subgraph.rs:391-400 | a graph whose every op finds its arguments among the handles built so far refers only to earlier nodes |
| `FusionAnalyzer.Analyzer.PushOp` | crates/polars-metal-core/src/fusion/scope.rs:78-95 | the new node's index counts all inputs and the ops before it |
| `FusionAnalyzer.Analyzer.GatherLeaves` | python/polars_metal/_fusion_analyzer.py:1366-1621 | the mutating walk leaves exactly the state the value-level pass defines, and aborts exactly when it does |
| `FusionAnalyzer.Analyzer.VisitOps` | python/polars_metal/_fusion_analyzer.py:1623-1735 | the mutating walk changes only the op list, leaves the state pass 2 defines, and every lookup in it succeeds |
| `FusionAcceptance.AcceptsExactly` | python/polars_metal/_fusion_analyzer.py:564-621 | the analyzer accepts an expression if and only if it is built from supported nodes over stageable columns |
| `FusionAcceptance.AcceptedReads` | python/polars_metal/_fusion_analyzer.py:1411-1460 | the staged columns of an accepted expression are exactly those it reads |
| `FusionAcceptance.ValidityAcceptsExactly` | python/polars_metal/_fusion_analyzer.py:1006-1079 | for an accepted expression a validity graph is constructible if and only if no Kleene operator, and on nullable input no scan, lies outside conditions |
| `FusionAcceptance.SplicesExactly` | python/polars_metal/_fusion_analyzer.py:624-694 | with a gather context an otherwise supported expression is accepted if and only if it reads a gathered column |
| `FusionValiditySound.ValidityGraphSound` | python/polars_metal/_fusion_analyzer.py:1006-1079 | the validity graph is well laid out, its second pass misses no leaf, and it evaluates to the 1.0/0.0 mask of the expression on every nullable frame |
| `FusionValiditySound.VisitValiditySound` | python/polars_metal/_fusion_analyzer.py:1267-1351 | every node of the mask pass yields a slot holding its mask: products for elementwise ops, shifted masks, and branch masks chosen by the value graph's condition |
| `FusionValiditySound.AndSound` | python/polars_metal/_fusion_analyzer.py:1354-1363 | multiplying the operand masks while skipping the constant 1.0 is their conjunction |
| `FusionMask.MaskAgrees` | python/polars_metal/_fusion_analyzer.py:908-983 | for every safe expression and nullable frame the mask is true exactly at the rows Polars makes non-null, shift heads and null conditions included |
| `FusionNullSafety.SafeAgrees` | python/polars_metal/_fusion_analyzer.py:880-990 | wherever Polars gives a safe expression a value, the device, which saw NaN for null, has computed that value |
| `FusionNullSafety.CarriesAgrees` | python/polars_metal/_fusion_analyzer.py:992-1003 | operands built from NaN-propagating operators hold NaN on the device at every null |
| `FusionNullSafety.DecidesAgrees` | python/polars_metal/_fusion_analyzer.py:992-1003 | a NaN-false comparison of such operands takes the branch Polars takes, a null condition being false |
| `FusionNullSafety.ExactAgrees` | python/polars_metal/_walker.py:709-722 | on null-free columns a shift-free expression has Polars' values everywhere, Kleene operators and scans included |
| `FusionNullSafety.ZeroAgrees` | python/polars_metal/_fusion_analyzer.py:428-450 | a shift of null-free input holds zero at exactly the rows where Polars has null, under repeated shifts too |
| `FusionAgreement.ZeroSumRel` | python/polars_metal/_walker.py:723-742 | a running sum over zero-filled heads agrees with Polars' null-skipping running sum at every non-null row |
| `FusionDispatch.ElementwiseValidity` | python/polars_metal/_udf.py:516-521 | in elementwise mode a row is non-null exactly when every column read is |
| `FusionHeads.NullsAreTheHead` | python/polars_metal/_fusion_analyzer.py:428-475 | over null-free columns a chain without conditions or Kleene operators is null exactly at the rows below its largest cumulative shift, scans included |
| `FusionHeads.NullFreeExactly` | python/polars_metal/_fusion_analyzer.py:428-475 | such a chain over any columns has no null if and only if there are no rows, or it has no positive shift and reads no null |
| `FusionDispatch.TrustedIsSafe` | python/polars_metal/_walker.py:709-765 | what the router accepts, under the stated side condition on conditions and scans, is safe |
| `FusionDispatch.OrMasks` | python/polars_metal/_udf.py:516-521 | ORing the staged columns' null masks marks exactly the rows at which some staged column is null |
| `FusionDispatch.FusedColumn` | python/polars_metal/_udf.py:383-490 | delivers exactly when accepted and not routed to the CPU, always the device's values under the route's mask, and Polars' column, nulls included, whenever the binding is dependable |
| `FusionDispatch.DeliveredIsPolars` | python/polars_metal/_walker.py:709-765 | for every dependable binding and every route, device values under the route's mask are Polars' column |
| `FusionDispatch.UnmaskedExactly` | python/polars_metal/_walker.py:720-722 | a chain without conditions or Kleene operators, run without a mask, is right if and only if there are no rows, or it has no positive shift and every column it reads is null-free |
| `FusionLimits.ComparisonDecidesExactly` | python/polars_metal/_fusion_analyzer.py:992-1003 | a comparison of any two operands is decided as in Polars if and only if it is false on the device at every row where either operand is null |
| `FusionLimits.ShiftedConditionExactly` | python/polars_metal/_fusion_analyzer.py:992-1003 | an admitted condition comparing a shifted column is decided right if and only if zero does not satisfy it (or there is no head) |
| `FusionLimits.CastConditionExactly` | python/polars_metal/_fusion_analyzer.py:992-1003 | an admitted condition comparing a cast comparison is decided right if and only if the column has no null or the number standing for null does not satisfy it |
| `FusionLimits.ComparisonsAgreeExactly` | python/polars_metal/_fusion_analyzer.py:1267-1351 | IEEE comparison and Polars' total order give one verdict exactly outside the listed NaN cases |
| `FusionLimits.ComparedColumnExactly` | python/polars_metal/_fusion_analyzer.py:564-621 | a comparison of a null-free column with a literal is accepted and runs unmasked, and is Polars' column if and only if no row is one of those cases |
| `FusionLimits.ScalarMaskExactly` | python/polars_metal/_udf.py:537-545 | a mask graph over no column decides every row, whatever the buffer held, if and only if there is at most one row |
| `FusionLimits.ReadingNothingIsScalar` | python/polars_metal/_udf.py:537-545 | the value and the mask of every supported expression that reads no column are one cell |
| `FusionLimits.ScalarMaskDelivers` | python/polars_metal/_udf.py:537-545 | whatever reads no column and is routed to a validity mask is delivered as Polars' column for every buffer if and only if there is at most one row |
| `FusionLimits.ShiftedLiteralExactly` | python/polars_metal/_walker.py:723-742 | a shifted literal is accepted and so routed, whatever is confirmed, with the same condition |
| `FusionPlans.ConfirmedIsNullFree` | python/polars_metal/_walker.py:934-966 | for every plan of scans, row-rearranging nodes and column bindings, confirmed columns that no binding above the scan rebinds are null-free in the plan's output, whatever is bound to other names |
| `FusionPlans.RebindsExactly` | python/polars_metal/_walker.py:934-966 | the columns rebound above a scan are those some binding on the way down to it names |
| `FusionPlans.CleanExactly` | python/polars_metal/_walker.py:934-966 | where nodes keep all rows, a column of the output is null-free if and only if it is clean: a null-free scan column, or bound to an unshifted chain over clean columns |
| `FusionPlans.ConfirmationExactly` | python/polars_metal/_walker.py:945-966 | the confirmation is right if every column asked about is clean, and where nodes keep all rows only then |
| `FusionPlans.ShadowedColumn` | python/polars_metal/_walker.py:945-966 | for every null-free column rebound to its own shift the confirmation is given, the binding goes unmasked and NaN stands where Polars has null |
| `FusionScanLimits.ScanOfShiftedPlusExactly` | python/polars_metal/_walker.py:723-742 | every scan over a shift by w plus k of a null-free column is accepted and masked; the column delivered is Polars', for every buffer, if and only if w is zero, no row is present, or the constants filling the head are harmless to that scan |
| `FusionScanLimits.ScanOfShiftExactly` | python/polars_metal/_walker.py:723-742 | the same over the bare shift: sums always, products if the first value is zero, extremes if it is on their side of zero |
| `FusionScanLimits.ScanOverHeadExactly` | python/polars_metal/_fusion_analyzer.py:1267-1351 | a scan over any argument with a filled head agrees with Polars at every present row if and only if what the head comes to leaves the first value unchanged |
| `FusionScanLimits.ScanOfShiftInputs` | python/polars_metal/_walker.py:723-742 | two-row inputs on which product, minimum and maximum fail |
| `FusionParameterLimits.RoundedExactly` | python/polars_metal/_fusion_analyzer.py:1702-1716 | for every null-free column and number of decimals, rounding is accepted and runs unmasked, and is Polars' if and only if there are no decimals or every value is within half a unit of the last one of a whole number |
| `FusionParameterLimits.RoundsAlike` | crates/polars-metal-core/src/fusion/subgraph.rs:483 | rounding to decimals and to a whole number give one result exactly then, ties to even |
| `FusionParameterLimits.RoundedInput` | python/polars_metal/_fusion_analyzer.py:1702-1716 | 1.25 rounded to one decimal |
| `FusionParameterLimits.LogExactly` | python/polars_metal/_fusion_analyzer.py:1738-1764 | a base within the tolerance of e is accepted and runs unmasked, and is right if and only if it is the device's base or every value has a logarithm that no base changes |
| `FusionScanLimits.DeviceIsAhead` | python/polars_metal/_walker.py:723-742 | after the head the device's running sum exceeds Polars' by w times k |
| `FusionReduction.DropNullsKeepsNumbers` | python/polars_metal/_walker.py:510-535 | dropping rows with a null input leaves exactly the values a null-skipping reduction of the elementwise chain sees, in order |
| `FusionReduction.FinishIsPolars` | python/polars_metal/_udf.py:883-945 | empty and one-row answers and the n/(n-1) corrections turn the device's population moments into Polars' sample moments |
| `FusionReduction.ReduceChain` | python/polars_metal/_udf.py:828-960 | runs on the device exactly when accepted and routed there, always returns the device's answer over the staged rows, and Polars' scalar whenever the chain is reducible |
| `FusionReduction.DeviceAnswerIsPolars` | python/polars_metal/_walker.py:510-535 | for every reducible chain and both routes the device's answer, corrected, is Polars' null-skipping reduction |
| `FusionShiftReduction.ShiftReductionExactly` | python/polars_metal/_walker.py:510-535 | a reduction of a shifted null-free column is accepted and routed to the device with no rows dropped; for every column, offset and operator it is right if and only if the zero-filled head is harmless: always for sums, zero surviving total for means, a surviving value on the right side of zero for extremes, and a balance of squares for variance and deviation |
| `FusionShiftReduction.ShiftedPlusReductionExactly` | python/polars_metal/_walker.py:510-535 | a reduction of a shift plus a constant is accepted and routed likewise; a sum is right if and only if the constant, the shift or the row count is zero, every other operator exactly when it is without the constant |
| `DenseKey.IsDenseKey` | python/polars_metal/_join_gather.py:44-53 | the density test accepts exactly the permutations of 0..n-1 |
| `DenseKey.Pigeonhole` | python/polars_metal/_join_gather.py:44-53 | n keys below n are distinct if and only if they leave no gap |
| `DenseKey.ReorderByKey` | python/polars_metal/_join_gather.py:56-61 | after the scatter the value at each key's position is the value that key had |
| `DenseKey.DensePositions` | python/polars_metal/_join_gather.py:16-41 | succeeds exactly on dense keys with as many values, and then inverts the key |
| `JoinGather.DenseJoin` | python/polars_metal/_udf.py:195-232 | on a dense key with all keys in range every left row joins exactly one right row, in a left and in an inner join |
| `JoinGather.PairedExactly` | python/polars_metal/_udf.py:175-192 | two rows are joined if and only if both carry the same key that is not null, however often it occurs |
| `JoinGather.AloneExactly` | python/polars_metal/_udf.py:175-192 | a left row stands alone if and only if the join is a left join and its key is null or on no right row |
| `JoinGather.PairsInOrder` | python/polars_metal/_udf.py:175-192 | joined rows come in left order, then in right order, none twice |
| `JoinGather.JoinedRow` | python/polars_metal/_udf.py:175-192 | a joined row holds its left row's key and cells and its right row's cells, null where there is none |
| `JoinGather.TakeIsJoin` | python/polars_metal/_udf.py:218-250 | the gathered column equals the joined column |
| `JoinGather.SameColumnsSameValue` | python/polars_metal/_fusion_analyzer.py:624-694 | splicing a gather for a column leaves the meaning of the chain alone when the gathered column equals the joined one |
| `JoinGather.AttachesExactly` | python/polars_metal/_walker.py:797-845 | a gather scope is attached if and only if the chain is supported, reads only known columns, not the key, and some column of the right side |
| `JoinGather.ResidentExactly` | python/polars_metal/_udf.py:195-278 | the resident frame is the join followed by the chain if the chain has no shift and what it carries has no null, and for chains without conditions or Kleene operators only then |
| `JoinGather.ShiftedGatherIsWrong` | python/polars_metal/_udf.py:195-278 | for every pair of tables that passes the guards and every positive shift of a gathered column, the scope is attached and the frame is wrong |
| `JoinGather.ShiftedGatherInput` | python/polars_metal/_udf.py:195-278 | one left row, one right row and a shift by one make it so |
| `JoinGather.TryResidentGather` | python/polars_metal/_udf.py:195-278 | delivers exactly when its guards pass; for chains with the parameters the lowering assumes the frame is the join followed by the chain under the same condition, exact for chains without conditions or Kleene operators |
| `JoinGather.DispatchJoin` | python/polars_metal/_udf.py:175-192 | delivers exactly when the chain is accepted and routed; on the CPU-join branch the frame is the join followed by the chain for every dependable chain, on the resident branch exactly under the condition above |
| `FourierSpec.Decimation` | crates/polars-metal-kernels/src/fft.rs:617-639 | a transform of length r*p splits into p-point transforms of strided inputs combined with twiddles |
| `FourierSpec.Inversion` | crates/polars-metal-kernels/src/fft.rs:917-934 | the conjugate transform of the spectrum is n times the input, for every primitive root |
| `FourierSpec.ConvolutionTheorem` | crates/polars-metal-kernels/src/fft.rs:480-507 | the spectrum of a circular convolution is the product of the spectra |
| `RadixCodelets.DispatchIsDft` | shaders/fft.metal:409-420 | for every radix from 2 to 8 the codelet called computes the transform of that length at every frequency |
| `RadixCodelets.Radix3Correct` | shaders/_fft_radix.metal:31-44 | the radix-3 butterfly is the 3-point transform |
| `RadixCodelets.Radix4Correct` | shaders/_fft_radix.metal:46-57 | the radix-4 butterfly is the 4-point transform |
| `RadixCodelets.Radix5Correct` | shaders/_fft_radix.metal:59-84 | the radix-5 butterfly with its three constants is the 5-point transform |
| `RadixCodelets.Radix6Correct` | shaders/_fft_radix.metal:86-110 | the radix-6 butterfly is the 6-point transform |
| `RadixCodelets.Radix7Correct` | shaders/_fft_radix.metal:112-139 | Rader's permutations, spectral constants and two radix-6 passes are the 7-point transform |
| `RadixCodelets.RaderSum` | shaders/_fft_radix.metal:112-139 | the nonzero frequencies are a circular convolution along the powers of 3 modulo 7 |
| `RadixCodelets.Radix8Correct` | shaders/_fft_radix.metal:141-160 | two radix-4 butterflies and the diagonal twiddles are the 8-point transform |
| `StockhamKernel.StageAdvances` | shaders/fft.metal:423-500 | one self-sorting stage turns p-point sub-transforms into r*p-point ones in every slot |
| `StockhamKernel.Stage` | shaders/fft.metal:434-500 | every butterfly of a stage writes its own r slots, together all of them |
| `StockhamKernel.StockhamStages` | shaders/fft.metal:434-500 | for every list of radices from 2 to 8 whose product is n the ping-ponged stages, each through its codelet, leave the naive DFT |
| `StockhamKernel.StockhamPow2` | shaders/fft.metal:25-78 | the power-of-two kernel leaves the naive DFT |
| `FourStep.FourStepLevel` | crates/polars-metal-kernels/src/fft.rs:617-714 | column transforms, twiddles, row transforms and transpose compose to the transform of every packed signal |
| `FourStep.ColumnPass` | shaders/fft.metal:99-120 | every column of every packed signal is transformed in place and nothing else changes |
| `FourStep.TwiddlePass` | shaders/fft.metal:122-140 | element (i, j) of every block is multiplied by the i*j-th power of the root |
| `FourStep.TransposePass` | shaders/fft.metal:142-161 | every block is transposed through the scratch buffer |
| `FourStep.BasePass` | shaders/fft.metal:81-97 | every packed signal of base length is replaced by its transform |
| `FourStep.FftPass` | crates/polars-metal-kernels/src/fft.rs:641-714 | for every power-of-two length and batch the recursion leaves each packed signal equal to its naive DFT, with batch*len constant and the depth guard never firing |
| `FourStep.LevelsWithinGuard` | crates/polars-metal-kernels/src/fft.rs:641-653 | up to 2^30 points the recursion depth stays within the guard |
| `RadixPlanner.Factorize` | crates/polars-metal-kernels/src/fft.rs:36-56 | for n >= 2 a plan is found if and only if no prime above 7 divides n, and then its radices lie in 2..8 and multiply to n |
| `Bluestein.NextPow2` | crates/polars-metal-kernels/src/fft.rs:374-379 | the least power of two not below its argument |
| `Bluestein.BluesteinCorrect` | crates/polars-metal-kernels/src/fft.rs:448-507 | chirp modulation, circular convolution of length M >= 2n-1 with the wrapped filter, and demodulation give the naive DFT |
| `FourierSpec.ConvolveBySpectra` | crates/polars-metal-kernels/src/fft.rs:480-507 | for every primitive root, transforming, multiplying and transforming back is circular convolution |
| `FftDispatch.ChirpZ` | crates/polars-metal-kernels/src/fft.rs:448-507 | the host loops fill chirp and wrapped filter without collision and return the naive DFT for every n >= 2 |
| `FftDispatch.BluesteinDispatch` | crates/polars-metal-kernels/src/fft.rs:388-430 | forward and inverse through Bluestein equal the reference, or are refused exactly when M exceeds 2^30 |
| `FftDispatch.InverseByConjugation` | crates/polars-metal-kernels/src/fft.rs:381-430 | conjugate, transform, conjugate and scale is the inverse reference |
| `FftDispatch.RoundTrip` | crates/polars-metal-kernels/src/fft.rs:917-934 | the inverse of the forward transform is the input |
| `FftDispatch.FourStepTransform` | crates/polars-metal-kernels/src/fft.rs:535-595 | the four-step driver equals the reference in both directions |
| `FftDispatch.FftGpu` | crates/polars-metal-kernels/src/fft.rs:67-200 | every supported size in either direction gives the reference transform, and exactly the unsupported sizes are refused |
| `KeyPacking.LanesEqual` | crates/polars-metal-kernels/src/groupby.rs:155-302 | two 128-bit lanes are equal if and only if the rows carry the same key in every column, null equal to null |
| `KeyPacking.LaneBits` | crates/polars-metal-kernels/src/groupby.rs:1885-1895 | the null flag and the payload of every field can be read back at its offsets |
| `KeyCodec.EncodeKeys` | crates/polars-metal-kernels/src/groupby.rs:155-302 | succeeds or reports the first failing condition exactly as laid down, and a success holds every row's packed lane within 128 bits |
| `KeyCodec.NoLayoutError` | crates/polars-metal-kernels/src/groupby.rs:169-221 | laying out fails if and only if a dictionary is missing, a buffer is short, or the fields exceed 128 bits |
| `KeyCodec.DecodeKeys` | crates/polars-metal-kernels/src/groupby.rs:1833-1981 | every column gets one value and one flag per lane, each read from its own field; that these are the values packed is `DecodeOfEncode` and the lemmas of `KeyRoundTrip` |
| `KeyCodec.DecodeOfEncode` | crates/polars-metal-kernels/src/groupby.rs:1833-1981 | decoding a packed lane returns every value and null flag |
| `KeyRoundTrip.PayloadWidth` | crates/polars-metal-kernels/src/groupby.rs:155-302 | payloads have one bit for Booleans, and 8, 16, 32 or 64 by dtype |
| `KeyRoundTrip.IntegerReturns` | crates/polars-metal-kernels/src/groupby.rs:1833-1981 | if a valid row holds the bytes of v, byte j being v / 2^(8j) modulo 256, the key decoded from its lane is v, for every signed and unsigned width |
| `KeyRoundTrip.FloatReturns` | crates/polars-metal-kernels/src/groupby.rs:1833-1981 | the bits of a float come back as they went in |
| `KeyRoundTrip.StringReturns` | crates/polars-metal-kernels/src/groupby.rs:1833-1981 | a dictionary code comes back as its string |
| `KeyRoundTrip.BooleanReturns` | crates/polars-metal-kernels/src/groupby.rs:1833-1981 | a set data bit comes back as true and a clear one as false |
| `KeyRoundTrip.NullReturns` | crates/polars-metal-kernels/src/groupby.rs:1833-1981 | the flag comes back set if and only if the row's validity bit is, and a null's place holds zero, false or the empty string |
| `FirstSeenOrder.CpuHashmapBuild` | crates/polars-metal-kernels/src/groupby.rs:497-520 | groups are numbered by first appearance and each row's group is the one whose first row carries its key |
| `FirstSeenOrder.FirstRowsDistinct` | crates/polars-metal-kernels/src/groupby.rs:497-520 | two groups' first rows carry different keys |
| `FirstSeenOrder.BuildDictNullable` | crates/polars-metal-buffer/src/dict.rs:42-68 | the dictionary lists the distinct strings in first-seen order, every valid code leads to its string, and null rows have code zero and no flag |
| `FirstSeenOrder.BuildDict` | crates/polars-metal-buffer/src/dict.rs:18-34 | decoding the codes gives the strings back |
| `GroupAggregates.RunPlan` | crates/polars-metal-kernels/src/groupby.rs:1329-1635 | for every split into chunks and every merge tree, fold and reduce give each group the sequential fold of its values |
| `GroupAggregates.FoldChunk` | crates/polars-metal-kernels/src/groupby.rs:1340-1353 | one chunk's local vector holds every group's fold over the chunk |
| `GroupAggregates.SumIsWrapped` | crates/polars-metal-kernels/src/groupby.rs:1329-1366 | the wrapping sum is the true sum wrapped once |
| `GroupAggregates.MinIsLeast` | crates/polars-metal-kernels/src/groupby.rs:1370-1416 | the flag is set exactly when the group has a value, and the slot is then its minimum |
| `GroupAggregates.MaxIsGreatest` | crates/polars-metal-kernels/src/groupby.rs:1420-1464 | likewise the maximum |
| `GroupAggregates.MinFIsLeast` | crates/polars-metal-kernels/src/groupby.rs:1471-1520 | one NaN makes the group NaN, otherwise the slot is its minimum |
| `GroupAggregates.MaxFIsGreatest` | crates/polars-metal-kernels/src/groupby.rs:1526-1575 | likewise the maximum |
| `GroupAggregates.SumFIsSummed` | crates/polars-metal-kernels/src/groupby.rs:1285-1325 | a float sum is NaN if the group holds one or both infinities, else an infinity it holds, else the exact total |
| `GroupAggregates.MeanExactly` | crates/polars-metal-kernels/src/groupby.rs:1659-1670 | the integer mean is the true mean if and only if the sum does not overflow 64 bits |
| `GroupAggregates.OverflowingMean` | crates/polars-metal-kernels/src/groupby.rs:1659-1670 | the group of the largest integer and one gets a negative mean |
| `GroupAtomics.StepConsistent` | shaders/aggregate.metal:70-93 | every atomic step of every thread, stale or failing swaps included, keeps each slot the fold of the rows done |
| `GroupAtomics.LaunchAtomics` | shaders/aggregate.metal:36-299 | for every schedule of the threads the slots end as the sequential folds, for fetched operations and for compare-and-swap loops |
| `GroupAtomics.PreReduce` | shaders/aggregate.metal:123-187 | strided threads, simdgroups, threadgroups and racing totals together give the sequential folds, for every schedule |
| `GroupAtomics.PartsTogether` | shaders/aggregate.metal:137-149 | the threads' partial slots together hold every row once |
| `GroupAtomics.DispatchAggF32` | crates/polars-metal-kernels/src/groupby.rs:946-1063 | whichever kernel the number of groups selects, the slots are the sequential folds |
| `GroupAtomics.SumIsWrapped32` | shaders/aggregate.metal:36-48 | the 32-bit sum is the true sum wrapped once |
| `GroupAtomics.MinIgnoresNaN` | shaders/aggregate.metal:250-273 | the slot is the least value that is a number, or infinity if there is none |
| `GroupAtomics.MaxIgnoresNaN` | shaders/aggregate.metal:276-299 | likewise the greatest |
| `GroupAtomics.WidthsAgreeExactly` | crates/polars-metal-kernels/src/groupby.rs:1471-1575 | Float32 and Float64 extremes agree if and only if the group has no NaN |
| `GroupAtomics.Mean32Exactly` | crates/polars-metal-kernels/src/groupby.rs:1687-1701 | the 32-bit integer mean is the true mean if and only if the sum fits 32 bits |
| `GroupBy.RunOneAgg` | crates/polars-metal-kernels/src/groupby.rs:2189-2483 | succeeds exactly when column and aggregation have one type and, for 32-bit kinds, the rows and their bitmap fit; each group's answer is then, over the column itself, the wrapped sum, least or greatest value, mean times count equal to that sum, NaN and infinity rules for floats, or the number of its rows (with the validity bit set, or all of them), whatever the folds' plans and the threads' schedules |
| `GroupRows.AnswersByRow` | crates/polars-metal-kernels/src/groupby.rs:2189-2483 | for every aggregation, folds over a group's values are the answers read row by row off the column |
| `GroupRows.ValuesAreRows` | crates/polars-metal-kernels/src/groupby.rs:1340-1353 | the values a group's fold sees are those of its rows with the validity bit set, one for each |
| `GroupBy.LaneGroups` | crates/polars-metal-kernels/src/groupby.rs:497-520 | grouping lanes is grouping key tuples |
| `GroupBy.DictionaryColumn` | crates/polars-metal-buffer/src/dict.rs:42-74 | a string column packed by its dictionary codes is grouped and decoded by its strings |
| `GroupBy.DispatchGroupBy` | crates/polars-metal-kernels/src/groupby.rs:2059-2151 | succeeds exactly when columns are of one height, keys pack and every aggregation runs; one group per distinct key tuple in first-seen order, decoded keys equal to that tuple, and every aggregate answers row by row over exactly the rows carrying it; on no rows, empty outputs of the right types |
| `NullBitmap.SetValid` | crates/polars-metal-buffer/src/null_bitmap.rs:27-37 | one row's bit takes the given value and no other bit changes |
| `NullBitmap.ValidBit` | shaders/_validity.metal:20-22 | the bit read for a row is bit row % 8 of byte row / 8, and clear past the end |
| `NullBitmap.BytesNeeded` | crates/polars-metal-buffer/src/null_bitmap.rs:7-10 | a bitmap has as many bytes as its rows need, and no more |
| `NullBitmap.CountValid` | crates/polars-metal-buffer/src/null_bitmap.rs:46-57 | the population count equals the number of valid rows, truncated bitmaps included |
| `FilterCompaction.ComputeKeepAndPrefix` | crates/polars-metal-kernels/src/pipeline.rs:103-130 | flags are one exactly where the predicate is true and valid, the prefix counts kept rows inclusively, and the last one is the survivor count |
| `FilterCompaction.TargetOwner` | shaders/filter_scatter.metal:52-81 | kept rows map one to one onto the output slots |
| `FilterCompaction.ScatteredStep` | shaders/filter_scatter.metal:52-81 | every atomic step of any thread keeps each slot and bit its owner's |
| `FilterCompaction.SentinelStep` | shaders/filter_scatter.metal:69-75 | the slot past the end changes exactly when a thread with an out-of-range target has run |
| `FilterCompaction.Launch` | shaders/filter_scatter.metal:52-81 | every complete interleaving of the threads ends with the survivors in place |
| `FilterCompaction.DispatchScatter` | crates/polars-metal-kernels/src/filter.rs:233-379 | an overrun is reported if and only if a kept row's target lies past the end, never for a true prefix sum, and then the output is the survivors with their validity |
| `FilterCompaction.Compact` | crates/polars-metal-kernels/src/pipeline.rs:139-175 | the compacted column is exactly the kept rows in source order with their validity bits |
| `FilterCompaction.DispatchScatterBool` | crates/polars-metal-kernels/src/filter.rs:610-745 | for bit-packed data raced on by the threads, after the exact length and prefix guards: whatever the prefix, output bit i is set exactly when i is within the output and some kept row whose prefix less one is i has its bit set; for a true prefix sum these are the survivors' bits |
| `FilterCompaction.LastPrefixSuffices` | crates/polars-metal-kernels/src/filter.rs:663-682 | the last-prefix check rules out overruns for every prefix that never falls and counts each kept row |
| `FilterCompaction.BoolWrittenStep` | shaders/filter_scatter.metal:153-185 | every atomic step of any thread, under any prefix, sets its own thread's bit within the output and no other |
| `FilterCompaction.WordsNeeded` | crates/polars-metal-kernels/src/filter.rs:189-197 | the output bitmap has one word at least, and otherwise as many as its bits need and no more |
| `FilterCompaction.OrSetsOne` | shaders/_validity.metal:48-55 | an atomic OR sets one row's bit and no other |
| `FilterCompaction.ByteView` | shaders/_validity.metal:20-22 | the bit read bytewise is the bit set wordwise |
| `Predicates.WalkSound` | python/polars_metal/_walker.py:1508-1645 | a walked predicate keeps its three-valued meaning in either order of floats, and the evaluator takes it exactly when its integer literals fit 64 bits |
| `Predicates.IntegerComparison` | shaders/cmp_i64.metal:30-49 | a comparison of an integer column with a literal on either side, or with a column, is at row i null unless the bits are set, and then whether d[i] satisfies it, operator by operator |
| `Predicates.BooleanMeaning` | python/polars_metal/_udf.py:1250-1319 | a Boolean column is its data bit where its validity bit is set |
| `Predicates.FilterableExactly` | python/polars_metal/_walker.py:1508-1645 | the filters taken are exactly Boolean columns, comparisons of like operands of which one is a column, and connectives of those, with literals that fit 64 bits |
| `Comparisons.SwapMirrors` | python/polars_metal/_udf.py:1364-1412 | swapping a literal from the left mirrors the operator, for floats of any kind |
| `Comparisons.KernelIsIeee` | shaders/cmp_f64.metal:38-117 | the integer comparisons of bit patterns are IEEE's comparisons of the numbers they stand for: zeros, subnormals, infinities and NaN |
| `Comparisons.PatternMeans` | shaders/cmp_f64.metal:34-42 | a pattern put together from sign, exponent and fraction is NaN if and only if the exponent is 2047 and the fraction is not zero, and otherwise stands for the signed fraction, or hidden bit and fraction times 2^(e-1), in units of 2^-1074 |
| `Comparisons.UnitsGrow` | shaders/cmp_f64.metal:52-69 | larger patterns stand for larger absolute values |
| `Comparisons.BothZeroMeans` | shaders/cmp_f64.metal:44-50 | the shifted OR is zero exactly when both patterns are zeros |
| `Comparisons.OrdersMeetExactly` | crates/polars-metal-kernels/src/cmp.rs:21-24 | IEEE's and Polars' verdicts coincide exactly outside the listed NaN cases |
| `Predicates.EvaluateCompare` | python/polars_metal/_udf.py:1344-1398 | a comparison of integers or floats evaluates exactly when its operands are of the tagged kind and fit, and its bitmaps show its three-valued result at every row |
| `Predicates.LogicalThreadIsKleene` | shaders/logical_bool.metal:45-125 | the branch cascade of each thread is Kleene's connective |
| `Predicates.LaunchRows` | shaders/cmp_i64.metal:30-49 | every complete interleaving of one thread per row leaves every row's result in the shared words |
| `Predicates.EvaluatePredicate` | python/polars_metal/_udf.py:1250-1319 | evaluation succeeds exactly on evaluable predicates, and on bitmaps is three-valued logic row by row, whatever the thread orders |
| `Predicates.FilterKeep` | python/polars_metal/_walker.py:1107-1160 | succeeds exactly on those filters, and then keeps exactly the rows at which the predicate is true |
| `Predicates.FilterColumn` | crates/polars-metal-kernels/src/pipeline.rs:103-175 | slot k of the filtered column holds d[rows[k]] and its validity bit, rows being the true rows in order |
| `Predicates.OrderedRows` | tests/python_integration/test_filter_comparison.py:87-100 | the kept rows are Polars' for every predicate whose comparisons meet no NaN on which the orders part |
| `Predicates.ComparisonRowsExactly` | tests/python_integration/test_filter_comparison.py:87-100 | for one comparison that condition is exact |
| `Predicates.NanIsDropped` | tests/python_integration/test_filter_comparison.py:87-100 | a column holding one NaN under x > 0: accepted, kept by Polars, dropped by the kernel |
| `TiledSearch.MergeTopK` | crates/polars-metal-core/src/vector_search.rs:184-201 | sorting and truncating the best of a prefix and of the next tile gives the best of both |
| `TiledSearch.Partitioned` | crates/polars-metal-core/src/vector_search.rs:92-120 | the k smallest of the negated similarities, or of the distances, are the k best |
| `TiledSearch.TopKScoresUnique` | crates/polars-metal-core/src/vector_search.rs:78-140 | any two answers to a top-k question have the same multiset of scores |
| `TiledSearch.MergeTile` | crates/polars-metal-core/src/vector_search.rs:184-201 | pushing a tile's hits with corrected indices, sorting and truncating keeps the running top-k right |
| `TiledSearch.SearchTiled` | crates/polars-metal-core/src/vector_search.rs:151-211 | for every tile size the search ends and each query has k hits carrying their own rows' scores; under cosine each hit's score is >= that of every row left out, under squared distance <=; tiled results come best first, equal scores by row; the scores are those of the untiled search |
| `TiledSearch.VectorSearch` | crates/polars-metal-core/src/vector_search.rs:92-113 | operation 0 finds the highest similarities and 1 the lowest sums of squared differences; any other is refused |
| `TiledSearch.ExpansionIsDistance` | crates/polars-metal-core/src/vector_search.rs:103-112 | q2 + c2 - 2qc is the sum of squared differences |
| `TiledSearch.SimilarityIsCosine` | crates/polars-metal-core/src/vector_search.rs:48-54 | the product of normalised rows times both norms is their inner product |
| `BracketScanner.BalancedBracketSlice` | python/polars_metal/_detect_common.py:228-255 | the loop returns the slice up to where bracket depth outside strings returns to zero, or nothing |
| `BracketScanner.NeutralValue` | python/polars_metal/_detect_common.py:236-255 | inside an array the scanner passes over every JSON value, whatever its strings contain |
| `BracketScanner.ScanFindsArray` | python/polars_metal/_detect_common.py:228-255 | started at an array's opening bracket, with any tail, the scanner stops exactly at the array's end |
| `BracketScanner.CutArray` | python/polars_metal/_detect_common.py:228-255 | cutting at the start of an array embedded anywhere returns exactly that array |
| `CaptureCache.LookupIsOwn` | python/polars_metal/_detect_common.py:101-111 | in every run, however late callbacks come, a lookup returns only what was captured for that very frame |
| `CaptureCache.LookupWhileAlive` | python/polars_metal/_detect_common.py:90-138 | when callbacks precede address reuse, a captured frame is found while it lives, no other frame is, and the keys are the addresses of live captured frames |
| `CaptureCache.FoundExactly` | python/polars_metal/_detect_common.py:90-138 | in every run a live captured frame is found if and only if no callback at its address has run since its capture |
| `CaptureCache.LateCallback` | python/polars_metal/_detect_common.py:90-98 | a callback after its address was reused evicts the new frame's entry |
| `CaptureCache.Captures.WithColumns` | python/polars_metal/_detect_common.py:127-138 | the dictionary after a call is the one the capture step defines |
| `CaptureCache.Captures.Evict` | python/polars_metal/_detect_common.py:90-98 | the callback leaves the dictionary the eviction step defines |
| `CaptureCache.Captures.Find` | python/polars_metal/_detect_common.py:101-111 | the lookup in the dictionary is the specified one |
| `PipelineCache.CachedForever` | crates/polars-metal-kernels/src/shader_lib.rs:103-127 | in every interleaving a cached entry never changes |
| `PipelineCache.SameObject` | crates/polars-metal-kernels/src/shader_lib.rs:103-127 | successful calls return one object if and only if they name one entry point |
| `PipelineCache.BuiltTwice` | crates/polars-metal-kernels/src/shader_lib.rs:99-127 | there is a run in which one entry point is built twice and both calls still return one object |
| `PipelineCache.BuiltOnceExactly` | crates/polars-metal-kernels/src/shader_lib.rs:99-127 | in every run an entry point is built at most once if and only if no two calls that build it are in flight together |
| `PipelineCache.SettledOnceExactly` | crates/polars-metal-kernels/src/shader_lib.rs:99-127 | in a run whose calls have finished without failing, if and only if no two calls for it were in flight together |
| `PipelineCache.SequentialCallsBuildOnce` | crates/polars-metal-kernels/src/shader_lib.rs:99-127 | when calls for an entry point do not overlap it is built at most once |

## Left out

- Floating-point rounding everywhere, and signed zeros and infinities in fused expressions.
- FftDispatch.FftGpu: does not model single-precision rounding of constants and twiddles.
- The planar twins of the FFT drivers and kernels, which repeat the interleaved ones on two buffers.
- Integer (monomorphic) fused chains and dtype inference; the model's columns are Float32 values.
- The validity passes are modelled on values, not as methods over a mutable scope; the value passes are modelled both ways.
- Aggregation nodes inside expressions, `int_range` and other nodes the IR walkers always abort on are one opaque node; the JSON walker `_visit`, which interleaves inputs and ops, is not modelled.
- FusionReduction.ReduceChain: chain reductions only; a bare column with nulls or fewer than two rows is handed back to Polars, so nothing is left to prove about it.
- FusionDispatch.FusedColumn: equality with Polars is stated under `Dependable`, for expressions whose function nodes have an input; the exact boundary is proved family by family, not for all expressions at once, because whether two branches differ depends on the data.
- FusionDispatch.UnmaskedExactly: exact for chains without conditions and Kleene operators; with a condition, whether a null survives depends on which branch the data takes.
- JoinGather.ResidentExactly: one direction only for chains with conditions or Kleene operators, for the same reason.
- JoinGather.TryResidentGather: scan nodes have one input, as in Polars' IR; at most 2^31 dimension rows, beyond which the code wraps the index; column order in the output schema is not modelled, nor are names shared by both frames, for which the final column selection raises an error.
- FusionScanLimits.ScanOverHeadExactly: over the reference arithmetic, because the value of a scan over an arbitrary operator family is not determined.
- FusionPlans.ConfirmationExactly: bound expressions are chains without conditions or Kleene operators, as in `UnmaskedExactly`; one direction only when a filter or slice dropped rows, since it may drop the null ones; group-by nodes above the scan rename their outputs and are not modelled.
- Predicates.OrderedRows: sufficient, not necessary, for compound predicates, since a comparison that differs may be absorbed by the other operand.
- GroupBy.DispatchGroupBy: the GPU group build, for which the CPU build stands in, is not modelled, and float keys are compared by bit pattern, as the code does.
- The fused group-by emitter, which marks all-null groups valid, is a different function and is not claimed equal.
- Predicates outside the walker's closed set.
- FilterCompaction.DispatchScatter: covers the 64-bit integer and float variants alike, since both copy opaque slots.
- TiledSearch.SearchTiled: no rerank weight; tiles select by raw similarity and would merge by reranked score, which is not the untiled function.
- PipelineCache.SameObject: poisoned locks are taken over as the code does and need no state of their own.
- Routing thresholds, detection of sentinels by plan text, monkey-patching, device buffers, staging pools and error texts: tuning or glue without further properties.
