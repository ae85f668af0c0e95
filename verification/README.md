# ti_gjstep numeric core in Dafny

A model of the numeric core of `src/main.c`, the TI-84 Plus CE program that
solves a 2x3 or 3x4 linear system by Gauss–Jordan elimination and writes every
step to a scrollable log. The model covers three parts:

- **The step log** (`step_log.dfy`). `LOGBUF` and `log_count` are the class
  `StepLog.Log`: a fixed 280-slot array and a count.
  - `log_line` is `Log.Append`. It drops the line once the buffer is full.
  - `log_matrix` is `Log.LogMatrix`.
  - `log_count = 0` in `main` is `Log.Reset`.
  - A line is stored as the `Event` it reports rather than as formatted text.
  - A ghost field `Written` records every line offered since the last reset. The buffer always holds its first 280 lines.
- **The elimination** (`rowops.dfy`, `eliminator.dfy`). `gauss_jordan_verbose` is specified by functions on matrix values:
  - `GaussJordan` runs `Columns`, one `ColumnStep` per column. A step is the pivot search, the singular exit, the swap, the scaling with its abort branch, and the elimination of the other rows.
  - A `Run` is the matrix, the lines logged, the next iteration number and the status.
  - The methods `Eliminator.GaussJordanVerbose` and its parts perform the same run in place on an `array2<real>`, through the `Log`. Each one is proved to leave exactly the matrix and log lines of the function.
- **The number formatter** (`formatter.dfy`). `format_frac` and `small_val` turn a value into "0", an integer, a fraction with denominator at most 1000 in lowest terms, or a decimal. The rendered text is abstracted to the datatype `Rendered`.

Doubles are modelled as exact reals (`real`). `fabs` and C's `round` are in `reals.dfy`. Reading a whole array as a sequence of rows is in `matrix.dfy`.

The comments at src/main.c:35 and src/main.c:72 say that a value with no nice fraction falls back to a compact decimal. The code does not do that: no accuracy test guards the fraction it keeps, so a value such as 0.0009 prints as 0. The model follows the code, and the discrepancy is recorded under "Findings".

## Model

| member | source | states |
|---|---|---|
| Reals.Round | src/main.c:43 | the nearest integer, with halves rounded away from zero, and the same sign as the input |
| RowOps.Swapped | src/main.c:214 | rows `i` and `j` exchanged and every other row unchanged; rectangular shape kept |
| RowOps.SwappedPermutes | src/main.c:214 | a swap permutes the rows: the multiset of rows is unchanged |
| RowOps.Scaled | src/main.c:224 | only row `row` changes, and only from column `from` on |
| RowOps.ScaledToOne | src/main.c:220-224 | scaling the pivot row by the reciprocal of its pivot makes the pivot exactly 1 |
| RowOps.Subtracted | src/main.c:237 | only row `r` changes, and only from column `from` on |
| RowOps.SubtractedToZero | src/main.c:234-237 | subtracting `factor` times a row holding 1 in the column clears that entry to 0 |
| RowOps.SwapRows | src/main.c:214 | the array afterwards is `Swapped` of the array before |
| RowOps.ScaleRow | src/main.c:224 | the array afterwards is `Scaled` of the array before |
| RowOps.SubtractRow | src/main.c:237 | the array afterwards is `Subtracted` of the array before |
| StepLog.MatrixLines | src/main.c:149-164 | the header, then one line per row in order with that row's values, then a blank line: n + 2 lines |
| StepLog.RowLines | src/main.c:151-162 | one line per row, in order, each carrying that row's values |
| StepLog.Capped | src/main.c:26-32 | the buffer keeps the first 280 lines offered, all of them when there are fewer |
| StepLog.CappedGrows | src/main.c:26-32 | offering more lines never changes a line already stored |
| StepLog.StepCountConcat | src/main.c:206 | numbered lines count additively across concatenation |
| StepLog.NumberedConcat | src/main.c:213 | a numbering 1, 2, ... continues across two pieces when the second starts where the first stopped |
| StepLog.StepThenMatrix | src/main.c:240-241 | a numbered step line followed by a matrix listing is one numbered line |
| StepLog.Log.constructor | src/main.c:22-23 | an empty buffer of 280 lines with count 0 |
| StepLog.Log.Reset | src/main.c:300 | the count is 0 and the log holds no lines |
| StepLog.Log.Append | src/main.c:26-32 | the line goes into slot `log_count` and the count grows by one, unless the buffer is full; no other slot changes |
| StepLog.Log.LogMatrix | src/main.c:149-164 | the log gains exactly `MatrixLines` of the array |
| Formatter.Format | src/main.c:36-83 | `Zero` exactly below 1e-14 (the integer 0 can still result above it); the rounded integer within 1e-12 of it; a fraction has denominator 2..1000 in lowest terms and a nonzero numerator carrying the sign of x; never a decimal |
| Formatter.AdvanceFlipsDet | src/main.c:53-54 | the determinant of the two latest convergents changes sign at each step |
| Formatter.ExpandAdmissible | src/main.c:51-65 | however the expansion loop stops, the convergent it leaves has denominator 1..1000, a non-negative numerator and lowest terms |
| Formatter.TailFacts | src/main.c:67-83 | from such a convergent there is no decimal fallback; the sign goes on the numerator and lowest terms are kept |
| Formatter.TailFaithful | src/main.c:77-83 | the printed value is within tolerance of x exactly when the convergent is within tolerance of abs(x) |
| Formatter.Expand | src/main.c:47-65 | contract gives no property of its own; its partners are `ExpandAdmissible` (the convergent left behind is admissible) and `ExpandFraction` (a fraction p/q with q <= 1000 is recovered exactly) |
| Formatter.Advance | src/main.c:52-54 | contract gives no property of its own; `AdvanceFlipsDet` states the determinant flip and `EuclidStep` the remainder identity |
| Formatter.Close | src/main.c:58-59 | the acceptance test itself; `FractionsApart` states that two different fractions with denominators up to 1000 are never close |
| Formatter.Chosen | src/main.c:67-69 | contract gives no property of its own; `TailFacts` and `TailFaithful` state what the tail does with the pair it picks |
| Formatter.FormatTail | src/main.c:67-83 | contract gives no property of its own; its partners are `TailFacts` and `TailFaithful` |
| Formatter.FractionsApart | src/main.c:58-59 | two fractions with denominators 1..1000 that differ are more than the tolerance 5e-8 apart, so neither is accepted for the other |
| Formatter.EuclidStep | src/main.c:52-62 | with an integer tail ap/bp, one step of the loop is a step of Euclid's algorithm: the new convergent and the remainder rebuild p and q, its denominator stays within 1..q, and it misses p/q by the remainder times its determinant |
| Formatter.ExpandRational | src/main.c:51-65 | from any such state, with a budget that covers the halving of ap * bp, the loop stops on exactly p/q |
| Formatter.ExpandFraction | src/main.c:47-65 | on a fraction p/q in lowest terms with q in 2..1000 the loop ends with p/q moved to p0/q0 |
| Formatter.BudgetCoversFractions | src/main.c:51 | 32 iterations are enough for Euclid's algorithm on any denominator up to 1000 |
| Formatter.FractionNotInteger | src/main.c:40-44 | such a fraction and its negation pass neither the 1e-14 cutoff nor the 1e-12 integer snap |
| Formatter.SmallFractionsRoundTrip | src/main.c:36-83 | round trip: for p >= 1 and q in 2..1000 in lowest terms, x = p/q prints as the fraction p/q and -x as -p/q |
| Formatter.SmallValuesPrintZero | src/main.c:51-75 | every value in [5e-8, 1/1001] prints as the integer 0, far from the value |
| Formatter.TinyValuePrintsZero | src/main.c:51-75 | 0.0009 prints as 0 |
| Formatter.FormatChecked | src/main.c:71-75 | the corrected formatter: always within tolerance of x, or the decimal of x; agrees with `Format` wherever `Format` is accurate |
| Formatter.FormatFrac | src/main.c:36-83 | the loop of at most 32 iterations computes `Format(x)` |
| Formatter.SmallVal | src/main.c:85-91 | `Format` of the value clamped to 0 below 1e-12; `Zero` exactly for such values (other values may still give `Int(0)`) |
| Eliminator.PivotScan | src/main.c:201-204 | the scan keeps the first row with the largest absolute value in the column |
| Eliminator.PivotOf | src/main.c:199-204 | the pivot is the first row from `col` on with the largest absolute value in column `col`; it is `col` itself when no row exceeds it |
| Eliminator.FindPivot | src/main.c:199-204 | the loop returns `PivotOf` and its absolute value |
| Eliminator.EliminateRow | src/main.c:232-242 | shape and status only; `EliminateRowFacts` states the skip, the cleared entry and the one logged step |
| Eliminator.EliminateFrom | src/main.c:231-243 | shape and status only; `EliminateFromFacts` states that the column is reduced in every other row |
| Eliminator.SwapStep | src/main.c:211-216 | the pivot row lands in row `col`, shape and status kept; `SwapKeepsReduced` states that earlier columns stay reduced |
| Eliminator.ScaleStep | src/main.c:218-229 | shape and status only; `ScaledToOne` states that the pivot becomes 1 and `ScaleKeepsReduced` that earlier columns stay reduced |
| Eliminator.Abort | src/main.c:221 | no contract; `NeverAborts` states that this branch is never taken |
| Eliminator.SingularStop | src/main.c:205-209 | no contract; `SingularTail` and `SingularLog` state the log it leaves |
| Eliminator.ColumnStep | src/main.c:197-243 | shape only; `ColumnStepCases` and `ColumnStepFacts` state what a pass does |
| Eliminator.Columns | src/main.c:196-248 | shape only; `ColumnsFacts` states how the loop ends |
| Eliminator.GaussJordan | src/main.c:191-249 | shape only; `RunFacts`, `SolvedOutcome`, `SingularOutcome` and the worked examples state the run |
| Eliminator.Finish | src/main.c:245-248 | no contract; `SolvedOutcome` and `FinishNumbered` state the closing lines it adds |
| Eliminator.Epilogue | src/main.c:245-248 | "Finished", the matrix, "Solution x:" and one line per unknown: 2n + 4 lines |
| Eliminator.SolutionLines | src/main.c:248 | one line per unknown, line i carrying x[i] read from the last column of row i |
| Eliminator.SolvedExample | src/main.c:191-249 | 2x + y = 5, x - y = 1 ends solved with [[1, 0, 2], [0, 1, 1]] and the log closes with x[0] = 2, x[1] = 1 |
| Eliminator.SolvedExampleFirstColumn | src/main.c:197-243 | column 1 of that system: no swap, scale by 1/2, one elimination |
| Eliminator.SolvedExampleSecondColumn | src/main.c:197-243 | column 2 of that system: scale by 1 / -1.5, one elimination, leaving [I \| x] |
| Eliminator.SolvedExampleFinish | src/main.c:245-248 | the solution lines of that system read 2 and 1 |
| Eliminator.SingularExample | src/main.c:191-249 | x + 2y = 3, 2x + 4y = 7 stops singular at column 2 with its fourth numbered line and the unchanged matrix [[1, 2, 3.5], [0, 0, -0.5]] |
| Eliminator.SingularExampleFirstColumn | src/main.c:197-243 | column 1 of that system: rows swapped, scaled by 1/2, one elimination |
| Eliminator.StepSound | src/main.c:206 | a step logged with the current iteration number keeps the run's numbering 1, 2, 3, ... and adds n + 3 lines |
| Eliminator.StartSound | src/main.c:192-194 | the initial listing carries no number and no closing line |
| Eliminator.SwapKeepsReduced | src/main.c:211-216 | swapping the pivot row into place keeps the earlier columns reduced |
| Eliminator.ScaleKeepsReduced | src/main.c:218-229 | scaling the pivot row keeps the earlier columns reduced |
| Eliminator.SubtractKeepsReduced | src/main.c:237 | eliminating from another row keeps the earlier columns reduced |
| Eliminator.EliminateRowFacts | src/main.c:232-242 | a pass of the elimination loop leaves that row negligible in the column, changes no other row, keeps the pivot 1 and logs at most one step |
| Eliminator.EliminateFromFacts | src/main.c:231-243 | the elimination loop reduces column `col` in every other row, keeps the earlier columns reduced and the numbering sound |
| Eliminator.ColumnStepCases | src/main.c:205-243 | a pass takes the singular exit when the pivot is below 1e-10; otherwise it swaps, scales and eliminates, and the pivot after the swap is at least 1e-10 |
| Eliminator.ColumnStepFacts | src/main.c:197-243 | a pass never aborts; it either reduces column `col` or stops singular on a column negligible from row `col` down |
| Eliminator.ColumnsFacts | src/main.c:197-248 | the column loop ends solved with every column reduced before the closing lines, or singular at a column negligible from its diagonal down |
| Eliminator.EpilogueUnnumbered | src/main.c:245-248 | the closing lines carry no iteration number |
| Eliminator.EliminateFromExtends | src/main.c:231-242 | the elimination only appends to the log |
| Eliminator.ColumnStepExtends | src/main.c:197-243 | a pass only appends to the log |
| Eliminator.ColumnsExtend | src/main.c:197-248 | the column loop only appends to the log |
| Eliminator.RunFacts | src/main.c:191-249 | the whole run ends solved or singular; the state it ends from is sound; at most 106 lines for 3 unknowns |
| Eliminator.NeverAborts | src/main.c:221 | the "pivot vanished; abort" branch is never taken |
| Eliminator.FinishNumbered | src/main.c:245-248 | the closing lines keep the numbering |
| Eliminator.SingularTail | src/main.c:205-209 | the singular exit ends the log with its numbered line and the unchanged matrix |
| Eliminator.RunStartsWith | src/main.c:192-194 | every run's log starts with "Initial matrix:" and the matrix |
| Eliminator.RunNumbered | src/main.c:191-249 | the numbered lines of a run's log are numbered 1, 2, 3, ... in order |
| Eliminator.SolvedOutcome | src/main.c:245-248 | a solved run leaves the left block reduced to the identity (off-diagonal below 1e-10); the log ends with the closing lines and the solution from the last column, and has no closing line before them |
| Eliminator.SingularOutcome | src/main.c:205-209 | a singular stop at column c leaves columns before c reduced and column c negligible from row c down |
| Eliminator.SingularLog | src/main.c:205-209 | a singular run's log ends with the singular line and the unchanged matrix and has no closing line |
| Eliminator.RunFitsLog | src/main.c:26-32 | for at most 3 unknowns a run logs at most 106 lines, so the 280-line buffer never drops one |
| Eliminator.SwapInPlace | src/main.c:211-216 | the array and the log afterwards are those of `SwapStep` |
| Eliminator.ScaleInPlace | src/main.c:218-229 | the array and the log afterwards are those of `ScaleStep` |
| Eliminator.EliminateRowInPlace | src/main.c:233-241 | the array and the log afterwards are those of `EliminateRow` |
| Eliminator.EliminateColumn | src/main.c:232-242 | the array and the log afterwards are those of `EliminateFrom` over all rows |
| Eliminator.SingularInPlace | src/main.c:205-209 | the log afterwards is that of the singular exit, and the array is unchanged |
| Eliminator.ReduceColumn | src/main.c:211-242 | swap, scale and elimination together match the function's pass |
| Eliminator.ProcessColumn | src/main.c:198-243 | the array, the log and the iteration number afterwards are those of `ColumnStep`; `stop` is set when the run ended |
| Eliminator.ColumnPass | src/main.c:197-243 | a pass either ends the run with its result, or the rest of the loop continues from it |
| Eliminator.LogEpilogue | src/main.c:245-248 | the log afterwards holds the closing lines, the matrix and the solution lines, one per unknown: the state `Columns` ends in once every column is reduced |
| Eliminator.ColumnLoop | src/main.c:196-248 | the array and the log afterwards are those of `Columns` |
| Eliminator.GaussJordanVerbose | src/main.c:191-249 | the array afterwards is the matrix of `GaussJordan`, and the log gained exactly its lines |
| Eliminator.Solve | src/main.c:300-301 | after the reset and the run, the buffer holds exactly the run's lines, with none dropped |

## Left out

- The NaN/infinity branch of `format_frac` (src/main.c:37): exact reals have no such values.
- IEEE double rounding: `floor`, division and the row operations are exact on reals, so a result the program would round differently is not modelled.
- 64-bit overflow of the continued-fraction numerator and denominator (src/main.c:53-54) is not modelled.
- The text of the log: `snprintf` formatting, and truncation to 56 characters per line and 16 per value. A line is the `Event` it reports, with the raw values rather than their `small_val` renderings. The `%.6g` decimal form is kept abstract as `Rendered.Decimal`.
- The fixed 3x4 buffer with `rows` and `cols` arguments is modelled as an array of exactly n x (n+1). Input produces only 2x3 or 3x4, so `cols = rows + 1`.
- `Rendered.Zero` and `Rendered.Int(0)` are kept apart, and the model does not say what text either prints. `Zero` prints "0" (src/main.c:40). `Int(0)` from the fraction tail prints "0" through `%lld` (src/main.c:81). `Int(0)` from the integer snap goes through `round` and `%.0f` (src/main.c:43-44); for x in (-1e-12, -1e-14] that gives -0.0, which prints "-0". `format_frac` is only called from `small_val` (src/main.c:89), whose clamp at src/main.c:88 turns every such x into 0.0 first, so the program never prints "-0".
- Input (`sequential_input`, `parse_number`, the prompts), the log viewer and the rest of `main` are not part of this model. They are screen and keyboard I/O.

## Findings

| source | as written | input that shows it | evidently intended | confidence | as-written member | corrected member |
|---|---|---|---|---|---|---|
| src/main.c:67-75 | the decimal fallback triggers only on a denominator above 1000 or of 0, but the loop never keeps such a convergent, so no accuracy test guards the printed fraction | 0.0009 prints "0" (every value in [5e-8, 1/1001] does) | fall back to the decimal form when the chosen fraction is 5e-8 or more away from the value | not executed | Formatter.SmallValuesPrintZero | Formatter.FormatChecked |
