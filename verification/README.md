# RPX calculator core, modelled and proved in Dafny

RPX is a terminal calculator for expressions in reverse Polish notation.
This project models the parts of it that compute, and proves properties of
them:

- **The real-mode evaluator** `eval_expr_real` and its table of handlers
  (src/evalfn.c). It is modelled twice, and both machines run the code as
  written, including the defects listed under "Findings". `RealSpec` is a pure state machine.
  `EvalFn.RealEvaluator` is the imperative machine itself: the globals
  become fields, and the 100-slot stack and the expression buffer become
  arrays. Each of its methods is proved to leave the state that the matching
  `RealSpec` function computes. `RealLaws` proves what the handlers promise:
  folds, comparisons, groups, registers, the history bound and the sample runs.
- **The complex evaluator** `evalExprComplex` (src/main.c). `ComplexEval.Frame`
  is one activation: a 64-slot stack of tagged elements, the runtime
  information it copies in and writes back, and a nested call for every entry
  of a matrix literal. Its handlers are proved against pure functions on the
  stack registers (`Push`, `Open`, `Close`, `MapTop`, `MapPair`,
  `PushValueAsWritten`, `FlagAsWritten`, `FoldNumbers`, `RecordAsWritten`),
  which describe the code as written.
- The corrected behaviour of each finding (`RealSpec.IntFn`,
  `PhyConst.GetConst`, `ElemOp.Invert`, `ComplexEval.Push` of a COMP element,
  `ComplexEval.Flag`, `ComplexEval.Record`) is a separate member with its
  intended property proved; the evaluators do not run it.
- **The element layer** (src/elemop.c and its other snapshot
  src/elem_operations.c) and **the matrix engine** (src/matop.c). This
  covers entrywise sums, the triple-loop product, scaling and Gauss-Jordan
  inversion. Heap buffers are tracked in a live set (`Chore.Heap`). Releasing
  or reading a block that is not live counts as undefined behaviour.
- **The line editor's buffer primitives** (src/editline.c), **whitespace
  compaction** (src/optexpr.c), **small helpers** (src/chore.c), **gcd/lcm**
  (src/arthfn.c), **the xorshift generator** (src/rand.c), **the physical
  constants** (src/phyconst.c) and **the error messages** (src/errcode.c).

Some things are parameters rather than part of the model:

- the C library's mathematical functions (libm, complex `<tgmath.h>`);
- the epsilon comparison `eq`;
- the value of a double division by zero;
- `rand()`.

Doubles are modelled as exact reals, and `strtod` reads the exact rational
value of its literal. Where the C code's behaviour is undefined, the model
gives an explicit result instead (`Stuck`, `Undef`, `None` or `Undefined`):

- an index outside an array;
- a union member read that holds no value of that kind;
- a read past the terminator;
- an overflowing conversion;
- a block that is not live.

## Model

| member | source | states |
|---|---|---|
| ArthFn.TruncBounds | src/arthfn.c:6-7 | `(unsigned long)x` stays below 2^64, keeps the whole part of a non-negative double, and maps (-1, 0) to 0 |
| ArthFn.TruncWhole | src/arthfn.c:6-7 | a whole number below 2^64 converts to itself |
| ArthFn.GcdDividesBoth | src/arthfn.c:8-13 | Euclid's recurrence yields a divisor of both arguments |
| ArthFn.GcdGreatest | src/arthfn.c:8-13 | every common divisor of the arguments divides the result, so it is the greatest common divisor |
| ArthFn.GcdZero | src/arthfn.c:8-13 | the gcd is zero exactly when both arguments are |
| ArthFn.Gcd | src/arthfn.c:5-14 | the loop returns a common divisor of the truncated arguments that every common divisor divides |
| ArthFn.GcdWithZero | src/arthfn.c:8-13 | gcd(x, 0) is x truncated: the loop is not entered |
| ArthFn.Lcm | src/arthfn.c:25-27 | `n / gcd(n, m) * m` has no value exactly when both truncated arguments are zero |
| ArthFn.LcmOfWhole | src/arthfn.c:25-27 | on whole numbers, not both zero, the gcd is positive and lcm is `n / gcd * m` |
| ArthFn.LcmCommonMultiple | src/arthfn.c:25-27 | on whole numbers, lcm is a whole common multiple of both, and lcm times gcd is the product |
| ArthFn.TestTable | src/arthfn.c:16-36 | the rows of both test tables: gcd 6, 5, 10 and lcm 36, 150, 990 |
| Chore.SkipSpaces | src/chore.c:49-52 | stops on the first non-blank at or after the cursor, inside the string; everything skipped is blank |
| Chore.SkipUntilComma | src/chore.c:58-62 | stops just past the first ',' of the string, or on its terminator when there is none |
| Chore.Heap.NFree | src/chore.c:68-71 | a null pointer leaves the live blocks alone; any other block stops being live |
| Chore.Heap.Own | src/matop.c:15-19 | an allocation adds a block that was not live |
| Chore.Heap.Free | src/chore.c:68-71 | `free` removes a live block |
| CString.StrLen | src/editline.c:49 | `strlen` is the index of the first terminator |
| CString.CStr | src/editline.c:49 | the string is the prefix before the terminator, which follows it |
| CString.StrLenOf | src/editline.c:49 | a terminator with none before it is at `strlen` |
| CString.StrLenAtMost | src/editline.c:49 | `strlen` is at most the index of any terminator |
| CString.StrLenFrom | src/editline.c:49 | the walk from i returns `strlen` of the buffer from i |
| CString.Moved | src/editline.c:303 | `memmove` keeps the buffer's length |
| CString.MovedAt | src/editline.c:303 | after `memmove`, the window holds the source range and every other cell is unchanged |
| CString.MemMove | src/editline.c:303 | `memmove` leaves the buffer `Moved` describes, overlap or not |
| CString.CopyForward | src/editline.c:231 | the upward copy is a correct `memmove` when the destination is not above the source |
| CString.CopyBackward | src/editline.c:322 | the downward copy is a correct `memmove` when the destination is above the source |
| CString.StrChr | src/editline.c:96 | `strchr` finds the first c at or after the cursor, the terminator included, or none |
| CString.MemRChr | src/editline.c:96 | `memrchr` finds the last c among the first n characters, or none |
| CString.MemCpyIn | src/editline.c:323 | `memcpy` of a separate string puts it at dst and changes nothing else |
| ErrCode.CodeToMsg | src/errcode.c:3-36 | each listed code gets its own message, and every other int gets "" |
| ErrCode.ListedCodes | src/errcode.c:3-36 | the codes with a message are exactly -14..0 other than ERR_REACHED_UNREACHABLE (ERR_RETRY has none) |
| ErrCode.MessagesDistinct | src/errcode.c:3-36 | two codes with the same non-empty message are the same code |
| PhyConst.ConstIndexAsWritten | src/phyconst.c:62 | the index as written: `c - 'A'` for upper case, `c - 6` from 'a' upward |
| PhyConst.GetConstAsWritten | src/phyconst.c:61-63 | as written, a value exists exactly when that index falls inside the 52-slot table |
| PhyConst.LowerCaseOutOfTable | src/phyconst.c:62 | every lower-case letter indexes slot 91 or beyond, so as written it has no value |
| PhyConst.ConstIndex | src/phyconst.c:5-59 | upper-case letters index slots 0..25 and lower-case letters slots 26..51 |
| PhyConst.GetConst | src/phyconst.c:61-63 | every letter has a constant: upper case reads its table slot, agreeing with the code as written; lower case reads 0 |
| PhyConst.NamedConstants | src/phyconst.c:5-59 | C, E, F, P and R read the speed of light, e, the Faraday constant, pi and the gas constant |
| PhyConst.UnnamedLettersAreZero | src/phyconst.c:5-59 | a letter reads 0 exactly when it is none of C, E, F, G, K, L, P, R |
| Rand.ZeroStaysZero | src/rand.c:11-17 | zero is a fixed point of `xorsh` |
| Rand.NonZeroStaysNonZero | src/rand.c:13-15 | each of the three xor-shifts keeps a non-zero word non-zero, so the step does too |
| Rand.Outputs | src/rand.c:11-17 | n calls from state s give n values, each the step of the one before |
| Rand.OutputsNonZero | src/rand.c:11-17 | every value drawn from a non-zero seed is non-zero |
| Rand.Unit | src/rand.c:19-21 | `xorsh_0_1` lies in [0, 1) |
| Rand.Generator.constructor | src/rand.c:27-30 | `__init_xorsh`: seeded with the clock reading (passed in), then advanced by one discarded `xorsh`, so the state starts as `XorShift(seed)` |
| Rand.Generator.Seed | src/rand.c:23-25 | `sxorsh` sets the state to exactly the seed |
| Rand.Generator.Next | src/rand.c:11-17 | `xorsh` stores the step of the old state and returns it |
| Rand.Generator.NextUnit | src/rand.c:19-21 | one step, returned scaled into [0, 1) |
| Rand.Generator.Draw | src/rand.c:11-17 | n calls return `Outputs(state, n)` and leave the last one as the state, so equal seeds give equal runs |
| Strtod.RunEnd | src/evalfn.c:96 | the end of a digit run: every character before it is a digit and the one at it is not |
| Strtod.Parse | src/evalfn.c:95-98 | `strtod` on a literal starting with a digit ends strictly after its first character, inside the buffer, with a non-negative value |
| Strtod.WholeNumber | src/main.c:170-174 | a run of decimal digits followed by a character outside the literal syntax reads as its integer value, ending on that character |
| Strtod.RunEndAt | src/evalfn.c:96 | `RunEnd` finds the end of a digit run that is followed by a non-digit |
| Strtod.SampleWhole | src/evalfn.c:286-289 | "5 " reads 5 and stops at the blank |
| Strtod.SampleScientific | src/evalfn.c:95-98 | "2.5e2 " reads 250 |
| Strtod.SampleHex | src/evalfn.c:95-98 | "0x1p4 " reads 16; "0x " reads the lone 0 and stops at the x |
| OptExpr.CompactKeepsText | src/optexpr.c:7-18 | compaction deletes whitespace only: the other characters survive, in order |
| OptExpr.CompactShorter | src/optexpr.c:7-18 | the compacted text is never longer than the original |
| OptExpr.CompactChars | src/optexpr.c:7-18 | every character of the compacted text comes from the original |
| OptExpr.CompactSpacesSeparateDigits | src/optexpr.c:13 | every whitespace character left stands between two digits |
| OptExpr.SpaceRunUnique | src/optexpr.c:9-17 | the length of a blank run is the only k with blanks before it and a non-blank at it |
| OptExpr.FindRun | src/optexpr.c:9-17 | one pass finds the blank run at the cursor, the index after it, where its tail goes (one further on between two digits) and the tail's length |
| OptExpr.DropRun | src/optexpr.c:14 | the pass moves the terminated tail down over the run and changes nothing else |
| OptExpr.Pass | src/optexpr.c:9-17 | one loop iteration keeps the scan invariant: the text written so far, followed by the compaction of the rest, is the compaction of the whole |
| OptExpr.RmExprSpaces | src/optexpr.c:7-18 | in place, the string up to its first terminator becomes the compaction of the original string |
| OptExpr.OptimizeExpr | src/optexpr.c:20-22 | `optexpr` is that compaction and nothing more |
| OptExpr.CompactKeepsNumbersApart | src/optexpr.c:13 | "12 3" keeps its blank |
| OptExpr.CompactDropsOtherBlanks | src/optexpr.c:7-18 | " 1 +2 " becomes "1+2" |
| EditLine.RemoveInserted | src/editline.c:316-326 | removing what was just inserted gives the text back |
| EditLine.InsertedKeepsPrefix | src/editline.c:316-326 | an insertion keeps the text before the cursor and puts the new text right after it |
| EditLine.MoveCur | src/editline.c:42-44 | the cursor moves by n, clamped to the line |
| EditLine.MoveCurSteps | src/editline.c:46-61 | the five moves of the unit test: 1, 4, 0, 0 and the end |
| EditLine.FindMove | src/editline.c:93-102 | forward: found iff c occurs from the cursor to the terminator; backward: iff c occurs before the cursor; the cursor moves onto the occurrence or stays put |
| EditLine.FirstForward | src/editline.c:96 | a forward search ends on the first occurrence |
| EditLine.LastBackward | src/editline.c:96 | a backward search ends on the last occurrence before the cursor |
| EditLine.FindMoveForwardSteps | src/editline.c:104-118 | the forward searches of the unit test end at 6, 8 and 11 |
| EditLine.FindMoveOtherSteps | src/editline.c:104-118 | the backward search for 's' reaches 0, and the search for 'z' leaves the cursor where it was |
| EditLine.Fwdw | src/editline.c:125-136 | the cursor moves to the first word stop after it (a class change, or a word after blanks), then past blanks; at the end it stays |
| EditLine.FwdwSteps | src/editline.c:138-147 | the unit test: 0 to 7, then 11 |
| EditLine.Bwdw | src/editline.c:154-164 | corrected: back over blanks to the last non-blank, then to the start of its class run, never before the line |
| EditLine.BwdwSteps | src/editline.c:166-174 | the unit test: 12 to 11, then 7 |
| EditLine.SkipBackAsWritten | src/editline.c:157-158 | the blank loop as written, which has no lower bound |
| EditLine.BwdwAsWritten | src/editline.c:154-164 | `bwdw` as written never lands on column 0 from a later cursor: it stops after it or is undefined |
| EditLine.WordBackAsWritten | src/editline.c:160-163 | the word loop as written, which reads `cur[-1]` before it tests `cur != buf` |
| EditLine.WordBackReadsBeforeLine | src/editline.c:161-162 | as written, a word that reaches back to the start of the line is read one character before the line |
| EditLine.BwdwFirstWord | src/editline.c:154-164 | from 7, `bwdw` as written reads `buf[-1]`; the corrected one stops at 0 |
| EditLine.FwdW | src/editline.c:181-184 | the cursor moves to the first ' ' at or after it (else the end), then past blanks |
| EditLine.FwdWSteps | src/editline.c:186-195 | the unit test: 0 to 7, then the terminator at 12 |
| EditLine.BwdW | src/editline.c:202-207 | the cursor moves back over blanks, then to just after the previous ' ' (or to 0) |
| EditLine.BwdWSteps | src/editline.c:209-217 | the unit test: 12 to 7, then 0 |
| EditLine.HandleTxtObj | src/editline.c:260-293 | a range exists iff the object is w, W, b or ]; w and W take a forward motion as the end and a backward motion from there as the begin; b and ] take the next closer as the end and the position after the opener before it as the begin |
| EditLine.DeletesCopyOverlaps | src/editline.c:70 | the `memcpy` ranges overlap exactly when the tail is longer than the deleted range, as in deleting 1 of 3 characters |
| EditLine.Deletes | src/editline.c:69-73 | the line loses `[begin, end)` and shrinks by its length; the terminator follows; nothing past it changes |
| EditLine.DeletesStep | src/editline.c:75-83 | "sample text." without its first 7 characters is "text." |
| EditLine.ShiftUp | src/editline.c:303 | `memmove(cur + n, cur, len - cur)` keeps the head and moves the tail n higher |
| EditLine.InsertC | src/editline.c:302-306 | c is inserted at the cursor; cursor and end advance by one; the terminator follows |
| EditLine.InsertsOverrun | src/editline.c:318 | the guard as written accepts a string exactly as long as the room left, whose terminator lands one past the buffer |
| EditLine.InsertS | src/editline.c:316-326 | corrected guard: aborts (changing nothing) unless the string and its terminator fit; otherwise the string is inserted at the unmoved cursor and the line grows by its length |
| EditLine.Splice | src/editline.c:322-325 | the shift, the copy and the terminator yield the text with the string inserted |
| EditLine.InsertsSteps | src/editline.c:328-344 | the two insertions of the unit test give "sample textnew string." and then "sample textextra stringnew string." |
| EditLine.InsBind | src/editline.c:353-378 | '(' and '[' insert the pair with the cursor between them, abort when the guard as written refuses, and overrun (undefined) with exactly 2 cells left; ')' and ']' jump past the next such closer, else are inserted like any other character, overrunning with 1 cell left |
| MatOp.NewMatrix | src/matop.c:15-19 | a fresh live buffer of exactly `rows * cols` entries, taken to be zero-filled |
| MatOp.NewMatrixAsWritten | src/matop.c:15-19 | as written, a fresh live buffer of exactly `rows * cols` entries with unspecified contents |
| MatOp.MEq | src/matop.c:21-34 | equal iff same shape and every pair of entries equal under `eq` |
| MatOp.MOps | src/matop.c:39-54 | a fresh matrix of lhs's shape whose entry p is `lhs[p] ± rhs[p]`, rhs read from its buffer whatever its shape; a shape mismatch is reported exactly when the shapes differ |
| MatOp.MAdd | src/matop.c:53 | the entrywise sum, in a fresh buffer |
| MatOp.MSub | src/matop.c:54 | the entrywise difference, in a fresh buffer |
| MatOp.MMulCheckMisses | src/matop.c:61 | a 2×3 by 2×2 product passes the check as written although it is undefined |
| MatOp.MMulCheckWeaker | src/matop.c:61 | the check as written reports only undefined products, and misses those with `lhs.rows == rhs.cols` |
| MatOp.AccumulateCell | src/matop.c:70-72 | the k loop adds the sum over k of lhs(i, k)·rhs[rhs.cols·k + j], read from rhs's buffer, onto entry (i, j) and changes nothing else |
| MatOp.AccumulateRow | src/matop.c:69-72 | the j loop adds those sums onto row i and leaves the other rows |
| MatOp.Accumulate | src/matop.c:68-72 | the triple loop adds those sums onto what the buffer held |
| MatOp.MMul | src/matop.c:60-75 | with a zero-filled buffer, entry (i, j) is the sum over k < lhs.cols of lhs(i, k)·rhs[rhs.cols·k + j], read from rhs's buffer, and is the product's entry whenever lhs.cols ≤ rhs.rows; the mismatch is reported exactly when the product is undefined |
| MatOp.DotBufferIsDot | src/matop.c:70-72 | within rhs's rows, the sum read from rhs's buffer is the row-by-column sum of the two matrices |
| MatOp.ConformableFits | src/matop.c:60-75 | when lhs.cols ≤ rhs.rows the reads of `mmul` stay inside rhs's buffer |
| MatOp.ProductIsDot | src/matop.c:60-75 | entry by entry, what `mmul` reads from rhs's buffer is the product lhs·rhs when lhs.cols ≤ rhs.rows |
| MatOp.ProductFromZero | src/matop.c:66-72 | the sums added onto a zero-filled buffer are exactly what `mmul` computes |
| MatOp.MMulAsWritten | src/matop.c:60-75 | as written, each entry is that sum plus the unspecified contents of the fresh buffer |
| MatOp.JunkShowsThrough | src/matop.c:66-72 | a non-zero leftover changes the entry that is computed |
| MatOp.SMul | src/matop.c:179-182 | each of the `rows * cols` entries is multiplied by the scalar in place; the rest of the buffer is unchanged |
| MatOp.IdentityProduct | src/matop.c:125-126 | the identity times the input is the input: the elimination invariant holds at the start |
| MatOp.SwapKeepsProduct | src/matop.c:139-146 | swapping and negating the same rows of both matrices keeps `result·A0 == A` |
| MatOp.SwapKeepsReduced | src/matop.c:139-146 | a swap with a row below the pivot keeps the cleared columns and brings a non-zero pivot |
| MatOp.EliminationKeepsProduct | src/matop.c:149-156 | reducing the rows of both matrices by the same multiples keeps `result·A0 == A` |
| MatOp.EliminationReduces | src/matop.c:149-156 | elimination with a non-zero pivot clears column i and keeps the earlier columns cleared |
| MatOp.DividedProduct | src/matop.c:160-169 | dividing the rows of the result by the diagonal divides the products the same way |
| MatOp.ReducedGivesInverse | src/matop.c:160-169 | once A is diagonal, dividing by its diagonal turns the result into the inverse |
| MatOp.InitIdentity | src/matop.c:125-126 | a zero-filled buffer becomes the identity |
| MatOp.FindPivot | src/matop.c:130-137 | the first row, cyclically after i, with a non-zero entry in column i, or none |
| MatOp.BringPivot | src/matop.c:130-146 | a non-zero pivot is kept as it is; a zero one is replaced by the next row with a non-zero entry in column i, swapped in, keeping `result·A0 == A`; it fails only after a wrapped search, and without a wrap it keeps the cleared columns |
| MatOp.SwapStep | src/matop.c:139-146 | swapping in the row found by the search keeps `result·A0 == A`, gives a non-zero pivot, and keeps the cleared columns when that row lies below i |
| MatOp.SwapNegRows | src/matop.c:139-146 | rows i and j are exchanged in both matrices, with row j negated |
| MatOp.SwapFlatPrefix | src/matop.c:139-146 | swapping rows inside the first `dim * dim` entries of a buffer swaps the rows of the square matrix they hold, whatever follows them |
| MatOp.EliminateRow | src/matop.c:150-155 | row j of both matrices is reduced by `A(j, i) / A(i, i)` times row i, column by column |
| MatOp.ElimFlatPrefix | src/matop.c:150-155 | reducing row j inside the first `dim * dim` entries of a buffer reduces row j of the square matrix they hold, whatever follows them |
| MatOp.EliminateColumn | src/matop.c:149-156 | every row other than i is reduced by its multiple of row i, in both matrices |
| MatOp.DivideRow | src/matop.c:161-169 | row i of the result is divided by `A(i, i)`, unless that is zero |
| MatOp.DivideRows | src/matop.c:160-169 | succeeds iff no diagonal entry is zero, and then every row is divided by its diagonal entry |
| MatOp.PivotColumn | src/matop.c:129-157 | one column keeps `result·A0 == A`; fails only after a wrapped pivot search; without one it clears column i |
| MatOp.Eliminate | src/matop.c:129-157 | the column loop keeps `result·A0 == A`, and without a wrapped search leaves A diagonal |
| MatOp.InverseMatrix | src/matop.c:115-172 | a non-square input is reported and returned unchanged; a failure frees the new buffer and returns A; success gives a fresh square result with `result·A0` equal to A divided by its diagonal; without a wrapped pivot search the result is the inverse of the input |
| MatOp.SampleInverse | src/main.c:356-364 | any inverse of [[1,2],[3,4]] is [[-2,1],[1.5,-0.5]] |
| ElemOp.ElemSet | src/elemop.c:13-18 | a MATR destination's buffer is released, then the destination becomes the source; undefined when that buffer is not live; `elem_set` of src/elem_operations.c:11-16 is the same |
| ElemOp.Equal | src/elemop.c:20-28 | different tags are unequal; only COMP and MATR can be equal; undefined exactly when a union member or a released buffer is read, so matrices of different shapes are unequal even on released buffers |
| ElemOp.ShapeMismatchIsDefined | src/matop.c:25-27 | matrices with different row counts compare unequal even when no buffer is live |
| ElemOp.ElemEq | src/elemop.c:20-28 | COMP compares with `eq`, MATR with `meq`, every other tag is unequal even to itself; None exactly when `meq` would read an entry of a released buffer (shapes equal, at least one entry) or a union member holds no value |
| ElemOp.ElemAdd | src/elemop.c:30-44 | different tags are reported and leave lhs alone; two matrices give a fresh `madd` buffer of lhs's shape (defined while lhs's entries lie inside rhs's buffer), releasing both old buffers; numbers add |
| ElemOp.ElemSub | src/elemop.c:46-59 | like `elem_add` with `msub`, but only lhs's old buffer is released |
| ElemOp.ElemMul | src/elemop.c:61-77 | matrix·matrix is the `mmul` result in a fresh buffer, defined exactly when its reads stay inside rhs's buffer, and the product whenever lhs.cols ≤ rhs.rows; matrix·number and number·matrix scale the matrix's entries in place and leave the rest of its buffer; numbers multiply; the returned tag is MATR exactly when a matrix is involved |
| ElemOp.ElemDiv | src/elemop.c:79-84 | a COMP lhs is divided by rhs's value; any other lhs has its entries scaled in place by `1 / rhs`; `elem_div` of src/elem_operations.c:74-79 is the same |
| ElemOp.InvertAsWritten | src/main.c:195-198 | the inversion followed by the release of the old buffer: a failed inversion leaves the element on a released block |
| ElemOp.Invert | src/elemop.c:93-95 | corrected: the old buffer is released only when a new one came back, and success yields the inverse |
| ElemOp.CopyMatrix | src/elemop.c:99-101 | a fresh live buffer of exactly `rows * cols` entries with the same value |
| ElemOp.ProductValue | src/elemop.c:104 | a matrix whose every entry is the product's entry is the product |
| ElemOp.Times | src/matop.c:60-75 | the product of well-formed grids is a well-formed grid of lhs's rows and rhs's columns |
| ElemOp.MatPower | src/elemop.c:98-105 | n - 1 products by the base; exponents 0 and 1 leave the base |
| ElemOp.Power | src/elemop.c:98-105 | the loop leaves `MatPower(base, n)` in a fresh buffer and releases every intermediate buffer and the copy |
| ElemOp.Product | src/elemop.c:104 | one `mmul` of the loop puts the product lhs·rhs of two conformable matrices in a fresh buffer |
| ElemOp.ElemPow | src/elemop.c:86-106 | as written: COMP gives `cpow`; a negative exponent first inverts the matrix, releasing its buffer in every case, so a non-square or singular matrix makes the copy read a released block (undefined); otherwise the matrix, or its inverse, is raised to the whole part of the exponent's magnitude; `elem_pow` of src/elem_operations.c:81-106 is the same |
| ElemOperations.ElemAdd | src/elem_operations.c:18-33 | different tags throw ERR_TYPE_MISMATCH before anything changes; otherwise as in src/elemop.c, both buffers released |
| ElemOperations.ElemSub | src/elem_operations.c:35-50 | like `ElemAdd` with `msub`; rhs's buffer is released too |
| ElemOperations.ElemMul | src/elem_operations.c:52-72 | like src/elemop.c, except that matrix·matrix also releases rhs's buffer |
| RealSpec.FoldFrom | src/evalfn.c:26-41 | the fold loop keeps the stack's length, or is undefined on a non-number |
| RealSpec.Fold | src/evalfn.c:26-41 | a fold keeps the machine's shape, never moves the cursor back and leaves the history alone |
| RealSpec.CollapseFrom | src/evalfn.c:43-57 | the pop loop stops at or below the top |
| RealSpec.Collapse | src/evalfn.c:43-57 | `=`, `<`, `>` keep the machine's shape and the history |
| RealSpec.Overwrite | src/evalfn.c:59-68 | the one-argument functions keep the machine's shape and the history |
| RealSpec.Scale | src/evalfn.c:70-74 | `m`, radian and degree conversion keep the machine's shape and the history |
| RealSpec.TwoChar | src/evalfn.c:76-86 | the hyperbolic, arc and log families keep the machine's shape and the history |
| RealSpec.IntFnAsWritten | src/evalfn.c:105-117 | `i` as written keeps the machine's shape and the history |
| RealSpec.IntFn | src/evalfn.c:105-117 | corrected `i` (not run by the machine) keeps the machine's shape and the history |
| RealSpec.Push | src/evalfn.c:23 | `PUSH` keeps the machine's shape and the history |
| RealSpec.Number | src/evalfn.c:95-98 | a literal keeps the machine's shape and the history |
| RealSpec.SkipSpace | src/evalfn.c:100-103 | the first non-blank at or after i, all blank before it |
| RealSpec.Space | src/evalfn.c:100-103 | skipping blanks keeps the machine's shape and the history |
| RealSpec.Const | src/evalfn.c:93 | `\` as written, reading the table as `get_const` indexes it, keeps the machine's shape and the history |
| RealSpec.LoadVar | src/evalfn.c:148-152 | `$` keeps the machine's shape and the history |
| RealSpec.StoreVar | src/evalfn.c:154 | `&` keeps the machine's shape and the history |
| RealSpec.End | src/evalfn.c:156 | `,` and `;` keep the machine's shape and the history |
| RealSpec.GroupBegin | src/evalfn.c:158-161 | `(` keeps the machine's shape and the history |
| RealSpec.GroupEnd | src/evalfn.c:163-167 | `)` keeps the machine's shape and the history |
| RealSpec.SysFn | src/evalfn.c:119-138 | `@` keeps the machine's shape and the history; `@r` consumes one draw of `rand()` |
| RealSpec.TableSegments | src/evalfn.c:169-265 | in `eval_table`, entry i starts a number exactly for the ten digit entries, and skips blanks exactly for ' ' |
| RealSpec.Table | src/evalfn.c:169-265 | digits, and only digits, start a number; only the blank skips blanks |
| RealSpec.Dispatch | src/evalfn.c:169-265 | every handler as written (`i` through `IntFnAsWritten`, `\` through `get_const`'s own index) keeps the machine's shape, never moves the cursor back and leaves the history alone |
| RealSpec.Handle | src/evalfn.c:278-279 | one dispatch through the table, to the handlers as written, does the same |
| RealSpec.Finish | src/evalfn.c:280-283 | the run ends with the top when it is a number (else undefined); it is appended to the history exactly when `histi < BUFSIZE`, and the registers stay |
| RealSpec.Start | src/evalfn.c:272-277 | a fresh call on a non-empty buffer is a well-formed machine with every slot uninitialised |
| RealSpec.Eval1 | src/evalfn.c:59-68 | `fabs` is non-negative; `floor`, `ceil` and `round` give whole numbers within one of the argument, `round` taking halfway cases away from zero |
| RealSpec.Eval2 | src/evalfn.c:105-117 | `gcd` and `lcm` are undefined exactly when an operand does not convert to `unsigned long`; a gcd is a non-negative whole number |
| RealLaws.FoldFromValues | src/evalfn.c:26-41 | over a group of numbers, the fold loop leaves the folded value in `rbp[1]` and changes nothing else |
| RealLaws.FoldGroup | src/evalfn.c:26-41 | a fold over a group of numbers combines `rbp[1]` with the top first and then downwards, and ends with `rsp == rbp + 1` |
| RealLaws.FoldDownPlus | src/evalfn.c:26-31 | folding with `+` adds the values up |
| RealLaws.PlusSumsGroup | src/evalfn.c:26-31 | `+` leaves the group's sum on top and keeps every slot at or below the base |
| RealLaws.CollapseFromValues | src/evalfn.c:43-57 | the pop loop reaches `rbp + 1` exactly when every adjacent pair satisfies the relation |
| RealLaws.CompareGroup | src/evalfn.c:43-57 | `=`, `<`, `>` collapse a group of numbers into one slot holding 1 iff every adjacent pair satisfies the relation, 0 otherwise |
| RealLaws.CompareEmptyGroup | src/evalfn.c:43-57 | a comparison on an empty group pushes 0 |
| RealLaws.GroupRoundTrip | src/evalfn.c:158-167 | `(`, a push and `)` restore the base and leave the pushed value one slot above the old top |
| RealLaws.ScaleRoundTrip | src/evalfn.c:70-74 | `r` then `d`, `d` then `r`, and `m` twice each give the machine back unchanged |
| RealLaws.RegisterRoundTrip | src/evalfn.c:148-154 | `&c` stores the top without popping, and a later `$c` pushes it back |
| RealLaws.LoadVarPanics | src/evalfn.c:148-152 | `$` followed by neither a digit nor a lower-case letter panics with ERR_CHAR_NOT_FOUND |
| RealLaws.DuplicateTop | src/evalfn.c:127-130 | `@p` pushes a copy of the top |
| RealLaws.PickSlot | src/evalfn.c:131-133 | `@s` replaces a whole top value n by the value n + 1 slots below it |
| RealLaws.RandomDraws | src/evalfn.c:134-136 | `@r` writes the draw numbered by the store's counter over the top and advances the counter, so two draws in a run are distinct calls |
| RealLaws.CutEndsRun | src/evalfn.c:156 | `,` and `;` cut the input, so the run ends at the next step |
| RealLaws.RunHistory | src/evalfn.c:280-281 | a finished run appends its result to the history exactly when there is room; otherwise the history is unchanged |
| RealLaws.GcdOfTwo | src/evalfn.c:105-117 | the corrected `ig` pops the top and leaves gcd(below, top) |
| RealLaws.GcdSame | src/arthfn.c:8-13 | gcd(n, n) is n |
| RealLaws.GcdAsWrittenIgnoresOperand | src/evalfn.c:105-109 | `ig` as written replaces the top x by gcd(x, x), its truncation, and ignores the value below |
| RealLaws.GcdCounterexample | src/evalfn.c:105-117 | with 12 and 18 on the stack, as written `ig` leaves 18; the corrected one leaves 6 |
| RealLaws.HandleGcdAsWritten | src/evalfn.c:105-117 | through the dispatch, `ig` on 12 and 18 leaves 18 on top and 12 below, popping nothing |
| RealLaws.ConstLowerCaseStuck | src/phyconst.c:62 | `\` followed by a lower-case letter makes the run undefined |
| RealLaws.RunNext | src/evalfn.c:278-279 | a handler that leaves a next state continues the run one character further on |
| RealLaws.TableEntries | src/evalfn.c:169-265 | `+`, `*`, `$`, `&`, `,` and `;` dispatch to their handlers |
| RealLaws.StepDigit | src/evalfn.c:95-98 | a single digit followed by a blank pushes its value |
| RealLaws.StepBlank | src/evalfn.c:100-103 | a blank is skipped |
| RealLaws.StepFold | src/evalfn.c:26-41 | a fold operator over a group of numbers continues the run from the folded state |
| RealLaws.StepStore | src/evalfn.c:154 | `&c` stores the top in register c and the run continues after c |
| RealLaws.StepLoad | src/evalfn.c:148-152 | `$c` pushes register c and the run continues after c |
| RealLaws.SampleStore | src/evalfn.c:287 | "5 6 + &x" evaluates to 11 and leaves 11 in register x |
| RealLaws.SampleLoad | src/evalfn.c:288 | with 11 in register x, "$x 2 *" evaluates to 22 |
| RealLaws.SampleSession | src/evalfn.c:286-289 | the two runs of the unit test in sequence give 11, then 22 |
| EvalFn.RealEvaluator.constructor | src/evalfn.c:272-277 | the buffer, an uninitialised stack and both pointers on slot 0: the `RealSpec` start state |
| EvalFn.RealEvaluator.Push | src/evalfn.c:23 | ends in the state `RealSpec.Push` computes |
| EvalFn.RealEvaluator.FoldOnce | src/evalfn.c:28 | one `rbp[1] op= POP` leaves the same fold ahead, one slot lower, or fails exactly where the fold is undefined |
| EvalFn.RealEvaluator.Fold | src/evalfn.c:26-41 | ends in the state `RealSpec.Fold` computes |
| EvalFn.RealEvaluator.Collapse | src/evalfn.c:43-57 | ends in the state `RealSpec.Collapse` computes |
| EvalFn.RealEvaluator.Overwrite | src/evalfn.c:59-68 | ends in the state `RealSpec.Overwrite` computes |
| EvalFn.RealEvaluator.Scale | src/evalfn.c:70-74 | ends in the state `RealSpec.Scale` computes |
| EvalFn.RealEvaluator.TwoChar | src/evalfn.c:76-86 | ends in the state `RealSpec.TwoChar` computes |
| EvalFn.RealEvaluator.IntFn | src/evalfn.c:105-117 | ends in the state `RealSpec.IntFnAsWritten` computes: the top is both operands and nothing is popped |
| EvalFn.RealEvaluator.Number | src/evalfn.c:95-98 | ends in the state `RealSpec.Number` computes |
| EvalFn.RealEvaluator.Space | src/evalfn.c:100-103 | ends in the state `RealSpec.Space` computes |
| EvalFn.RealEvaluator.Const | src/evalfn.c:93 | ends in the state `RealSpec.Const` computes: a lower-case letter reads outside the table and is undefined |
| EvalFn.RealEvaluator.LoadVar | src/evalfn.c:148-152 | ends in the state `RealSpec.LoadVar` computes |
| EvalFn.RealEvaluator.StoreVar | src/evalfn.c:154 | ends in the state `RealSpec.StoreVar` computes |
| EvalFn.RealEvaluator.End | src/evalfn.c:156 | ends in the state `RealSpec.End` computes |
| EvalFn.RealEvaluator.GroupBegin | src/evalfn.c:158-161 | ends in the state `RealSpec.GroupBegin` computes |
| EvalFn.RealEvaluator.GroupEnd | src/evalfn.c:163-167 | ends in the state `RealSpec.GroupEnd` computes |
| EvalFn.RealEvaluator.SysFn | src/evalfn.c:119-138 | ends in the state `RealSpec.SysFn` computes; `@r` writes the next of the library's draws over the top and counts it |
| EvalFn.RealEvaluator.Step | src/evalfn.c:279 | one dispatch ends in the state `RealSpec.Handle` computes, with the handlers as written |
| EvalFn.RealEvaluator.Finish | src/evalfn.c:280-283 | returns `RealSpec.Finish`: the top, recorded in the history while there is room |
| EvalFn.RealEvaluator.Advance | src/evalfn.c:278-279 | one loop turn either ends with the outcome of the whole run, or moves the cursor forward with the same outcome still ahead |
| EvalFn.RealEvaluator.Eval | src/evalfn.c:278-283 | the loop returns `RealSpec.Run` of the start state, the program as written |
| EvalFn.EvalExprReal | src/evalfn.c:272-284 | `eval_expr_real` returns the outcome `RealSpec.EvalExprReal` describes, for the program as written |
| ComplexEval.Runtime.constructor | src/main.c:149 | zeroed history and registers, with `histi` one before slot 0 (`~0UL`) |
| ComplexEval.Push | src/main.c:171-172 | a push exists iff there is a slot above the top, and keeps the registers well formed |
| ComplexEval.Open | src/main.c:175-178 | `(` exists iff there is a slot above the top |
| ComplexEval.Close | src/main.c:179-183 | `)` keeps the registers well formed |
| ComplexEval.GroupRoundTrip | src/main.c:175-183 | `(`, one push and `)` restore the base and leave the element one slot above the old top |
| ComplexEval.PushValueAsWritten | src/main.c:270 | as written, the value goes in but the slot keeps its previous tag |
| ComplexEval.ConstantKeepsStaleTag | src/main.c:281 | on a fresh stack, `\P` as written leaves pi under the zero tag; the corrected push tags it COMP |
| ComplexEval.MapTop | src/main.c:190-244 | the top's value is replaced and its tag kept, exactly when the top holds a number |
| ComplexEval.NegateAndTimesI | src/main.c:239-244 | `m` negates, and `i` applied twice negates |
| ComplexEval.RadianDegree | src/main.c:233-238 | `r` then `d` gives the stack back |
| ComplexEval.MapPair | src/main.c:229-249 | `L` and `p` pop the top and replace the value below, iff both hold numbers |
| ComplexEval.Effect | src/main.c:175-249 | a local action keeps the registers well formed; blanks and unknown characters change nothing; `(` needs a slot above the top; a map needs a number on top; maps keep the base |
| ComplexEval.NumFoldFirst | src/main.c:185-189 | the first value of a fold is combined last |
| ComplexEval.FoldSum | src/main.c:185 | `+` folds a group into its sum |
| ComplexEval.FoldDifference | src/main.c:186 | `-` folds a group into its first value minus the sum of the others |
| ComplexEval.FoldNumbers | src/main.c:185-189 | the fold of a number group keeps the base |
| ComplexEval.FoldTop | src/main.c:185-189 | one step combines the top into the group's first slot and pops it |
| ComplexEval.FoldedToEnds | src/main.c:185-189 | the partial fold starts as the group and ends as `FoldNumbers` |
| ComplexEval.FoldedToStep | src/main.c:185-189 | each loop step moves the partial fold down one slot |
| ComplexEval.FlagAsWritten | src/main.c:201 | as written, only the real part is set to the flag; the tag and the imaginary part stay; undefined unless the slot holds a number |
| ComplexEval.Flag | src/main.c:201 | corrected (not run by the evaluator): the flag is the complex number 1 when the scan reached the first slot and 0 otherwise, with no imaginary part |
| ComplexEval.FlagKeepsImaginaryPart | src/main.c:199-203 | `2i =` as written leaves 1+2i where the flag is 1 |
| ComplexEval.ElemEqual | src/main.c:431-445 | the `eq` overload: different tags are unequal; REAL, COMP and MATR are compared by the overload of their payload (for MATR the matrix `eq`, a parameter), defined exactly when both union members hold that kind; LAMB is not modelled |
| ComplexEval.ElemEqualAgreesWithElemEq | src/main.c:431-445 | the `eq` overload gives `elem_eq`'s answer on COMP numbers and on different tags, and on live matrices whenever the matrix `eq` answers as `meq` |
| ComplexEval.RunEqual | src/main.c:200 | the scan of `=` ends with true exactly when every neighbouring pair from the top down to the first slot is equal |
| ComplexEval.Record | src/main.c:307-314 | corrected: the result is appended whole after `histi` while that slot is inside the history, releasing a matrix it held; from slot 63 the full history is left as it is; None exactly when the slot's matrix is not live |
| ComplexEval.NextIndex | src/main.c:309 | `++histi` in `size_t`: one more, or 0 after `~0UL` |
| ComplexEval.WriteBackAsWritten | src/main.c:307-314 | as written: a matrix goes whole to `++histi`, undefined past the history; a number only while `histi < buf_size`, as a value under the slot's old tag, undefined at slot 64; otherwise nothing changes; the registers stay |
| ComplexEval.RecordAsWritten | src/main.c:307-314 | the write-back as written, and a matrix stored over a slot that held one releases that slot's buffer, which must be live |
| ComplexEval.FirstResultNotRecorded | src/main.c:312-313 | from `histi = ~0UL`, as written a number result is not recorded; the bounded append records it in slot 0 |
| ComplexEval.LastSlotOverrun | src/main.c:312-313 | with `histi == 63`, as written a number is written one past the history (undefined); the bounded append leaves the full history alone |
| ComplexEval.StrToL | src/main.c:157 | `strtol` stays inside the buffer and the range of `long`, and stops on a non-digit |
| ComplexEval.ToSizeT | src/main.c:157 | `(size_t)` keeps a non-negative long and adds 2^64 to a negative one |
| ComplexEval.SizeOfReal | src/main.c:260 | `(size_t)x` is the whole part of x, or undefined |
| ComplexEval.IntOfReal | src/main.c:273 | `(int)x` truncates toward zero, or is undefined |
| ComplexEval.SampleLiteralShape | src/main.c:339 | `[2 1,2,3,4,]` declares 2 columns and holds 4 entries, so it is 2 by 2 |
| ComplexEval.HistoryIndex | src/main.c:259-261 | `@h` reads a slot inside the history |
| ComplexEval.StackIndex | src/main.c:272-274 | `@s` reads a slot inside the stack |
| ComplexEval.RecordedThenRead | src/main.c:253-261 | right after the corrected append records a result, `@h` of 0 reads it back, as `@a` does |
| ComplexEval.StackIndexZero | src/main.c:272-274 | `@s` of 0 reads the slot just below the top |
| ComplexEval.Act | src/main.c:151-304 | the switch: `[` starts a literal, digits a number, and `a h @ \ $ &` take the next character, with a terminator there leaving the loop's increment past the string |
| ComplexEval.FillMatrix | src/main.c:155-163 | the literal's buffer: `MAT_INITSIZE` entries (include/matop.h:9) holding the entries from the start and zeros after them, the matrix being its first `rows * cols` entries |
| ComplexEval.Operate | src/main.c:185-189 | the fold operators apply the element operations, which on two COMP numbers give `Combine` |
| ComplexEval.Frame.constructor | src/main.c:146-149 | a zeroed stack, both indices on slot 0, a copy of the runtime information |
| ComplexEval.Frame.PushNumber | src/main.c:170-174 | pushes the value `strtod` reads, as COMP, with the cursor on the literal's last character |
| ComplexEval.Frame.OpenGroup | src/main.c:175-178 | ends in `Open` of the old stack, undefined exactly when `Open` is |
| ComplexEval.Frame.CloseGroup | src/main.c:179-183 | ends in `Close` of the old stack, undefined exactly when `Close` is |
| ComplexEval.Frame.Overwrite | src/main.c:190-244 | ends in `MapTop` of the old stack, undefined exactly when it is |
| ComplexEval.Frame.Pairwise | src/main.c:229-249 | ends in `MapPair` of the old stack, undefined exactly when it is |
| ComplexEval.Frame.FoldStep | src/main.c:185-189 | one step of the fold loop on a number group is `FoldTop` |
| ComplexEval.Frame.FoldLoop | src/main.c:185-189 | the fold loop on a number group reaches `FoldNumbers` |
| ComplexEval.Frame.Fold | src/main.c:185-189 | a fold operator over a number group leaves `FoldNumbers` of the stack |
| ComplexEval.Frame.Collapse | src/main.c:199-203 | `=` is undefined exactly when the scan or the flag write reads what C leaves undefined; otherwise the first slot becomes the top and holds `FlagAsWritten` of whether every neighbouring pair is equal |
| ComplexEval.Frame.InvertTop | src/main.c:195-198 | `~` releases the top's buffer in every case; a non-square top stays on the released buffer; without a wrapped pivot search the new live buffer holds the inverse |
| ComplexEval.Frame.SetSlot | src/elemop.c:13-18 | `elem_set` onto a stack slot: the slot takes the source whole, releasing the matrix it held |
| ComplexEval.Frame.PushCopy | src/main.c:254 | `elemSet(++rsp, src)` is a `Push` of the source |
| ComplexEval.Frame.Ans | src/main.c:253-255 | `@a` pushes the latest result, and is undefined when `histi` is outside the history |
| ComplexEval.Frame.HistoryAt | src/main.c:259-261 | `@h` replaces the top by the history slot `HistoryIndex` names |
| ComplexEval.Frame.StackAt | src/main.c:272-274 | `@s` replaces the top by the stack slot `StackIndex` names |
| ComplexEval.Frame.Random | src/main.c:269-271 | `@r`: one generator step, whose value is pushed as `PushValueAsWritten` states, under the slot's old tag |
| ComplexEval.Frame.System | src/main.c:251-278 | `@n` pushes NaN, `@p` pushes a copy of the top, and unknown letters change nothing |
| ComplexEval.Frame.Constant | src/main.c:280-282 | `\`: the constant `get_const` reads, pushed under the slot's old tag; undefined for a letter outside the table |
| ComplexEval.Frame.Load | src/main.c:284-289 | `$c` pushes register c for a lower-case c; anything else is ignored |
| ComplexEval.Frame.Store | src/main.c:291-293 | `&c` sets register c to the top, releasing the matrix it held; undefined unless c is a lower-case letter |
| ComplexEval.Frame.PushMatrix | src/main.c:155-163 | pushes a fresh MATR of the given shape on a `MAT_INITSIZE` buffer that starts with the entries, each the value of its nested result, and is zero after them |
| ComplexEval.Frame.Literal | src/main.c:152-165 | a literal pushes a fresh live MATR whose columns are the `strtol` count and whose rows are the entry count divided by it; its `MAT_INITSIZE` buffer holds the values of the nested results in the order of the text, then zeros; the cursor ends on `]` |
| ComplexEval.Frame.Rearrange | src/main.c:175-249 | a local action ends in `Effect` of the old stack |
| ComplexEval.Frame.Produce | src/main.c:170-293 | a load keeps the history and its index, releases no more than it had, and leaves the cursor before the terminator |
| ComplexEval.Frame.Reduce | src/main.c:151-203 | a group action or literal keeps the frame's runtime information; a fold over numbers ends in `FoldNumbers` |
| ComplexEval.Frame.Step | src/main.c:151-304 | one loop turn: finishes exactly at `,`/`;`; a local action ends in its `Effect`; a fold over numbers ends in `FoldNumbers` |
| ComplexEval.Frame.Run | src/main.c:151-316 | the loop changes only the registers of the frame's copy of the runtime information; a result is well formed and the written-back information is `WriteBackAsWritten` of it |
| ComplexEval.Frame.End | src/main.c:307-315 | the top is recorded as `RecordAsWritten` states, the blocks it displaces are released, and the information is written back |
| ComplexEval.Entry | src/main.c:159-160 | a nested evaluation whose result is written back as written; the entry is its complex value; then the cursor moves past the next ',' |
| ComplexEval.Entries | src/main.c:158-161 | each entry is the complex value of its nested result; on success the cursor is on `]` and one entry was read per entry start; more than `MAT_INITSIZE` (32) entries fail |
| ComplexEval.EvalExprComplex | src/main.c:146-316 | a result is well formed; the runtime information becomes `WriteBackAsWritten` of the old one, with the registers `&` set, and the result |

## Left out

- Terminal input and output: `handleEs`, `nrmbind`, `editline`, `get_winsz`, `disperr`/`dispErr` messages and the `@d` printout. These are I/O, and a diagnostic is modelled only as the status it leaves.
- `rpx_callfn` (user functions): calling one ends the real-mode run with `Foreign`, because the functions' definitions live in runtime state not modelled here.
- `rpx_logbase`: it has no entry in `eval_table`, so it is unreachable.
- `permutation` and `combination` (src/arthfn.c:38-44): `tgamma` is an uninterpreted library function, so `Eval2` passes them through it unproved.
- `isint` (src/chore.c:27-33): it inspects the IEEE bit pattern of a double, which exact reals do not have.
- `ealloc`/`palloc` failures: an allocation is taken to succeed.
- `det` and `NAN_matrix` (src/matop.c:8-13, 81-108) are not called by the evaluators.
- Floating point: doubles are exact reals. Rounding, NaN and infinities are not represented, and libm, complex `<tgmath.h>`, `eq`, division by zero and `rand()` are parameters. `@n` pushes the parameter's NaN.
- Rand.Unit: the division by `(double)~(uint64_t)0` is taken over the reals, dividing by 2^64; the rounding of the numerator is not modelled.
- Strtod.Parse: reads the exact value of the literal; `strtod`'s rounding to the nearest double is not modelled.
- `evalExprComplex` test tables (src/main.c:319-373): they are not stated as whole-run lemmas. Their pieces are: the literal's shape (`SampleLiteralShape`), the product (`MMul`), the inverse (`SampleInverse`) and the folds (`FoldSum`).
- LAMB elements (strings) and the `_` cleanup macro's ordering beyond the release it performs: strings are not modelled.
- ComplexEval.Frame.Step: its contract states the effect of local actions and number folds only; loads and literals are stated by their own methods.
- The statuses that element operations report (a type mismatch) are ignored by the evaluator, as in the C code; only an undefined outcome ends the evaluation.
- MatOp.NewMatrix: a fresh buffer is taken to be zero-filled. `NewMatrixAsWritten`, `MMulAsWritten` and `JunkShowsThrough` state what the unspecified `malloc` contents do.
- MatOp.InverseMatrix: the result is proved to be the inverse only when no pivot search wrapped past the last row. After a wrapped search it is proved only that `result·A0` is A divided by its diagonal.
- ComplexEval.Entries: the literal's buffer holds `MAT_INITSIZE` = 32 entries (include/matop.h:9); one more is undefined in C and fails here.
- ComplexEval.FillMatrix: `zalloc` and `mat_init_size` are not defined in the files modelled; `zalloc(complex, mat_init_size)` is taken to allocate `MAT_INITSIZE` zeroed entries.
- EditLine.HandleTxtObj: `w` uses the corrected `Bwdw`, which never reads before the line.
- ElemOp.ElemPow: the exponent's whole part must convert to `unsigned long long`; otherwise the operation is undefined.
- ComplexEval.ElemEqual: the matrix overload `eq(matrix_t const *, matrix_t const *)` is declared in include/matop.h:28 but its body is not part of this model, so its answer is the parameter `meq`.
- `rand()`'s hidden state: the real-mode store carries a count of the draws made so far, which `rtinfo` does not have; draw n is the parameter `rand(n)`.
- `skipSpaces`, `skipUntilComma`, `elemEq`, `getConst`, `xorsh0to1`, `inverseMatrix`, `elemSet`, `elem_Add`, `elem_Sub`, `elem_Mul`, `elem_Div` and `elem_Pow` are called in src/main.c and src/editline.c (the last five through `OP_CASE_ELEM`, include/main.h:11-14) but not defined in the files modelled; they are taken to be `skipspcs`, `skip_untilcomma`, `elem_eq`, `get_const`, `xorsh_0_1`, `inverse_matrix`, `elem_set`, `elem_add`, `elem_sub`, `elem_mul`, `elem_div` and `elem_pow`.
- ComplexEval.Frame.Literal: an entry is stated only as the value of its nested result; what that result is comes from `EvalExprComplex`'s own contract, not from a whole-run function.

## Findings

| source | as written | input that shows it | evidently intended | confidence | as-written member | corrected member |
|---|---|---|---|---|---|---|
| src/editline.c:154-164 | `bwdw` tests `*(*cur - 1)` before `*cur != buf`, and the blank loop has no lower bound | "sample text." from 7: the word loop reaches `buf` and reads `buf[-1]` | stop at the start of the line | not executed | EditLine.WordBackReadsBeforeLine | EditLine.Bwdw |
| src/editline.c:318 | the guard aborts only when `slen > margin` | inserting exactly `margin` characters puts the terminator one past the buffer | abort unless the string and its terminator fit | not executed | EditLine.InsertsOverrun | EditLine.InsertS |
| src/editline.c:70 | `deletes` copies the tail with `memcpy` onto an overlapping range | deleting 1 of 3 characters: the tail of 2 overlaps the destination | `memmove` | not executed | EditLine.DeletesCopyOverlaps | EditLine.Deletes |
| src/matop.c:61 | the dimension check needs both inequalities (`&&`) | a 2×3 by 2×2 product is not reported, and the k loop reads a row rhs lacks | report when `lhs.cols != rhs.rows` | not executed | MatOp.MMulCheckMisses | MatOp.MMul |
| src/matop.c:18 | `new_matrix` uses `malloc`, and `mmul` adds onto its contents | any non-zero leftover in the buffer shows through in the product | a zero-filled buffer | not executed | MatOp.JunkShowsThrough | MatOp.MMul |
| src/evalfn.c:105-109 | `ig` computes `f(*rsp, *rsp)` and pops nothing | 12 and 18 on the stack: `ig` leaves 18 where gcd is 6 | `x = POP; *rsp = f(*rsp, x)` | not executed | RealLaws.GcdCounterexample | RealLaws.GcdOfTwo |
| src/phyconst.c:62 | lower-case index `c - ('a' - 'Z' - 1)` is `c - 6` | `\a` reads slot 91 of a 52-slot table | `c - 'a' + 26` | not executed | PhyConst.LowerCaseOutOfTable | PhyConst.GetConst |
| src/main.c:195-198 | the old buffer is released even when `inverse_matrix` fails and returns it | `~` on a singular matrix leaves the top on a released buffer | release only when a new buffer came back | not executed | ElemOp.InvertAsWritten | ElemOp.Invert |
| src/elemop.c:92-99 | `elem_pow` releases the old buffer even when `inverse_matrix` fails and returns it, then copies from it (src/elem_operations.c:86-98 likewise) | a 1×3 matrix raised to -1: the `memcpy` reads the released buffer | release only when a new buffer came back | not executed | ElemOp.ElemPow | ElemOp.Invert |
| src/main.c:281 | `\` and `@r` write `.comp` without setting the tag | `\P 2 /` on a fresh stack: the slot keeps tag 0 and `elem_div` takes it for a matrix | push a COMP element | not executed | ComplexEval.ConstantKeepsStaleTag | ComplexEval.Push |
| src/main.c:201 | `=` writes only `.real` of the first slot | `2i =` leaves 1+2i instead of 1 | store a COMP 0 or 1 | not executed | ComplexEval.FlagKeepsImaginaryPart | ComplexEval.Flag |
| src/main.c:312-313 | a number is recorded only when `histi < buf_size`, at `++histi` | from `histi = ~0UL` nothing is recorded; from 63 slot 64 is written | a bounded append: the whole element at `histi + 1` while that is below `buf_size`, starting from `~0UL` | not executed | ComplexEval.LastSlotOverrun | ComplexEval.Record |
