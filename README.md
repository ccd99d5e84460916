# Fractions and matrices, modelled in Dafny

This project models a small C++ library with three parts:

- **`Fraction`**: a pair of `int`s, a numerator and a denominator. Every arithmetic operator (`+ - * /`, their compound forms, the versions taking an `int` on either side) combines the two pairs by cross-multiplication and then calls `reduce()`. `reduce()` divides both fields by their Euclidean `gcd` and moves a negative sign to the numerator.
- **The older `Matrix<T>` template**: a heap-allocated `rows` × `cols` block of cells. It provides:
  - construction, copy and assignment;
  - identity and transpose;
  - a recursive first-row Laplace expansion for the determinant;
  - equality;
  - `+ - *` and their compound forms;
  - scalar `*` and `/`;
  - a text rendering.
- **The fixed-size `Matrix<R, C, T>` template**: its order is fixed at compile time. It provides `rows()`, `cols()`, a zero constructor, `identity()` and a rendering.

How the library's concepts are modelled:

- C++ integer `/` and `%` truncate toward zero. They are `Ints.TruncDiv` and `Ints.TruncRem`, and their contracts give the C++ rules.
- A fraction's two fields are the datatype `FractionMath.Frac`. Each operator's effect on the pair is a function: `Reduced`, `Sum`, `SumInt`, `Difference`, `Product`, `Quotient`, and so on. Each function is proved against an independent reference: the rational number `Value(v) = num / den` in Dafny's `real`.
  - The proofs show the result of every operator is in canonical form. That means denominator positive and the two fields coprime.
  - They also show it has the value the arithmetic promises.
- The class `Fractions.Fraction` has the two fields. Its methods update them in place, and each method's contract ties the new pair to the function above.
- `gcd` is a method with its loop.
- A matrix's cells are an `array2<int>` in both classes. The element type `T` is `int`. `Grids` gives each matrix operation as a function on `seq<seq<int>>`:
  - `Added`, `Negated`, `Scaled`, `Multiplied`, `Transposed`, `IdentityGrid`;
  - `Dot`, which sums in the order of the innermost loop.
- Each matrix method's contract ties `Cells()` after the call to one of those functions. The lemmas in `Grids` and `Determinants` state the algebra those functions obey.
- `Determinants.Det` is the determinant exactly as `lapLaceDeterminant` defines it:
  - order 0 gives 0;
  - order 1 gives the single cell;
  - order 2 uses the cross formula;
  - from order 3 up, the first-row cofactor expansion.
- Stream output becomes a returned `string`, specified by `GridText.Separated` (older template) and `GridText.Terminated` (fixed-size template).

Modules, one per file:
- `Ints` (`ints.dfy`)
- `Decimal` (`decimal.dfy`)
- `FractionMath` (`fraction_math.dfy`)
- `Fractions` (`fraction.dfy`)
- `Grids` (`grids.dfy`)
- `Determinants` (`determinant.dfy`)
- `GridText` (`grid_text.dfy`)
- `MatrixOld` (`matrix_old.dfy`)
- `MatrixFixed` (`matrix_fixed.dfy`)

## Model

| member | source | states |
|---|---|---|
| Ints.TruncDiv | src/fraction.cpp:73-74 | C++ `/` on `int`: the magnitude of the quotient is the magnitude of the dividend divided by that of the divisor, and its sign is positive only for operands of equal sign (it truncates toward zero) |
| Ints.TruncRem | src/fraction.cpp:16 | C++ `%`: `a == b * (a / b) + r`, `r` is smaller than `b` in magnitude, and a non-zero remainder has the sign of the dividend |
| Ints.TruncDivExact | src/fraction.cpp:73-74 | when `s` divides `n`, truncating division is exact: `n == s * (n / s)` |
| Decimal.IntToString | src/fraction.cpp:277 | what `os << int` writes: a non-empty string of digits with a leading `-` exactly when the number is negative, no `-0`, and no leading zero except for 0 itself |
| Decimal.NatToString | src/fraction.cpp:277 | the digits of a natural number: at least one, all decimal digits, and the first is `0` exactly for the number 0, so there is no leading zero |
| Decimal.IntToStringRoundTrip | src/fraction.cpp:277 | reading back what `os << i` writes gives `i` for every integer |
| Decimal.NatToStringRoundTrip | src/fraction.cpp:277 | the decimal digits written for a natural number have that number as value |
| FractionMath.GcdDividesBoth | src/fraction.cpp:11-22 | the value `gcd(a, b)` returns divides both `a` and `b` |
| FractionMath.GcdGreatest | src/fraction.cpp:11-22 | every common divisor of `a` and `b` divides `gcd(a, b)`, so it is a greatest common divisor (up to sign) |
| FractionMath.GcdZero | src/fraction.cpp:11-22 | `gcd(a, b)` is 0 exactly when both arguments are 0, the only case in which `reduce()` takes its early exit |
| FractionMath.GcdCanBeNegative | src/fraction.cpp:11-22 | with truncating `%` the result can be negative: `gcd(-1, 2) == -1`, which is why `reduce()` must fix the sign afterwards |
| FractionMath.GcdBezout | src/fraction.cpp:11-22 | `gcd(a, b)` is an integer combination `p*a + q*b` of its arguments |
| FractionMath.ReducedCanonical | src/fraction.cpp:64-82 | for a non-zero denominator `reduce()` leaves a positive denominator coprime with the numerator |
| FractionMath.ReducedSameRatio | src/fraction.cpp:64-82 | `reduce()` keeps the ratio of the two fields (cross products equal), for every pair including a zero denominator |
| FractionMath.ReducedValue | src/fraction.cpp:64-82 | `reduce()` keeps the rational value of the fraction |
| FractionMath.ReducedCorrect | src/fraction.cpp:64-82 | `reduce()` gives the canonical fraction with the same value |
| FractionMath.ReducedZero | src/fraction.cpp:64-82 | a zero numerator reduces to `0/1` whatever the denominator |
| FractionMath.ReducedFixpoint | src/fraction.cpp:64-82 | `reduce()` leaves a fraction unchanged exactly when it is already canonical (both directions) |
| FractionMath.ReduceIdempotent | src/fraction.cpp:64-82 | reducing twice is reducing once |
| FractionMath.ValueCross | include/fraction.hpp:46-49 | two fractions have the same value exactly when their cross products agree |
| FractionMath.SumCorrect | src/fraction.cpp:103-113 | `a += f` leaves a canonical fraction whose value is the sum of the values |
| FractionMath.SumIntCorrect | src/fraction.cpp:122-131 | `a += s` leaves a canonical fraction whose value is `a + s` |
| FractionMath.DifferenceCorrect | src/fraction.cpp:145-155 | `a -= f` leaves a canonical fraction whose value is the difference of the values |
| FractionMath.DifferenceIntCorrect | src/fraction.cpp:164-173 | `a -= s` leaves a canonical fraction whose value is `a - s` |
| FractionMath.ProductCorrect | src/fraction.cpp:192-202 | `a *= f` leaves a canonical fraction whose value is the product of the values |
| FractionMath.ProductIntCorrect | src/fraction.cpp:211-220 | `a *= s` leaves a canonical fraction whose value is `a * s` |
| FractionMath.QuotientCorrect | src/fraction.cpp:234-247 | `a /= f` for a non-zero `f` leaves a canonical fraction whose value is the quotient of the values |
| FractionMath.QuotientIntCorrect | src/fraction.cpp:256-268 | `a /= s` for `s != 0` leaves a canonical fraction whose value is `a / s` |
| FractionMath.NegCorrect | src/fraction.cpp:180-183 | unary minus negates the value, is its own inverse and keeps a canonical fraction canonical |
| FractionMath.InverseCorrect | src/fraction.cpp:50-55 | a fraction times its `inverse()` reduces to `1/1`, the inverse has the reciprocal value, and inverting twice gives the fraction back |
| FractionMath.EqualsIsValueEqualityWhenCanonical | src/fraction.cpp:91-94 | for canonical fractions the field-wise `==` holds exactly when the values are equal |
| FractionMath.EqualsIsStructural | src/fraction.cpp:91-94 | `==` compares fields, not values: `2/4` and `1/2` have the same value but are not `==` |
| FractionMath.RenderForms | src/fraction.cpp:275-284 | `<<` writes the numerator alone exactly when the numerator is 0 or the denominator 1, and writes a `/` exactly in the other cases |
| FractionMath.Render | src/fraction.cpp:275-284 | what `os << f` writes always begins with the decimal text of the numerator |
| FractionMath.RenderRoundTrip | src/fraction.cpp:275-284 | reading back what `<<` writes for a canonical fraction gives that fraction |
| Fractions.Gcd | src/fraction.cpp:11-22 | the Euclidean loop returns a common divisor of its arguments that every common divisor divides, and 0 only when both are 0 |
| Fractions.Fraction.Default | src/fraction.cpp:24-25 | the default fraction is `1/1` |
| Fractions.Fraction.FromInt | src/fraction.cpp:27-28 | an integer `n` becomes `n/1` |
| Fractions.Fraction.constructor | src/fraction.cpp:36-42 | stores the pair as given, unreduced; a zero denominator is refused |
| Fractions.Fraction.Copy | src/fraction.cpp:30-31 | the copy holds the same pair |
| Fractions.Fraction.Inverse | src/fraction.cpp:50-55 | for a non-zero numerator, a new fraction with the fields swapped and not reduced |
| Fractions.Fraction.Reduce | src/fraction.cpp:64-82 | the new fields are the reduced pair; from a non-zero denominator the fraction becomes canonical |
| Fractions.Fraction.Assign | src/fraction.cpp:84-89 | the fields become those of the operand |
| Fractions.Fraction.AddAssign | src/fraction.cpp:103-113 | the new pair is `Sum` of the old pairs, also for `x += x`; valid operands give a canonical result |
| Fractions.Fraction.Plus | src/fraction.cpp:96-101 | a new fraction holding `Sum` of the operands, neither of which changes |
| Fractions.Fraction.AddIntAssign | src/fraction.cpp:122-131 | the new pair is `SumInt` of the old pair and `s`, canonical for a valid fraction |
| Fractions.Fraction.PlusInt | src/fraction.cpp:115-120 | a new fraction holding `SumInt` of the operands |
| Fractions.Fraction.SubAssign | src/fraction.cpp:145-155 | the new pair is `Difference` of the old pairs, also for `x -= x`; valid operands give a canonical result |
| Fractions.Fraction.Minus | src/fraction.cpp:138-143 | a new fraction holding `Difference` of the operands |
| Fractions.Fraction.SubIntAssign | src/fraction.cpp:164-173 | the new pair is `DifferenceInt` of the old pair and `s`, canonical for a valid fraction |
| Fractions.Fraction.MinusInt | src/fraction.cpp:157-162 | a new fraction holding `DifferenceInt` of the operands |
| Fractions.Fraction.Negated | src/fraction.cpp:180-183 | a new fraction holding the negated pair |
| Fractions.Fraction.MulAssign | src/fraction.cpp:192-202 | the new pair is `Product` of the old pairs, also for `x *= x`; valid operands give a canonical result |
| Fractions.Fraction.Times | src/fraction.cpp:185-190 | a new fraction holding `Product` of the operands |
| Fractions.Fraction.MulIntAssign | src/fraction.cpp:211-220 | the new pair is `ProductInt` of the old pair and `s`, canonical for a valid fraction |
| Fractions.Fraction.TimesInt | src/fraction.cpp:204-209 | a new fraction holding `ProductInt` of the operands |
| Fractions.Fraction.DivAssign | src/fraction.cpp:234-247 | as written: for a distinct operand with a non-zero numerator the new pair is `Quotient` of the old pairs, canonical for valid operands; for `x /= x` it is `SelfQuotientAsWritten` |
| Fractions.Fraction.DivAssignCorrected | src/fraction.cpp:234-247 | reads the operand before writing, so the new pair is `Quotient` of the old pairs even for `x /= x` |
| Fractions.Fraction.Over | src/fraction.cpp:227-232 | a new fraction holding `Quotient` of the operands |
| Fractions.Fraction.DivIntAssign | src/fraction.cpp:256-268 | for `s != 0` the new pair is `QuotientInt` of the old pair and `s`, canonical for a valid fraction |
| Fractions.Fraction.OverInt | src/fraction.cpp:249-254 | a new fraction holding `QuotientInt` of the operands |
| Fractions.SelfQuotientCounterexample | src/fraction.cpp:239-240 | `x /= x` on `2/3` leaves `1/3`, while the quotient of `2/3` by itself is `1/1` |
| Fractions.SelfQuotientIsOne | src/fraction.cpp:234-247 | the quotient of any non-zero fraction by itself is `1/1` |
| Fractions.IntPlus | src/fraction.cpp:133-136 | `s + f` is a new fraction holding `f + s` |
| Fractions.IntTimes | src/fraction.cpp:222-225 | `s * f` is a new fraction holding `f * s` |
| Fractions.IntMinus | src/fraction.cpp:175-178 | as written, `s - f` is a new fraction holding `f - s` |
| Fractions.IntMinusIsReversed | src/fraction.cpp:175-178 | the value of `s - f` as written is the negation of `s - f` |
| Fractions.IntMinusCounterexample | src/fraction.cpp:175-178 | `1 - 0/1` as written is `-1/1` instead of `1/1` |
| Fractions.IntMinusCorrected | src/fraction.cpp:175-178 | `s - f` is a new fraction holding the difference of `s/1` and `f` |
| Fractions.IntMinusCorrectedValue | src/fraction.cpp:175-178 | the corrected `s - f` is canonical and has the value `s - f` |
| Fractions.IntOver | src/fraction.cpp:270-273 | as written, `s / f` is a new fraction holding `f / s` |
| Fractions.IntOverIsReversed | src/fraction.cpp:270-273 | the value of `s / f` as written is the reciprocal of `s / f` |
| Fractions.IntOverCounterexample | src/fraction.cpp:270-273 | `2 / (1/1)` as written is `1/2` instead of `2/1` |
| Fractions.IntOverCorrected | src/fraction.cpp:270-273 | `s / f` is a new fraction holding the quotient of `s/1` by `f` |
| Fractions.IntOverCorrectedValue | src/fraction.cpp:270-273 | the corrected `s / f` is canonical and has the value `s / f` |
| Grids.TransposeInvolution | include/matrix_old.hpp:251-263 | transposing twice gives the cells back |
| Grids.SubtractThenAdd | include/matrix_old.hpp:397-441 | subtracting (adding the negation) and adding back restores the cells, and negating twice is the identity |
| Grids.AddedCommutes | include/matrix_old.hpp:389-411 | matrix addition commutes |
| Grids.MultipliedByIdentity | include/matrix_old.hpp:443-459 | the identity is a unit of the product on both sides |
| Grids.TransposeOfProduct | include/matrix_old.hpp:443-459 | the transpose of a product is the product of the transposes in reverse order |
| Grids.ScaledByZero | include/matrix_old.hpp:486-498 | scaling by 0 clears every cell |
| Determinants.Sign | include/matrix_old.hpp:306 | the sign of the cofactor in column `i` is ±1, and +1 exactly for even `i` |
| Determinants.Minor | include/matrix_old.hpp:295-304 | the minor for column `c` has one order less, and its cell (j, k) is cell (j + 1, k) of the matrix left of column `c` and cell (j + 1, k + 1) from column `c` on |
| Determinants.CofactorsStep | include/matrix_old.hpp:289-307 | each pass of the loop adds the sign of column `i` times the first-row cell times the determinant of the minor, and a first-row cell of 0 adds nothing, so skipping it with `continue` keeps the sum |
| Determinants.ExpansionAgreesWithShortcut | include/matrix_old.hpp:282-309 | the order-2 shortcut is the first-row expansion, so the expansion holds from order 2 up |
| Determinants.OrderOneIsNotExpansion | include/matrix_old.hpp:271-280 | at order 1 the expansion would give 0 (the empty minor counts 0), which is why order 1 is handled on its own |
| Determinants.DetZeroRow | include/matrix_old.hpp:265-310 | a row of zeros gives determinant 0 |
| Determinants.DetZeroColumn | include/matrix_old.hpp:265-310 | a column of zeros gives determinant 0 |
| Determinants.DetLowerTriangular | include/matrix_old.hpp:265-310 | a lower-triangular matrix has the product of its diagonal as determinant |
| Determinants.DetIdentity | include/matrix_old.hpp:265-310 | the identity of every order from 1 up has determinant 1 |
| Determinants.DetScaled | include/matrix_old.hpp:265-310 | scaling every cell by `s` multiplies the determinant by `s` to the power of the order |
| GridText.TerminatedLines | include/matrix.hpp:70-85 | the fixed-size rendering holds one line break per row and a non-empty one ends with a line break |
| GridText.SeparatedLines | include/matrix_old.hpp:324-350 | the older rendering holds one line break fewer than it has rows |
| GridText.TerminatedIsSeparated | include/matrix.hpp:70-85 | for at least one row, the fixed-size rendering is the older template's rendering of the same cells followed by one line break |
| GridText.CellsRoundTrip | include/matrix_old.hpp:334-341 | reading back the space-separated cells of a non-empty row gives the row |
| GridText.RowHasNoLineBreak | include/matrix_old.hpp:333-342 | a rendered row holds no line break |
| GridText.RenderRow | include/matrix_old.hpp:333-342 | the loop over one row writes `[`, the cells separated by single spaces, and `]` |
| MatrixOld.NewFilled | include/matrix_old.hpp:153-175 | `alloc` gives a fresh `r` by `c` block with `v` in every cell |
| MatrixOld.Matrix.Alloc | include/matrix_old.hpp:153-175 | the matrix gets the given order and a fresh block filled with `v` |
| MatrixOld.Matrix.Empty | include/matrix_old.hpp:190-195 | the default matrix has order 0 by 0 and no cells |
| MatrixOld.Matrix.constructor | include/matrix_old.hpp:197-203 | an `r` by `c` matrix with `v` in every cell |
| MatrixOld.Matrix.FromGrid | include/matrix_old.hpp:205-217 | an `r` by `c` matrix holding the given cells |
| MatrixOld.Matrix.Copy | include/matrix_old.hpp:219-231 | the copy has the same order and cells in a block of its own |
| MatrixOld.Matrix.Fill | include/matrix_old.hpp:224-230 | the block afterwards holds exactly the given cells |
| MatrixOld.Matrix.Assign | include/matrix_old.hpp:352-369 | the cells become those of the operand, also when the operand is the matrix itself |
| MatrixOld.Matrix.Identity | include/matrix_old.hpp:239-249 | a new `o` by `o` matrix with 1 on the diagonal and 0 elsewhere |
| MatrixOld.Matrix.Transpose | include/matrix_old.hpp:251-263 | a new `cols` by `rows` matrix whose cell (j, i) is cell (i, j) |
| MatrixOld.Matrix.TransposeColumn | include/matrix_old.hpp:258-261 | the inner loop for column `j` makes row `j` of the new block column `j` of the cells and leaves its other rows as they were |
| MatrixOld.Matrix.Determinant | include/matrix_old.hpp:312-317 | the result is `Det` of the cells |
| MatrixOld.LaplaceDeterminant | include/matrix_old.hpp:265-310 | the recursive expansion returns `Det` of the cells, skipping zero cells of the first row |
| MatrixOld.Expand | include/matrix_old.hpp:288-309 | from order 3 up, the loop over the first row, skipping zero cells, adds up exactly the first-row cofactor expansion |
| MatrixOld.MinorOf | include/matrix_old.hpp:295-304 | the matrix built for column `i` is the minor without the first row and column `i` |
| MatrixOld.MinorRow | include/matrix_old.hpp:299-303 | the inner loop for row `j` of the minor copies row `j + 1` of the matrix without column `i` and leaves the other rows as they were |
| MatrixOld.CofactorTerm | include/matrix_old.hpp:295-306 | building the minor for column `i` and expanding it recursively gives the sign of column `i` times the first-row cell times `Det` of the minor |
| MatrixOld.Matrix.Equals | include/matrix_old.hpp:371-387 | true exactly when the orders agree and every cell agrees |
| MatrixOld.Matrix.AddAssign | include/matrix_old.hpp:397-411 | the cells become the cell-wise sum of the old cells, also for `m += m` |
| MatrixOld.Matrix.Plus | include/matrix_old.hpp:389-395 | a new matrix holding the cell-wise sum |
| MatrixOld.Matrix.Negate | include/matrix_old.hpp:427-441 | a new matrix holding every cell negated |
| MatrixOld.Matrix.NegateRow | include/matrix_old.hpp:434-437 | the inner loop for row `i` negates row `i` of the copy and leaves its other rows as they were |
| MatrixOld.Matrix.SubAssign | include/matrix_old.hpp:421-425 | the cells become the old cells plus the negation of the operand's old cells |
| MatrixOld.Matrix.Minus | include/matrix_old.hpp:413-419 | a new matrix holding the difference |
| MatrixOld.Matrix.Mul | include/matrix_old.hpp:443-459 | a new `rows` by `m.cols` matrix holding the matrix product |
| MatrixOld.Matrix.MulRow | include/matrix_old.hpp:451-455 | the loop over the columns for row `i` fills that row of the zeroed result with the dot products of row `i` and each column of `m`, and leaves the other rows as they were |
| MatrixOld.Matrix.AccumulateDot | include/matrix_old.hpp:453-454 | the innermost loop adds the dot product of row `i` and column `j` to one cell and changes no other |
| MatrixOld.Matrix.MulAssign | include/matrix_old.hpp:461-476 | as written, for a distinct operand: the cells become `InPlaceProductAsWritten`, which reads cells already overwritten |
| MatrixOld.Matrix.MulAssignRow | include/matrix_old.hpp:468-472 | as written: only row `i` changes, and for a distinct operand it goes through the in-place steps `RowSteps` of the old row |
| MatrixOld.Matrix.MulAssignColumn | include/matrix_old.hpp:470-471 | the innermost in-place loop for cell (i, j): no row but `i` changes, and row `i` goes through the as-written steps that read its own updated cells |
| MatrixOld.InPlaceProductCounterexample | include/matrix_old.hpp:461-476 | `[[1]] *= [[1]]` as written gives `[[2]]`, while the product is `[[1]]` |
| MatrixOld.Matrix.MulAssignCorrected | include/matrix_old.hpp:461-476 | for square matrices the cells become the matrix product of the old cells |
| MatrixOld.Matrix.ScaleAssign | include/matrix_old.hpp:486-498 | every cell is multiplied by `s` |
| MatrixOld.Matrix.Scale | include/matrix_old.hpp:478-484 | a new matrix holding every cell multiplied by `s` |
| MatrixOld.ScalarTimes | include/matrix_old.hpp:500-504 | `s * m` is a new matrix holding `m` scaled by `s` |
| MatrixOld.Matrix.DivAssign | include/matrix_old.hpp:514-518 | as written with `int` cells: every cell is multiplied by `1 / s` truncated |
| MatrixOld.DivisionClears | include/matrix_old.hpp:514-518 | for `s` of magnitude 2 or more the as-written division clears every cell |
| MatrixOld.DivisionCounterexample | include/matrix_old.hpp:514-518 | `[[1]]` doubled and then divided by 2 as written gives `[[0]]`, while dividing each cell gives `[[1]]` back |
| MatrixOld.Matrix.DivAssignCorrected | include/matrix_old.hpp:514-518 | every cell is divided by `s`, truncating |
| MatrixOld.DividedCellsUndoScaling | include/matrix_old.hpp:514-518 | dividing each cell by `s` undoes scaling by `s` |
| MatrixOld.Matrix.Over | include/matrix_old.hpp:506-512 | as written, by way of the as-written `/=`: a new matrix holding every cell multiplied by `1 / s` truncated, the operand unchanged |
| MatrixOld.Matrix.OverCorrected | include/matrix_old.hpp:506-512 | a new matrix holding every cell divided by `s`, truncating |
| MatrixOld.Render | include/matrix_old.hpp:324-350 | the text holds the rows, each as `[`, cells separated by spaces, `]`, with line breaks between rows only |
| MatrixFixed.Matrix.Rows | include/matrix.hpp:16-20 | the number of rows of the block, which is the number of rows of the cells |
| MatrixFixed.Matrix.Cols | include/matrix.hpp:22-26 | the number of cells in every row |
| MatrixFixed.Matrix.constructor | include/matrix.hpp:40-42 | an `R` by `C` matrix with 0 in every cell |
| MatrixFixed.Matrix.Identity | include/matrix.hpp:53-68 | an `R` by `C` matrix with 1 where the indices agree and 0 elsewhere, square or not |
| MatrixFixed.Render | include/matrix.hpp:70-85 | the text holds every row as `[`, cells separated by spaces, `]`, and a line break after each row |

## Left out

- `Fraction::eval()` returns a `float`. Floating point is not modelled.
- The `Fraction` destructor only zeroes the fields of an object that is going away. It is not modelled.
- The `printf` in `reduce()` when `gcd` is 0 is output only. The model keeps the early exit and leaves the fields unchanged.
- The `Fraction(std::array<int, 2>&)` constructor in src/fraction.cpp has no declaration in include/fraction.hpp. It is not modelled.
- C++ `assert`s become preconditions: a zero denominator, a division by a zero fraction or `int`, and the inverse of a zero fraction. Builds with `NDEBUG`, where the checks disappear, are not modelled.
- `int` overflow: all integers are unbounded. The cross-multiplications of the fraction operators and the sums and products of matrix cells can overflow a 32-bit `int` in C++, and that overflow is not modelled.
- The matrix element type `T` is `int`.
  - A matrix of `Fraction`s is not modelled.
  - So the older template's `/=` with fraction cells is not modelled; with those cells `T{1} / s` is an exact reciprocal.
  - Nor is the fixed-size default constructor giving `1/1` cells for fractions.
- Memory management is not modelled. This covers `new`/`delete` in `alloc` and `free`, the null `data` of the older default matrix, and destructors.
  - The block is a Dafny `array2`, and the default matrix has an empty block.
  - The `nullptr` early exit of the older `<<` writes nothing, which is what an empty block renders to.
  - The `nullptr` test in `operator=` is always false in the model.
- `Matrix<T>::inverse()` in include/matrix_old.hpp has an empty body that returns nothing. It is not modelled.
- The constructor `Matrix(T data[R][C])` of include/matrix.hpp cannot compile as written: it assigns to an array. It is not modelled.
- `transpose()` and `operator=` of the older template fall off the end without a `return`. The model returns what they evidently intend: the transposed matrix and the assigned object.
- Stream state and the returned `ostream&` are not modelled. Each `operator<<` is a method that returns the text it writes.
- main.cpp is a demonstration program and is not part of this model.
- Swapping two rows negates the determinant, and transposing keeps it. Neither property is proved about `Det`.
- MatrixOld.Matrix.MulAssign: requires no more columns than rows. The loop reads `m.data[k]` for every `k < cols`, which runs past the last row otherwise (undefined behaviour).
- MatrixOld.Matrix.MulAssign: the result is stated only when the operand is a different matrix. For `m *= m` the operand's cells change during the loop, and the contract says nothing about that case.
- Fractions.Fraction.DivAssign: the canonical-result promise is stated only when the operand is a different object. For `x /= x`, `SelfQuotientAsWritten` gives the new pair.
- Fractions.Fraction.Equals: a predicate on the fields with no contract of its own. `FractionMath.EqualsIsValueEqualityWhenCanonical` and `FractionMath.EqualsIsStructural` state what it means.

## Findings

| source | as written | input that shows it | evidently intended | confidence | as-written member | corrected member |
|---|---|---|---|---|---|---|
| src/fraction.cpp:234-247 | `operator/=` multiplies the numerator first and then reads `f.numerator`, which for `x /= x` is the field just overwritten | `x = 2/3; x /= x` leaves `1/3` | `1/1` | not executed | Fractions.Fraction.DivAssign | Fractions.Fraction.DivAssignCorrected |
| src/fraction.cpp:175-178 | `operator-(int s, const Fraction& f)` returns `f - s` | `1 - Fraction(0)` gives `-1` | `s - f`, here `1` | not executed | Fractions.IntMinus | Fractions.IntMinusCorrected |
| src/fraction.cpp:270-273 | `operator/(int s, const Fraction& f)` returns `f / s` | `2 / Fraction(1)` gives `1/2` | `s / f`, here `2` | not executed | Fractions.IntOver | Fractions.IntOverCorrected |
| include/matrix_old.hpp:461-476 | `operator*=` accumulates into cells of `*this` that later terms still read, and never clears them first | `[[1]] *= [[1]]` gives `[[2]]` | the matrix product, `[[1]]` | not executed | MatrixOld.Matrix.MulAssign | MatrixOld.Matrix.MulAssignCorrected |
| include/matrix_old.hpp:514-518 | `operator/=` multiplies by `T{1} / s`, which for an integer `T` and `s` of magnitude 2 or more is 0 | an `int` matrix `[[2]] /= 2` gives `[[0]]` | each cell divided by `s`, here `[[1]]` | not executed | MatrixOld.Matrix.DivAssign | MatrixOld.Matrix.DivAssignCorrected |
| include/matrix_old.hpp:506-512 | `operator/` copies the matrix and applies the `/=` above, so it inherits the multiplication by `T{1} / s` | an `int` matrix `[[2]] / 2` gives `[[0]]` | each cell divided by `s`, here `[[1]]` | not executed | MatrixOld.Matrix.Over | MatrixOld.Matrix.OverCorrected |
