# MathLib core in Dafny

A model of the header-only C++ library MathLib (namespace `math`), for its
`int` instantiations:

- `Matrix2D<int>` (`IMatrix2D`, matrix.hpp) is a class whose single field `rows: seq<seq<int>>`
  stands for `vals_`. Every mutator is a method that changes `rows`, and each method's
  contract ties the new rows to a function of the old ones (module `MatrixSpec`). The
  lemmas there state what `clean()` guarantees (rectangular rows, padding with zeros,
  idempotence), what each mutator changes and keeps, which operations undo each other,
  and how sums behave.
- `Frac<int>` (`IFrac`, frac.hpp) is a class with the fields `num` and `den`, plus the
  value type `Fraction`. The model covers the constructors, setters, `result()`,
  `operator+`, `++`, the stacked text output and the `_ifrac` string literal, which goes
  through `std::string::find`, `substr` (with `size_t` wrap-around) and `std::stoi`.
- `reduce_number` and `is_number` (utils.hpp) are loop methods. Each is proved against
  its specification function or an explicit characterisation.
- `is_prime`, `first_divisor` and `prime_factors` (prime.hpp) are trial-division loops.
  They are proved against a mathematical `Prime` predicate and a sorted prime factorisation.

Library behaviour the headers rely on is modelled in its own modules. `Cpp` models C++
integer division, which truncates toward zero. `StdText` models `std::to_string` and
`std::stoi` for `int`.

`error()` (include.hpp) prints a message and ends the process. Every operation that can
call it instead returns `false` or `None` and leaves the state unchanged. The one
exception is the two-argument `Frac` constructor, which requires a nonzero denominator.

Several member templates cannot be instantiated as written:

- `return 0;` in the `void` member `push_column`;
- `vals_.insert(index, …)` with an integer position;
- `std::accumulate` without an initial value.

These are modelled by their evident meaning:

- a plain `return`;
- insertion before position `index`;
- a sum starting from 0.

## Model

| member | source | states |
|---|---|---|
| Cpp.TruncDiv | frac.hpp:32-34 | `a / b` on `int` truncates toward zero: `abs(q)·abs(b)` lies in `(abs(a) - abs(b), abs(a)]`, and a nonzero quotient is negative exactly when the operands' signs differ |
| Cpp.TruncDivUnique | frac.hpp:32-34 | those two properties determine the quotient: any `q` satisfying them equals `TruncDiv(a, b)` |
| Cpp.TruncDivNonNegative | frac.hpp:32-34 | on a non-negative dividend and positive divisor, truncation agrees with Euclidean division |
| Cpp.TruncDivSymmetric | frac.hpp:32-34 | negating either operand negates the quotient |
| Cpp.TruncDivExamples | frac.hpp:32-34 | 7/2 = 3, -7/2 = -3, 7/-2 = -3, -7/-2 = 3 |
| StdText.IntText | frac.hpp:151 | `std::to_string(int)` is non-empty, has no '.' or '/', and starts with '-' exactly for negative numbers |
| StdText.StoI | frac.hpp:91 | `std::stoi` yields a value only if the text holds a digit |
| StdText.StoIOfIntText | frac.hpp:91 | `std::stoi(std::to_string(x)) == x` |
| StdText.StoIWithoutDigits | frac.hpp:91-95 | a text with no digit makes `std::stoi` throw `invalid_argument` |
| Utils.Reduced | utils.hpp:5-22 | the reduced text is a prefix of the input |
| Utils.ReduceNumber | utils.hpp:5-22 | the loop that shortens `number` returns `Reduced(s)` |
| Utils.ReducedWithoutDot | utils.hpp:14-16 | a text without '.' is returned unchanged, trailing zeros included |
| Utils.ReducedTrailingDot | utils.hpp:7-9 | a trailing '.' is the only character removed |
| Utils.ReducedOneDot | utils.hpp:5-22 | with one '.', the result is either the integer part alone or keeps the '.' and ends in a character that is neither '0' nor '.' |
| Utils.ReducedIntText | utils.hpp:24-27 | `reduce_number(int)` returns `std::to_string` unchanged |
| Utils.ReducedNumberParsesBack | utils.hpp:32 | reading back the reduced text of an `int` gives the same `int` |
| Utils.ReducedExamples | utils.hpp:5-22 | "12.500" becomes "12.5", "100." becomes "100", "0.000" becomes "0", and "100" stays "100" |
| Utils.ReduceValue | utils.hpp:31-33 | one element's round trip through text leaves it unchanged |
| Utils.ReduceNumbers | utils.hpp:29-34 | `reduce_number(std::vector<int>&)` leaves the vector unchanged |
| Utils.IsNumber | utils.hpp:36-54 | true iff every character is a digit or '.' and there is at most one '.' (the empty text included) |
| Utils.OnlyNumberChars | utils.hpp:38-42 | true iff every character is one of "0123456789." |
| Utils.AtMostOneDot | utils.hpp:44-52 | true iff the text holds at most one '.' |
| Prime.PrimeSmallCases | prime.hpp:10-18 | 0 and 1 are not prime, 2 is, and no other even number is |
| Prime.NoSmallDivisorIsPrime | prime.hpp:19-25 | no divisor below `i` together with `i·i > n` makes `n` prime, which justifies the square-root bound |
| Prime.OddCompositeHasSmallOddDivisor | prime.hpp:16-25 | an odd non-prime has an odd divisor of at least 3 whose square is at most the number, so the odd-only search is complete |
| Prime.IsPrime | prime.hpp:6-26 | the result is `Prime(abs(n))` |
| Prime.LeastDivisorIsPrime | prime.hpp:36-39 | the least divisor above 1 of a number is prime |
| Prime.FirstDivisor | prime.hpp:28-41 | a prime (in absolute value) returns itself. Otherwise the result is the least odd divisor within the root, with the sign of `n`, present exactly when one exists. For odd `abs(n) >= 2` it is the least prime factor |
| Prime.FirstDivisorOnEvenExamples | prime.hpp:28-41 | `first_divisor(12)` gives 3 and `first_divisor(4)` gives no value, while 2 is the least prime factor of both |
| Prime.FirstDivisorOnEvenNumbers | prime.hpp:32-40 | 4 has no odd divisor, so the loop falls off the end; for 12 the first divisor found is 3 although the least prime factor is 2 |
| Prime.LeastPrimeFactor | prime.hpp:28-41 | the least prime factor of `abs(n)`, with the sign of `n` |
| Prime.DivideOutStep | prime.hpp:59-62 | one division by `i` keeps the product invariant and the factors sorted primes, and leaves a smaller odd quotient with no divisor below `i` |
| Prime.RemainderIsPrime | prime.hpp:64-66 | a remainder above 2 after trial division is a prime at least as large as every candidate tried |
| Prime.FinishFactorization | prime.hpp:64-67 | the final push of a remainder above 2 completes a sorted prime factorisation |
| Prime.PrimeFactors | prime.hpp:43-68 | for `n > 0`, a sorted list of primes whose product is `n`; for `n < 0`, a list whose negation is a sorted list of primes with product `-n` |
| Prime.FactorizationOfOne | prime.hpp:51-67 | the only prime factorisation of 1 is empty, which is what `prime_factors(1)` returns |
| Fractions.Sum | frac.hpp:63-65 | `f + g` as written is a fraction with a nonzero denominator |
| Fractions.SumIsTimesSuccessor | frac.hpp:63-65 | `f + g` as written equals `f · (g + 1)`, term by term |
| Fractions.SumWhole | frac.hpp:67-69 | `f + n` keeps the denominator |
| Fractions.SumWholeIsIntendedSum | frac.hpp:67-69 | `f + n` is the sum of `f` and `n/1` |
| Fractions.IntendedSum | frac.hpp:63-65 | the corrected sum has a nonzero denominator |
| Fractions.IntendedSumCommutes | frac.hpp:63-65 | the corrected sum commutes |
| Fractions.IntendedSumRespectsValue | frac.hpp:63-65 | the corrected sum depends only on the rational values of its operands |
| Fractions.SumCounterexample | frac.hpp:64 | 1/2 + 1/3 gives 4/6 as written, whereas the sum is 5/6 |
| Fractions.SumAgreesOnlyWhen | frac.hpp:64 | the as-written sum equals the corrected one iff `g`'s numerator is 0 or `f`'s numerator equals its denominator |
| Fractions.Frac.constructor | frac.hpp:18-24 | stores the numerator and the nonzero denominator |
| Fractions.Frac.Whole | frac.hpp:26-28 | stores `v` over the default denominator 1 |
| Fractions.Frac.Default | frac.hpp:30 | the member defaults: numerator 1, denominator 1 |
| Fractions.Frac.Result | frac.hpp:32-34 | `result()` is the quotient truncated toward zero |
| Fractions.Frac.SetNumerator | frac.hpp:44-46 | the numerator is replaced and the denominator kept |
| Fractions.Frac.SetDenominator | frac.hpp:48-53 | zero is refused with nothing changed; otherwise only the denominator is replaced |
| Fractions.Frac.Plus | frac.hpp:63-65 | a fresh fraction holding `Sum(f, g)` |
| Fractions.Frac.PlusWhole | frac.hpp:67-69 | a fresh fraction holding `SumWhole(f, n)` |
| Fractions.Frac.Increment | frac.hpp:71-73 | prefix `++` stores the value of `f + 1` |
| Fractions.Frac.PostIncrement | frac.hpp:75-77 | postfix `++` has the same effect as prefix `++` |
| Fractions.IncrementsAgree | frac.hpp:71-77 | applied to equal fractions, both increments give equal results, namely `f + 1` |
| Fractions.Frac.BarWidth | frac.hpp:151 | the bar is as long as the longer decimal text of numerator and denominator, and at least 1 |
| Fractions.Frac.RenderStacked | frac.hpp:149-156 | the text is the numerator, a newline, that many '-', a newline, then the denominator |
| Fractions.Dashes | frac.hpp:153-155 | `n` characters, all '-' |
| Fractions.SizeSuccessor | frac.hpp:91 | `pos + 1` on `size_t`: one more, except that `npos + 1` wraps to 0 |
| Fractions.Find | frac.hpp:89 | `find('/')` returns the first index of '/', or `npos` exactly when there is none |
| Fractions.Substr | frac.hpp:91 | `substr(pos, count)` is the slice from `pos` of at most `count` characters, cut at the end |
| Fractions.FromParts | frac.hpp:90-95 | success iff both parts parse and the denominator is nonzero, and then the fraction holds the two values |
| Fractions.ParseIFrac | frac.hpp:87-96 | a successful parse has a nonzero denominator, and the text holds a digit |
| Fractions.ParseIFracParts | frac.hpp:89-91 | `a/b` with no '/' in `a` parses `a` and `b` separately |
| Fractions.ParseIFracRoundTrip | frac.hpp:87-96 | parsing the text `to_string(a) + "/" + to_string(b)` gives back `a/b` |
| Fractions.ParseIFracZeroDenominator | frac.hpp:18-24 | the literal `a/0` is refused as a zero denominator |
| Fractions.ParseIFracWithoutSlash | frac.hpp:89-91 | without a '/', both parts are the whole text, so a parsed `v` is `v/v` |
| Fractions.ParseIFracNonNumeric | frac.hpp:93-95 | a numerator without digits is an invalid expression |
| Fractions.ParseIFracExample | frac.hpp:88 | "3/2" is 3/2 |
| Fractions.ParseIFracInvalidExample | frac.hpp:93-95 | "x/4" is an invalid expression |
| Fractions.ParseIFracWholeExamples | frac.hpp:89-91 | "7" parses as 7/7; "0" is refused as a zero denominator |
| MatrixSpec.MaxWidth | matrix.hpp:135-142 | the length of a longest row: no row is longer, some row has it, and it is 0 without rows |
| MatrixSpec.Pad | matrix.hpp:43-47 | the row followed by zeros, reaching `w` cells when shorter |
| MatrixSpec.Cleaned | matrix.hpp:22-50 | as many rows, all of the old maximum length, each the old row followed by zeros |
| MatrixSpec.CleanedIsRectangular | matrix.hpp:22-50 | after `clean()` all rows have one length, which is the old maximum |
| MatrixSpec.CleanedRectangular | matrix.hpp:42-49 | `clean()` changes nothing on rectangular rows |
| MatrixSpec.CleanedIdempotent | matrix.hpp:22-50 | a second `clean()` changes nothing |
| MatrixSpec.CleanedExample | matrix.hpp:23-37 | the example in the comment of `clean()` |
| MatrixSpec.WidenedIsRectangular | matrix.hpp:53-79 | rows of one common length are left alone by `clean()` |
| MatrixSpec.SetCell | matrix.hpp:91-93 | only cell `k` changes, and only when the row has it |
| MatrixSpec.ColumnFilled | matrix.hpp:89-94 | every row gets `SetCell(row, column, v)` |
| MatrixSpec.FillColumnEffect | matrix.hpp:89-99 | after `fill_column(c, v)`, cell `c` is `v` in every row that had it; every other old cell is kept and every new cell is 0 |
| MatrixSpec.LineFilled | matrix.hpp:105 | row `line` becomes all `v` with its length kept; the other rows are unchanged |
| MatrixSpec.FillLineEffect | matrix.hpp:101-110 | after `fill_line(l, v)` the old cells of row `l` are `v` and its new cells 0; the other rows are only padded |
| MatrixSpec.FilledAsWritten | matrix.hpp:112-120 | after `fill(v)`, row 0 is its old cells set to `v` then zeros; every later row is all `v` |
| MatrixSpec.FilledEverywhere | matrix.hpp:112-120 | the intended `fill(v)`: every cell of the cleaned matrix is `v` |
| MatrixSpec.FillWhenFirstRowWidest | matrix.hpp:112-120 | when row 0 is a longest row (rectangular rows in particular), `fill` does fill every cell |
| MatrixSpec.FillJaggedExample | matrix.hpp:112-120 | `fill(5)` on `[[1], [1, 2]]` leaves `[[5, 0], [5, 5]]` |
| MatrixSpec.InsertAt | matrix.hpp:206-210 | the cell is inserted before position `k`, or appended when `k` is past the end |
| MatrixSpec.RemoveAt | matrix.hpp:341-343 | `erase` of cell `k` when the row has it, otherwise the row unchanged |
| MatrixSpec.RemoveAtInsertAt | matrix.hpp:201-216 | erasing the cell just inserted gives the row back |
| MatrixSpec.ColumnPushed | matrix.hpp:177-182 | row `i` gets `column[i]` appended, for as many rows as the column covers |
| MatrixSpec.PushColumnCommentExample | matrix.hpp:167-175 | the example in the comment of `push_column`, except that the third row gets 2 (the comment shows 3) |
| MatrixSpec.RemoveColumnUndoesPushColumn | matrix.hpp:166-187 | `remove_column(w)` undoes `push_column` on rectangular rows of width `w` |
| MatrixSpec.InsertedLine | matrix.hpp:189-199 | `insert_line` adds exactly one row |
| MatrixSpec.RemoveInsertedRow | matrix.hpp:194 | removing row `index` undoes inserting a row at `index` |
| MatrixSpec.RemoveLineUndoesInsertLine | matrix.hpp:189-199 | on rectangular rows, the corrected `remove_line(index)` undoes `insert_line(index, line)` |
| MatrixSpec.ColumnInserted | matrix.hpp:202-211 | row `i` gets `column[i]` at `index`, for as many rows as the column covers |
| MatrixSpec.ColumnInsertedWidth | matrix.hpp:202-211 | a full column makes rows of width `w` exactly one cell wider |
| MatrixSpec.RemoveInsertedColumn | matrix.hpp:201-216 | erasing cell `index` of each row undoes inserting the column there |
| MatrixSpec.RemoveColumnUndoesInsertColumn | matrix.hpp:201-216 | `remove_column(k)` undoes `insert_column(k, column)` on rectangular rows |
| MatrixSpec.Without | matrix.hpp:229-234 | the rebuilt row is no longer than the old |
| MatrixSpec.WithoutMultiset | matrix.hpp:229-234 | the rebuilt row holds every other value as often as before and no `v` |
| MatrixSpec.WithoutConcat | matrix.hpp:229-234 | removal distributes over concatenation |
| MatrixSpec.WithoutAbsent | matrix.hpp:229-234 | a row without `v` is left as it was |
| MatrixSpec.WithoutExample | matrix.hpp:229-234 | `[0, 1, 0, 2, 0]` without 0 is `[1, 2]` |
| MatrixSpec.ValueRemoved | matrix.hpp:228-237 | every row is rebuilt without `v` |
| MatrixSpec.Replaced | matrix.hpp:247-255 | same length; each cell equal to `from` becomes `to`, the others are kept |
| MatrixSpec.ReplacedBack | matrix.hpp:244-263 | replacing back restores the row when `to` did not occur in it |
| MatrixSpec.ReplacedRemovesOld | matrix.hpp:244-263 | after replacement `from` no longer occurs |
| MatrixSpec.ReplacedCount | matrix.hpp:244-263 | `to` then occurs as often as `to` and `from` did together |
| MatrixSpec.ValueReplaced | matrix.hpp:246-258 | every row gets `Replaced` |
| MatrixSpec.ReplaceValueKeepsShape | matrix.hpp:244-263 | row lengths are kept, so on rectangular rows the final `clean()` changes nothing |
| MatrixSpec.LinesSwapped | matrix.hpp:272 | rows `a` and `b` exchanged and every other row kept |
| MatrixSpec.SwapLinesSelfInverse | matrix.hpp:265-277 | `swap_lines(a, b)` twice restores rectangular rows |
| MatrixSpec.CellsSwapped | matrix.hpp:293-295 | the two cells are exchanged only when the row has both |
| MatrixSpec.ColumnsSwapped | matrix.hpp:292-296 | every row gets `CellsSwapped` |
| MatrixSpec.CellsSwappedTwice | matrix.hpp:292-296 | swapping the same two cells twice restores the row |
| MatrixSpec.SwapColumnsSelfInverse | matrix.hpp:279-301 | `swap_columns(a, b)` twice restores rectangular rows |
| MatrixSpec.SwapColumnsDemo | Source.cpp:14-16 | the demo: only the second row is wide enough to swap columns 3 and 4; the first is padded |
| MatrixSpec.LinesDropped | matrix.hpp:332 | the `erase(begin, begin + k)` of `remove_line` keeps rows `k` and after |
| MatrixSpec.LineRemoved | matrix.hpp:328-337 | only row `k` is removed, as the name and the error message say |
| MatrixSpec.RemoveLineCounterexample | matrix.hpp:332 | on `[[1], [2], [3]]`, `remove_line(0)` removes nothing and `remove_line(1)` removes row 0 |
| MatrixSpec.ColumnRemoved | matrix.hpp:340-344 | every row gets `RemoveAt(row, k)` |
| MatrixSpec.MinWidth | matrix.hpp:126-133 | the length of a shortest row, as the comment of `min_columns` describes |
| MatrixSpec.MinColumnsCounterexample | matrix.hpp:126-133 | the shortest row of `[[1, 2]]` has length 2 |
| Matrix.MinColumnsOnOneRow | matrix.hpp:126-133 | `min_columns()` on the matrix built from `[[1, 2]]` returns 0 although its shortest row has length 2 |
| MatrixSpec.SeqSumConcat | matrix.hpp:320-326 | the sum of a concatenation is the sum of the sums |
| MatrixSpec.SeqSumPad | matrix.hpp:42-49 | padding with zeros keeps a row's sum |
| MatrixSpec.SeqSumWithout | matrix.hpp:226-242 | removing `v` lowers a row's sum by `v` for each occurrence |
| MatrixSpec.ColumnTotalNarrow | matrix.hpp:310-318 | `column_sum` is 0 when no row is wide enough |
| MatrixSpec.ColumnTotalCleaned | matrix.hpp:310-318 | `clean()` leaves every column sum as it was |
| MatrixSpec.TotalCleaned | matrix.hpp:320-326 | `clean()` leaves the total as it was |
| MatrixSpec.DecimalWidth | matrix.hpp:380 | the text of a number has at least one character |
| MatrixSpec.CellWidth | matrix.hpp:379-381 | the width is 0 exactly when the row has no such cell |
| MatrixSpec.MaxDecimalWidth | matrix.hpp:375-384 | no cell of the column is wider than the result, and a nonzero result is the width of one of them |
| MatrixSpec.MaxDecimalWidthZero | matrix.hpp:375-384 | the result is 0 exactly when no row has the column |
| Matrix.Matrix2D.Clean | matrix.hpp:22-50 | the rows become `Cleaned(old rows)` |
| Matrix.PadRow | matrix.hpp:43-47 | the row padded with zeros to `w` cells, or unchanged when it is not shorter |
| Matrix.Matrix2D.ReduceRows | matrix.hpp:65 | `reduce_number` on every `int` row changes nothing |
| Matrix.Matrix2D.Default | matrix.hpp:53-68 | with the default arguments `lines = 2`, `columns = 2`: two empty rows |
| Matrix.Matrix2D.Sized | matrix.hpp:53-68 | `lines` empty rows: `columns` only reserves capacity |
| Matrix.Matrix2D.Replicated | matrix.hpp:70-79 | `lines` copies of `line` |
| Matrix.Matrix2D.FromRows | matrix.hpp:81-87 | the given rows, cleaned |
| Matrix.Matrix2D.FillColumn | matrix.hpp:89-99 | the rows become `Cleaned(ColumnFilled(old, column, value))` |
| Matrix.Matrix2D.FillLine | matrix.hpp:101-110 | fails iff `line` is not a row index, with nothing changed; otherwise `Cleaned(LineFilled(old, line, value))` |
| Matrix.Matrix2D.Fill | matrix.hpp:112-120 | the rows become `FilledAsWritten(old, value)` |
| Matrix.Matrix2D.Lines | matrix.hpp:122-124 | the number of rows |
| Matrix.Matrix2D.MinColumns | matrix.hpp:126-133 | as written, always 0 |
| Matrix.Matrix2D.MaxColumns | matrix.hpp:135-142 | the length of a longest row |
| Matrix.Matrix2D.GetRow | matrix.hpp:151-156 | a copy of row `index`, or nothing when there is no such row |
| Matrix.Matrix2D.SetRow | matrix.hpp:144-149 | assigning through `operator[]` replaces row `index` without `clean()`, or fails with nothing changed |
| Matrix.Matrix2D.PushLine | matrix.hpp:158-164 | the rows become `Cleaned(old + [line])` |
| Matrix.Matrix2D.PushColumn | matrix.hpp:166-187 | the rows become `PushedColumn(old, column)`: not cleaned when the column is shorter than the row count |
| Matrix.Matrix2D.InsertLine | matrix.hpp:189-199 | the rows become `InsertedLine(old, index, line)`: appended without `clean()` past the end |
| Matrix.Matrix2D.InsertColumn | matrix.hpp:201-216 | the rows become `InsertedColumn(old, index, column)` |
| Matrix.Matrix2D.Reset | matrix.hpp:218-224 | no rows |
| Matrix.Matrix2D.RemoveValue | matrix.hpp:226-242 | the rows become `Cleaned(ValueRemoved(old, value))` |
| Matrix.Matrix2D.ReplaceValue | matrix.hpp:244-263 | the rows become `Cleaned(ValueReplaced(old, from, to))` |
| Matrix.Matrix2D.SwapLines | matrix.hpp:265-277 | fails iff either index is not a row index, with nothing changed; otherwise `Cleaned(LinesSwapped(...))` |
| Matrix.Matrix2D.SwapColumns | matrix.hpp:279-301 | the rows become `Cleaned(ColumnsSwapped(old, first, second))` |
| Matrix.Matrix2D.LineSum | matrix.hpp:303-308 | no sum iff `index` is not a row index; otherwise the sum of that row |
| Matrix.Matrix2D.ColumnSum | matrix.hpp:310-318 | the sum of cell `column` over the rows that have it |
| Matrix.Matrix2D.Sum | matrix.hpp:320-326 | the sum of every cell |
| Matrix.Matrix2D.RemoveLine | matrix.hpp:328-337 | fails iff `index` is not a row index; otherwise, as written, rows `[0, index)` are erased and the rest cleaned |
| Matrix.Matrix2D.RemoveColumn | matrix.hpp:339-349 | the rows become `Cleaned(ColumnRemoved(old, index))` |
| Matrix.Matrix2D.MaxValSizeColumn | matrix.hpp:375-384 | the widest decimal text in cell `column` over the rows that have it |
| Matrix.LineSumGuardAdmitsMissingRow | matrix.hpp:304 | the guard `index >+ size` rejects only missing rows but admits `index == lines()`, which has no row |
| Matrix.DemoScenario | Source.cpp:12-16 | the demo leaves `[[10, 2, 3, 0, 0], [0, 1, 2, 520, 85]]` |

## Left out

- `error()` ends the process with a message. In the model, a failing call returns `false` or `None` with nothing changed. The two-argument `Frac` constructor requires a nonzero denominator instead, and `_ifrac` reports `ZeroDenominator`.
- Display modes are not modelled: `frac_mode`, `matrix_mode` and their `output_mode` getters and setters.
- `operator<<` for `Matrix2D` (matrix.hpp:396-429) is not modelled: it is stream output. Its column width is `Matrix.Matrix2D.MaxValSizeColumn`.
- The `NUMBER` branch of `operator<<` for `Frac` (frac.hpp:158) is not modelled separately: it prints `result()`, which is `Fractions.Frac.Result`.
- `max_val_size_line` (matrix.hpp:363-373) builds `std::string(val)` from a number, which has no meaning for `int`.
- `vals()`, `numerator()` and `denominator()` are getters; in the model they are the fields themselves.
- The floating-point and `long long` instantiations are not modelled: `FFrac`, `LIFrac`, `LFFrac`, `FMatrix2D`, `LIMatrix2D`, `LFMatrix2D`, `_ffrac`, `_lifrac`, `_lffrac`, and the `long double` form of `_ifrac` (frac.hpp:131-145).
- Fixed-width integers are unbounded in the model: `int` overflow in `Frac` arithmetic, `long long` in prime.hpp, `std::abs` of the least `long long`, and `int` overflow in the running totals of `Matrix2D::line_sum`, `column_sum` and `sum` (matrix.hpp:303-326).
- `std::stoi`'s `out_of_range` is not modelled, because integers are unbounded.
- `std::sqrt(number) + 1` as a loop bound is modelled as the exact test `i * i <= number`; floating-point rounding of `sqrt` is not modelled.
- `reserve` only sets capacity and has no effect on values.
- `reduce_number(std::vector<NUMBER>&)` goes through `std::stold`. On `int` text, which has no '.', that is the exact integer parse.
- Utils.ReduceNumber: requires a non-empty text, because on the empty text the source reads the character before the start.
- Prime.PrimeFactors: requires `n != 0`, because for 0 the loop dividing by 2 never ends.
- Prime.PrimeFactors: for `n < 0` the contract states that the negated result is a sorted prime factorisation of `-n`, not that it equals the negation of `prime_factors(-n)`; the two coincide by uniqueness of prime factorisation, which is not proved here.
- Prime.FirstDivisor: when no odd divisor within the root exists, the source falls off the end of a value-returning function (undefined behaviour); the model returns `None`.
- Fractions.Substr: requires `pos <= |s|`; a larger `pos` throws `out_of_range`, which `_ifrac` never triggers.
- Fractions.Sum: its own contract only says the denominator is nonzero; its value is characterised by `Fractions.SumIsTimesSuccessor` and `Fractions.SumAgreesOnlyWhen`.
- Matrix.Matrix2D.LineSum: uses the range check `index >= lines()` that the error message describes. The guard as written is `Matrix.LineSumGuardRejects`.

## Findings

| source | as written | input that shows it | evidently intended | confidence | as-written member | corrected member |
|---|---|---|---|---|---|---|
| frac.hpp:63-65 | `f + g` multiplies `g`'s numerator by `f`'s numerator | 1/2 + 1/3 gives 4/6 | multiply by `f`'s denominator, giving 5/6 | high, not executed | Fractions.SumCounterexample | Fractions.IntendedSumRespectsValue |
| matrix.hpp:126-133 | the running minimum of `min_columns` starts at 0 | `[[1, 2]]` gives 0 | the length of the shortest row, 2 | high, not executed | Matrix.MinColumnsOnOneRow | MatrixSpec.MinWidth |
| matrix.hpp:328-337 | `remove_line` erases rows `[0, index)` | on `[[1], [2], [3]]`, index 1 removes row 0 and index 0 removes nothing | remove only row `index` | high, not executed | MatrixSpec.RemoveLineCounterexample | MatrixSpec.RemoveLineUndoesInsertLine |
| prime.hpp:28-41 | `first_divisor` tries only odd candidates and has no return after its loop | 12 gives 3; 4 reaches the end with no return value | the least prime factor: 2 for both | high, not executed | Prime.FirstDivisorOnEvenExamples | Prime.LeastPrimeFactor |
| matrix.hpp:112-120 | `fill` calls `fill_line`, and the `clean()` inside it pads row 0 with zeros after that row is filled | `[[1], [1, 2]]` with 5 gives `[[5, 0], [5, 5]]` | every cell 5 | medium, not executed | MatrixSpec.FillJaggedExample | MatrixSpec.FillWhenFirstRowWidest |
| matrix.hpp:303-308 | the `line_sum` guard `index >+ vals_.size()` is `index > size` | `index == lines()` passes and reads a missing row | reject `index >= lines()` | high, not executed | Matrix.LineSumGuardAdmitsMissingRow | Matrix.Matrix2D.LineSum |
