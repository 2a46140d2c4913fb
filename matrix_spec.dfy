/**
 * The row lists of `math::Matrix2D<int>` as values: what `clean()` does to
 * them and what each mutator of matrix.hpp leaves behind, as functions, with
 * the properties those results have.
 */
module MatrixSpec {
  import opened Cpp
  import opened StdText

  type Row = seq<int>
  type Rows = seq<Row>

  function Zeros(n: nat): (z: Row)
    ensures |z| == n && forall j :: 0 <= j < n ==> z[j] == 0
  {
    seq(n, _ => 0)
  }

  function Constant(n: nat, v: int): (r: Row)
    ensures |r| == n && forall j :: 0 <= j < n ==> r[j] == v
  {
    seq(n, _ => v)
  }

  /** The length of the longest row, 0 when there is none (`max_columns`). */
  function MaxWidth(rows: Rows): (w: nat)
    ensures forall i :: 0 <= i < |rows| ==> |rows[i]| <= w
    ensures rows == [] ==> w == 0
    ensures rows != [] ==> exists i :: 0 <= i < |rows| && |rows[i]| == w
  {
    if rows == [] then 0
    else
      var init := rows[..|rows| - 1];
      var last := |rows[|rows| - 1]|;
      var w := MaxWidth(init);
      if init != [] && w >= last then
        var i :| 0 <= i < |init| && |init[i]| == w;
        assert |rows[i]| == w;
        w
      else
        last
  }

  /** One more row extends the maximum by that row's length. */
  lemma MaxWidthStep(rows: Rows, k: nat)
    requires k < |rows|
    ensures MaxWidth(rows[..k + 1]) == if |rows[k]| > MaxWidth(rows[..k]) then |rows[k]| else MaxWidth(rows[..k])
  {
    assert rows[..k + 1][..k] == rows[..k];
  }

  /** Every row has length `w`. */
  predicate Uniform(rows: Rows, w: nat) {
    forall i :: 0 <= i < |rows| ==> |rows[i]| == w
  }

  /** All rows have the same length. */
  predicate Rectangular(rows: Rows) {
    Uniform(rows, MaxWidth(rows))
  }

  /** `row` right-padded with zeros to length `w`. */
  function Pad(row: Row, w: nat): (r: Row)
    ensures |row| <= w ==> |r| == w
    ensures |row| >= w ==> r == row
    ensures row <= r && forall j :: |row| <= j < |r| ==> r[j] == 0
  {
    if |row| < w then row + Zeros(w - |row|) else row
  }

  /** Padding one cell further appends a single 0. */
  lemma PadGrow(row: Row, n: nat)
    requires |row| <= n
    ensures Pad(row, n + 1) == Pad(row, n) + [0]
  {
    assert Zeros(n + 1 - |row|) == Zeros(n - |row|) + [0];
  }

  /** Every row padded to `w`. */
  function PadAll(rows: Rows, w: nat): (p: Rows)
    ensures |p| == |rows| && forall i :: 0 <= i < |rows| ==> p[i] == Pad(rows[i], w)
  {
    seq(|rows|, i requires 0 <= i < |rows| => Pad(rows[i], w))
  }

  /**
   * The rows after `clean()` (matrix.hpp:22-50): as many rows, each the old
   * row followed by zeros up to the old maximum length.
   */
  function Cleaned(rows: Rows): (c: Rows)
    ensures |c| == |rows| && Uniform(c, MaxWidth(rows))
    ensures forall i :: 0 <= i < |rows| ==> rows[i] <= c[i]
    ensures forall i, j :: 0 <= i < |rows| && |rows[i]| <= j < |c[i]| ==> c[i][j] == 0
  {
    PadAll(rows, MaxWidth(rows))
  }

  lemma UniformMaxWidth(rows: Rows, w: nat)
    requires Uniform(rows, w)
    ensures MaxWidth(rows) == if rows == [] then 0 else w
  {
  }

  /** After `clean()` the rows are rectangular, and no wider than before. */
  lemma CleanedIsRectangular(rows: Rows)
    ensures Rectangular(Cleaned(rows)) && MaxWidth(Cleaned(rows)) == MaxWidth(rows)
  {
    UniformMaxWidth(Cleaned(rows), MaxWidth(rows));
  }

  /** `clean()` changes nothing on rectangular rows. */
  lemma CleanedRectangular(rows: Rows)
    requires Rectangular(rows)
    ensures Cleaned(rows) == rows
  {
  }

  /** A second `clean()` changes nothing. */
  lemma CleanedIdempotent(rows: Rows)
    ensures Cleaned(Cleaned(rows)) == Cleaned(rows)
  {
    CleanedIsRectangular(rows);
    CleanedRectangular(Cleaned(rows));
  }

  /** The example in the comment of matrix.hpp:23-37. */
  lemma CleanedExample(rows: Rows)
    requires rows == [[2, 2], [3, 3, 3], [4], [5, 5, 5, 5]]
    ensures Cleaned(rows) == [[2, 2, 0, 0], [3, 3, 3, 0], [4, 0, 0, 0], [5, 5, 5, 5]]
  {
    CleanedExampleWidth(rows);
    PaddedExampleRows();
    var c := PadAll(rows, 4);
    assert c[0] == Pad([2, 2], 4) && c[1] == Pad([3, 3, 3], 4) && c[2] == Pad([4], 4) && c[3] == Pad([5, 5, 5, 5], 4);
  }

  lemma CleanedExampleWidth(rows: Rows)
    requires rows == [[2, 2], [3, 3, 3], [4], [5, 5, 5, 5]]
    ensures MaxWidth(rows) == 4
  {
    assert |rows[3]| == 4;
  }

  lemma PaddedExampleRows()
    ensures Pad([2, 2], 4) == [2, 2, 0, 0] && Pad([3, 3, 3], 4) == [3, 3, 3, 0]
    ensures Pad([4], 4) == [4, 0, 0, 0] && Pad([5, 5, 5, 5], 4) == [5, 5, 5, 5]
  {
    assert Zeros(1) == [0] && Zeros(2) == [0, 0] && Zeros(3) == [0, 0, 0];
  }

  /** Rows whose lengths agree one by one have the same maximum length. */
  lemma {:induction false} SameWidths(a: Rows, b: Rows)
    requires |a| == |b| && forall i :: 0 <= i < |a| ==> |a[i]| == |b[i]|
    ensures MaxWidth(a) == MaxWidth(b)
  {
    if a != [] {
      SameWidths(a[..|a| - 1], b[..|b| - 1]);
    }
  }

  // ---------------------------------------------------------------------
  // fill_column, fill_line, fill (matrix.hpp:89-120)

  /** `row` with cell `k` set to `v`, when the row has a cell `k`. */
  function SetCell(row: Row, k: nat, v: int): (r: Row)
    ensures |r| == |row| && forall j :: 0 <= j < |row| ==> r[j] == (if j == k then v else row[j])
  {
    if k < |row| then row[k := v] else row
  }

  /** The loop of `fill_column`, before `clean()`. */
  function ColumnFilled(rows: Rows, column: nat, v: int): (r: Rows)
    ensures |r| == |rows| && forall i :: 0 <= i < |rows| ==> r[i] == SetCell(rows[i], column, v)
  {
    seq(|rows|, i requires 0 <= i < |rows| => SetCell(rows[i], column, v))
  }

  /**
   * After `fill_column(c, v)`, cell `c` is `v` in every row that had one;
   * every other old cell keeps its value and every new cell is 0.
   */
  lemma FillColumnEffect(rows: Rows, column: nat, v: int)
    ensures var r := Cleaned(ColumnFilled(rows, column, v));
      && |r| == |rows| && Uniform(r, MaxWidth(rows))
      && (forall i :: 0 <= i < |rows| && column < |rows[i]| ==> r[i][column] == v)
      && (forall i, j :: 0 <= i < |rows| && 0 <= j < |rows[i]| && j != column ==> r[i][j] == rows[i][j])
      && (forall i, j :: 0 <= i < |rows| && |rows[i]| <= j < |r[i]| ==> r[i][j] == 0)
  {
    var f := ColumnFilled(rows, column, v);
    SameWidths(f, rows);
    var r := Cleaned(f);
    forall i | 0 <= i < |rows|
      ensures f[i] <= r[i] && |f[i]| == |rows[i]|
    {
    }
    forall i, j | 0 <= i < |rows| && 0 <= j < |rows[i]|
      ensures r[i][j] == if j == column then v else rows[i][j]
    {
      assert r[i][j] == f[i][j];
    }
  }

  /** The `std::fill` of `fill_line`, before `clean()`. */
  function LineFilled(rows: Rows, line: nat, v: int): (r: Rows)
    requires line < |rows|
    ensures |r| == |rows| && r[line] == Constant(|rows[line]|, v)
    ensures forall i :: 0 <= i < |rows| && i != line ==> r[i] == rows[i]
  {
    rows[line := Constant(|rows[line]|, v)]
  }

  /** After `fill_line(l, v)` the old cells of row `l` are `v`; other rows are only padded. */
  lemma FillLineEffect(rows: Rows, line: nat, v: int)
    requires line < |rows|
    ensures var r := Cleaned(LineFilled(rows, line, v));
      && |r| == |rows|
      && (forall j :: 0 <= j < |rows[line]| ==> r[line][j] == v)
      && (forall j :: |rows[line]| <= j < |r[line]| ==> r[line][j] == 0)
      && (forall i :: 0 <= i < |rows| && i != line ==> r[i] == Pad(rows[i], MaxWidth(rows)))
  {
    var f := LineFilled(rows, line, v);
    SameWidths(f, rows);
    var r := Cleaned(f);
    assert r[line] == Pad(Constant(|rows[line]|, v), MaxWidth(rows));
    forall i | 0 <= i < |rows| && i != line
      ensures r[i] == Pad(rows[i], MaxWidth(rows))
    {
      assert f[i] == rows[i];
    }
  }

  /**
   * What `fill(v)` leaves, as written: the first `fill_line` fills row 0
   * and then pads it with zeros, and the later ones fill full rows.
   */
  function FilledAsWritten(rows: Rows, v: int): (r: Rows)
    ensures |r| == |rows| && Uniform(r, MaxWidth(rows))
    ensures rows != [] ==> r[0] == Pad(Constant(|rows[0]|, v), MaxWidth(rows))
    ensures forall i :: 1 <= i < |rows| ==> r[i] == Constant(MaxWidth(rows), v)
  {
    var w := MaxWidth(rows);
    if rows == [] then []
    else
      assert |rows[0]| <= w;
      [Pad(Constant(|rows[0]|, v), w)] + seq(|rows| - 1, _ => Constant(w, v))
  }

  /** What `fill(v)` is meant to leave: every cell of the cleaned matrix is `v`. */
  function FilledEverywhere(rows: Rows, v: int): (r: Rows)
    ensures |r| == |rows| && Uniform(r, MaxWidth(rows))
    ensures forall i, j :: 0 <= i < |r| && 0 <= j < |r[i]| ==> r[i][j] == v
  {
    seq(|rows|, _ => Constant(MaxWidth(rows), v))
  }

  /** When row 0 is already a widest row (in particular on rectangular rows), `fill` fills every cell. */
  lemma FillWhenFirstRowWidest(rows: Rows, v: int)
    requires rows == [] || |rows[0]| == MaxWidth(rows)
    ensures FilledAsWritten(rows, v) == FilledEverywhere(rows, v)
  {
    var r, e := FilledAsWritten(rows, v), FilledEverywhere(rows, v);
    forall i | 0 <= i < |rows|
      ensures r[i] == e[i]
    {
      if i == 0 {
        assert Pad(Constant(MaxWidth(rows), v), MaxWidth(rows)) == Constant(MaxWidth(rows), v);
      }
    }
  }

  /** On `[[1], [1, 2]]`, `fill(5)` leaves the padding cell of row 0 at 0. */
  lemma FillJaggedExample(rows: Rows)
    requires rows == [[1], [1, 2]]
    ensures FilledAsWritten(rows, 5) == [[5, 0], [5, 5]]
    ensures FilledEverywhere(rows, 5) == [[5, 5], [5, 5]]
  {
    assert MaxWidth(rows) == 2 by {
      assert |rows[1]| == 2;
    }
    var r := FilledAsWritten(rows, 5);
    assert Constant(1, 5) == [5];
    assert r[0] == Pad([5], 2) == [5] + [0] == [5, 0];
    assert r[1] == Constant(2, 5) == [5, 5];
    var e := FilledEverywhere(rows, 5);
    assert e[0] == [5, 5] && e[1] == [5, 5];
  }

  /** Part way through `fill(v)`: rows `[0, line)` are done, the rest are the original rows padded. */
  predicate FillProgress(original: Rows, v: int, current: Rows, line: nat) {
    |current| == |original| &&
    forall i :: 0 <= i < |current| ==>
      current[i] == if i < line then FilledAsWritten(original, v)[i] else Pad(original[i], MaxWidth(original))
  }

  /** The first `fill_line(0, v)` of `fill(v)`: row 0 filled then padded, the others padded. */
  lemma FillFirstStep(original: Rows, v: int)
    requires original != []
    ensures FillProgress(original, v, Cleaned(LineFilled(original, 0, v)), 1)
  {
    SameWidths(LineFilled(original, 0, v), original);
  }

  /** A later `fill_line(line, v)` of `fill(v)`: the rows are rectangular and row `line` becomes all `v`. */
  lemma FillLaterStep(original: Rows, v: int, current: Rows, line: nat)
    requires 0 < line < |original|
    requires FillProgress(original, v, current, line)
    ensures FillProgress(original, v, Cleaned(LineFilled(current, line, v)), line + 1)
  {
    var w := MaxWidth(original);
    var f := FilledAsWritten(original, v);
    var filled := LineFilled(current, line, v);
    assert Uniform(current, w) by {
      forall i | 0 <= i < |current|
        ensures |current[i]| == w
      {
        if i >= line {
          assert |original[i]| <= w;
        }
      }
    }
    assert Uniform(filled, w);
    WidenedIsRectangular(filled, w);
    forall i | 0 <= i < |current|
      ensures Cleaned(filled)[i] == if i <= line then f[i] else Pad(original[i], w)
    {
      if i == line {
        assert filled[i] == Constant(w, v) == f[i];
      } else {
        assert filled[i] == current[i];
      }
    }
  }

  /** Once every row is done, the rows are what `fill(v)` leaves, and `clean()` keeps them. */
  lemma FillFinished(original: Rows, v: int, current: Rows)
    requires |original| == 0 ==> current == original
    requires |original| > 0 ==> FillProgress(original, v, current, |original|)
    ensures current == FilledAsWritten(original, v) && Cleaned(current) == current
  {
    WidenedIsRectangular(current, MaxWidth(original));
  }

  // ---------------------------------------------------------------------
  // push_line, push_column, insert_line, insert_column (matrix.hpp:158-216)

  /** `row` with `x` inserted before position `k`, or appended when `k` is past its end. */
  function InsertAt(row: Row, k: nat, x: int): (r: Row)
    ensures |r| == |row| + 1
    ensures k <= |row| ==> r[..k] == row[..k] && r[k] == x && r[k + 1..] == row[k..]
    ensures k >= |row| ==> r == row + [x]
  {
    if k >= |row| then row + [x] else row[..k] + [x] + row[k..]
  }

  /** `row` without its cell `k`, when it has one (`erase`). */
  function RemoveAt(row: Row, k: nat): (r: Row)
    ensures k < |row| ==> |r| == |row| - 1 && r[..k] == row[..k] && r[k..] == row[k + 1..]
    ensures k >= |row| ==> r == row
  {
    if k < |row| then row[..k] + row[k + 1..] else row
  }

  /** Erasing the cell just inserted gives the row back. */
  lemma RemoveAtInsertAt(row: Row, k: nat, x: int)
    requires k <= |row|
    ensures RemoveAt(InsertAt(row, k, x), k) == row
  {
    var r := InsertAt(row, k, x);
    assert RemoveAt(r, k) == r[..k] + r[k + 1..];
    assert row == row[..k] + row[k..];
  }

  /** The loop of `push_column`: row `i` gets `column[i]`, for as many rows as `column` covers. */
  function ColumnPushed(rows: Rows, column: Row): (r: Rows)
    ensures |r| == |rows|
    ensures forall i :: 0 <= i < |rows| ==> r[i] == if i < |column| then rows[i] + [column[i]] else rows[i]
  {
    seq(|rows|, i requires 0 <= i < |rows| => if i < |column| then rows[i] + [column[i]] else rows[i])
  }

  /** `push_column`: a column shorter than the row count returns before `clean()`. */
  function PushedColumn(rows: Rows, column: Row): Rows {
    if |column| < |rows| then ColumnPushed(rows, column) else Cleaned(ColumnPushed(rows, column))
  }

  /**
   * The example in the comment of matrix.hpp:167-175: the third row gets
   * `column[2]`, which is 2 (the comment shows 3).
   */
  lemma PushColumnCommentExample(rows: Rows, column: Row)
    requires rows == [[1, 1, 2], [5, 9, 6], [7, 8, 9]] && column == [0, 1, 2, 3, 4]
    ensures PushedColumn(rows, column) == [[1, 1, 2, 0], [5, 9, 6, 1], [7, 8, 9, 2]]
  {
    PushedExampleRows(rows, column);
    PushedExampleIsClean([[1, 1, 2, 0], [5, 9, 6, 1], [7, 8, 9, 2]]);
  }

  /** The pushed example is already rectangular, so `clean()` leaves it alone. */
  lemma PushedExampleIsClean(p: Rows)
    requires p == [[1, 1, 2, 0], [5, 9, 6, 1], [7, 8, 9, 2]]
    ensures Cleaned(p) == p
  {
    assert Uniform(p, 4);
    UniformMaxWidth(p, 4);
    CleanedRectangular(p);
  }

  /** The rows of the example above once each has received its cell. */
  lemma PushedExampleRows(rows: Rows, column: Row)
    requires rows == [[1, 1, 2], [5, 9, 6], [7, 8, 9]] && column == [0, 1, 2, 3, 4]
    ensures ColumnPushed(rows, column) == [[1, 1, 2, 0], [5, 9, 6, 1], [7, 8, 9, 2]]
  {
    var p := ColumnPushed(rows, column);
    assert p[0] == [1, 1, 2] + [0] == [1, 1, 2, 0];
    assert p[1] == [5, 9, 6] + [1] == [5, 9, 6, 1];
    assert p[2] == [7, 8, 9] + [2] == [7, 8, 9, 2];
  }

  /** Erasing the last cell of a row drops what `push_back` added. */
  lemma RemoveAtEnd(row: Row, x: int)
    ensures RemoveAt(row + [x], |row|) == row
  {
  }

  /** `remove_column(w)` undoes `push_column` on rectangular rows of width `w`. */
  lemma RemoveColumnUndoesPushColumn(rows: Rows, column: Row)
    requires Rectangular(rows) && |column| >= |rows|
    ensures Cleaned(ColumnRemoved(PushedColumn(rows, column), MaxWidth(rows))) == rows
  {
    var w := MaxWidth(rows);
    var p := ColumnPushed(rows, column);
    forall i | 0 <= i < |p|
      ensures |p[i]| == w + 1
    {
      assert |rows[i]| == w;
    }
    WidenedIsRectangular(p, w + 1);
    assert PushedColumn(rows, column) == p;
    var q := ColumnRemoved(p, w);
    forall i | 0 <= i < |rows|
      ensures q[i] == rows[i]
    {
      RemoveAtEnd(rows[i], column[i]);
    }
    assert q == rows;
    CleanedRectangular(rows);
  }

  /** Rows of one common width are left alone by `clean()`. */
  lemma WidenedIsRectangular(rows: Rows, w: nat)
    requires Uniform(rows, w)
    ensures Rectangular(rows) && Cleaned(rows) == rows
  {
    UniformMaxWidth(rows, w);
    CleanedRectangular(rows);
  }

  /** `insert_line`: past the end the row is appended and `clean()` is skipped. */
  function InsertedLine(rows: Rows, index: nat, line: Row): (r: Rows)
    ensures |r| == |rows| + 1
  {
    if index >= |rows| then rows + [line] else Cleaned(rows[..index] + [line] + rows[index..])
  }

  /** The loop of `insert_column`: row `i` gets `column[i]` at `index`, for as many rows as `column` covers. */
  function ColumnInserted(rows: Rows, index: nat, column: Row): (r: Rows)
    ensures |r| == |rows|
    ensures forall i :: 0 <= i < |rows| ==> r[i] == if i < |column| then InsertAt(rows[i], index, column[i]) else rows[i]
  {
    seq(|rows|, i requires 0 <= i < |rows| => if i < |column| then InsertAt(rows[i], index, column[i]) else rows[i])
  }

  /** `insert_column`: a column shorter than the row count returns before `clean()`. */
  function InsertedColumn(rows: Rows, index: nat, column: Row): Rows {
    if |column| < |rows| then ColumnInserted(rows, index, column) else Cleaned(ColumnInserted(rows, index, column))
  }

  lemma ColumnInsertedWidth(rows: Rows, index: nat, column: Row, w: nat)
    requires Uniform(rows, w) && |column| >= |rows|
    ensures Uniform(ColumnInserted(rows, index, column), w + 1)
  {
  }

  /** `remove_column(k)` undoes `insert_column(k, column)` on rectangular rows. */
  lemma RemoveColumnUndoesInsertColumn(rows: Rows, index: nat, column: Row)
    requires Rectangular(rows) && |column| >= |rows| && index <= MaxWidth(rows)
    ensures Cleaned(ColumnRemoved(InsertedColumn(rows, index, column), index)) == rows
  {
    var w := MaxWidth(rows);
    var p := ColumnInserted(rows, index, column);
    ColumnInsertedWidth(rows, index, column, w);
    WidenedIsRectangular(p, w + 1);
    assert InsertedColumn(rows, index, column) == p;
    RemoveInsertedColumn(rows, index, column);
    CleanedRectangular(rows);
  }

  lemma RemoveInsertedColumn(rows: Rows, index: nat, column: Row)
    requires |column| >= |rows| && forall i :: 0 <= i < |rows| ==> index <= |rows[i]|
    ensures ColumnRemoved(ColumnInserted(rows, index, column), index) == rows
  {
    var q := ColumnRemoved(ColumnInserted(rows, index, column), index);
    forall i | 0 <= i < |rows|
      ensures q[i] == rows[i]
    {
      RemoveAtInsertAt(rows[i], index, column[i]);
    }
  }

  // ---------------------------------------------------------------------
  // remove_value, replace_value (matrix.hpp:226-263)

  /** `row` with every `v` dropped, order kept. */
  function Without(row: Row, v: int): (r: Row)
    ensures |r| <= |row|
  {
    if row == [] then []
    else
      var init := Without(row[..|row| - 1], v);
      if row[|row| - 1] == v then init else init + [row[|row| - 1]]
  }

  lemma {:induction false} WithoutMultiset(row: Row, v: int)
    ensures multiset(Without(row, v)) == multiset(row)[v := 0]
    ensures v !in Without(row, v)
  {
    if row != [] {
      var init := row[..|row| - 1];
      WithoutMultiset(init, v);
      assert row == init + [row[|row| - 1]];
    }
  }

  lemma {:induction false} WithoutConcat(a: Row, b: Row, v: int)
    ensures Without(a + b, v) == Without(a, v) + Without(b, v)
    decreases |b|
  {
    if b == [] {
      assert a + b == a;
    } else {
      var init, x := b[..|b| - 1], b[|b| - 1];
      WithoutConcat(a, init, v);
      assert (a + b)[..|a + b| - 1] == a + init;
      assert (a + b)[|a + b| - 1] == x;
      if x != v {
        assert Without(a + b, v) == Without(a + init, v) + [x];
        assert Without(b, v) == Without(init, v) + [x];
      }
    }
  }

  /** A row without `v` is left as it is. */
  lemma {:induction false} WithoutAbsent(row: Row, v: int)
    requires v !in row
    ensures Without(row, v) == row
  {
    if row != [] {
      WithoutAbsent(row[..|row| - 1], v);
    }
  }

  lemma WithoutExample(row: Row)
    requires row == [0, 1, 0, 2, 0]
    ensures Without(row, 0) == [1, 2]
  {
    WithoutConcat([0, 1, 0], [2, 0], 0);
    WithoutConcat([0], [1, 0], 0);
    assert [0, 1, 0] == [0] + [1, 0];
    assert row == [0, 1, 0] + [2, 0];
  }

  /** The loop of `remove_value`, before `clean()`. */
  function ValueRemoved(rows: Rows, v: int): (r: Rows)
    ensures |r| == |rows| && forall i :: 0 <= i < |rows| ==> r[i] == Without(rows[i], v)
  {
    seq(|rows|, i requires 0 <= i < |rows| => Without(rows[i], v))
  }

  /** `row` with every `from` replaced by `to`. */
  function Replaced(row: Row, from: int, to: int): (r: Row)
    ensures |r| == |row|
    ensures forall j :: 0 <= j < |row| ==> r[j] == if row[j] == from then to else row[j]
  {
    seq(|row|, j requires 0 <= j < |row| => if row[j] == from then to else row[j])
  }

  /** Replacing back restores the row when `to` did not occur in it. */
  lemma ReplacedBack(row: Row, from: int, to: int)
    requires to !in row
    ensures Replaced(Replaced(row, from, to), to, from) == row
  {
  }

  lemma ReplacedRemovesOld(row: Row, from: int, to: int)
    requires from != to
    ensures from !in Replaced(row, from, to)
    ensures multiset(Replaced(row, from, to))[to] == multiset(row)[to] + multiset(row)[from]
  {
    ReplacedCount(row, from, to);
  }

  lemma {:induction false} ReplacedCount(row: Row, from: int, to: int)
    requires from != to
    ensures multiset(Replaced(row, from, to))[to] == multiset(row)[to] + multiset(row)[from]
  {
    if row != [] {
      var init := row[..|row| - 1];
      ReplacedCount(init, from, to);
      assert row == init + [row[|row| - 1]];
      assert Replaced(row, from, to) == Replaced(init, from, to) + [Replaced(row, from, to)[|row| - 1]];
    }
  }

  /** The loop of `replace_value`, before `clean()`. */
  function ValueReplaced(rows: Rows, from: int, to: int): (r: Rows)
    ensures |r| == |rows| && forall i :: 0 <= i < |rows| ==> r[i] == Replaced(rows[i], from, to)
  {
    seq(|rows|, i requires 0 <= i < |rows| => Replaced(rows[i], from, to))
  }

  /** `replace_value` keeps every row length, so on rectangular rows its `clean()` does nothing. */
  lemma ReplaceValueKeepsShape(rows: Rows, from: int, to: int)
    ensures MaxWidth(ValueReplaced(rows, from, to)) == MaxWidth(rows)
    ensures Rectangular(rows) ==> Cleaned(ValueReplaced(rows, from, to)) == ValueReplaced(rows, from, to)
  {
    SameWidths(ValueReplaced(rows, from, to), rows);
  }

  // ---------------------------------------------------------------------
  // swap_lines, swap_columns (matrix.hpp:265-301)

  /** `iter_swap` of two rows. */
  function LinesSwapped(rows: Rows, a: nat, b: nat): (r: Rows)
    requires a < |rows| && b < |rows|
    ensures |r| == |rows| && r[a] == rows[b] && r[b] == rows[a]
    ensures forall i :: 0 <= i < |rows| && i != a && i != b ==> r[i] == rows[i]
  {
    rows[a := rows[b]][b := rows[a]]
  }

  /** `swap_lines` twice with the same indices restores rectangular rows. */
  lemma SwapLinesSelfInverse(rows: Rows, a: nat, b: nat)
    requires Rectangular(rows) && a < |rows| && b < |rows|
    ensures Cleaned(LinesSwapped(Cleaned(LinesSwapped(rows, a, b)), a, b)) == rows
  {
    var s := LinesSwapped(rows, a, b);
    assert Uniform(s, MaxWidth(rows));
    UniformMaxWidth(s, MaxWidth(rows));
    CleanedRectangular(s);
    var t := LinesSwapped(s, a, b);
    assert t == rows;
    CleanedRectangular(rows);
  }

  /** `iter_swap` of two cells of one row, done only when the row has both. */
  function CellsSwapped(row: Row, a: nat, b: nat): (r: Row)
    ensures |r| == |row|
    ensures Max(a, b) < |row| ==> r == row[a := row[b]][b := row[a]]
    ensures Max(a, b) >= |row| ==> r == row
  {
    if Max(a, b) < |row| then row[a := row[b]][b := row[a]] else row
  }

  /** The loop of `swap_columns`, before `clean()`. */
  function ColumnsSwapped(rows: Rows, a: nat, b: nat): (r: Rows)
    ensures |r| == |rows| && forall i :: 0 <= i < |rows| ==> r[i] == CellsSwapped(rows[i], a, b)
  {
    seq(|rows|, i requires 0 <= i < |rows| => CellsSwapped(rows[i], a, b))
  }

  lemma CellsSwappedTwice(row: Row, a: nat, b: nat)
    ensures CellsSwapped(CellsSwapped(row, a, b), a, b) == row
  {
  }

  /** `swap_columns` twice with the same indices restores rectangular rows. */
  lemma SwapColumnsSelfInverse(rows: Rows, a: nat, b: nat)
    requires Rectangular(rows)
    ensures Cleaned(ColumnsSwapped(Cleaned(ColumnsSwapped(rows, a, b)), a, b)) == rows
  {
    var w := MaxWidth(rows);
    var s := ColumnsSwapped(rows, a, b);
    assert Uniform(s, w);
    WidenedIsRectangular(s, w);
    var t := ColumnsSwapped(s, a, b);
    forall i | 0 <= i < |rows|
      ensures t[i] == rows[i]
    {
      CellsSwappedTwice(rows[i], a, b);
    }
    assert t == rows;
    CleanedRectangular(rows);
  }

  /** The demo at Source.cpp:14-17: only the second row is wide enough to swap columns 3 and 4. */
  lemma SwapColumnsDemo(rows: Rows)
    requires rows == [[10, 2, 3], [0, 1, 2, 85, 520]]
    ensures Cleaned(ColumnsSwapped(rows, 3, 4)) == [[10, 2, 3, 0, 0], [0, 1, 2, 520, 85]]
  {
    var s := ColumnsSwapped(rows, 3, 4);
    assert s[0] == [10, 2, 3] && s[1] == [0, 1, 2, 520, 85];
    assert MaxWidth(s) == 5 by {
      assert |s[1]| == 5;
    }
    var c := Cleaned(s);
    assert c[0] == [10, 2, 3, 0, 0] && c[1] == [0, 1, 2, 520, 85];
  }

  // ---------------------------------------------------------------------
  // remove_line, remove_column (matrix.hpp:328-349)

  /** What `remove_line(k)` erases as written: rows `[0, k)`. */
  function LinesDropped(rows: Rows, k: nat): (r: Rows)
    requires k < |rows|
    ensures |r| == |rows| - k && forall i :: 0 <= i < |r| ==> r[i] == rows[k + i]
  {
    rows[k..]
  }

  /** Removing only row `k`, as the name and the error message of `remove_line` say. */
  function LineRemoved(rows: Rows, k: nat): (r: Rows)
    requires k < |rows|
    ensures |r| == |rows| - 1
    ensures forall i :: 0 <= i < k ==> r[i] == rows[i]
    ensures forall i :: k <= i < |r| ==> r[i] == rows[i + 1]
  {
    rows[..k] + rows[k + 1..]
  }

  /** `remove_line(0)` as written removes nothing, and `remove_line(1)` removes row 0 instead of row 1. */
  lemma RemoveLineCounterexample(rows: Rows)
    requires rows == [[1], [2], [3]]
    ensures LinesDropped(rows, 0) == rows && LineRemoved(rows, 0) == [[2], [3]]
    ensures LinesDropped(rows, 1) == [[2], [3]] && LineRemoved(rows, 1) == [[1], [3]]
  {
  }

  lemma InsertedRowsWidth(rows: Rows, index: nat, line: Row, w: nat)
    requires index <= |rows| && Uniform(rows, w) && |line| == w
    ensures Uniform(rows[..index] + [line] + rows[index..], w)
  {
    var s := rows[..index] + [line] + rows[index..];
    forall i | 0 <= i < |s|
      ensures |s[i]| == w
    {
      if i < index {
        assert s[i] == rows[i];
      } else if i > index {
        assert s[i] == rows[i - 1];
      }
    }
  }

  lemma RemoveInsertedRow(rows: Rows, index: nat, line: Row)
    requires index < |rows|
    ensures LineRemoved(rows[..index] + [line] + rows[index..], index) == rows
  {
    var s := rows[..index] + [line] + rows[index..];
    assert s[..index] == rows[..index];
    assert s[index + 1..] == rows[index..];
    assert rows[..index] + rows[index..] == rows;
  }

  /** Removing the row just inserted gives back rectangular rows. */
  lemma RemoveLineUndoesInsertLine(rows: Rows, index: nat, line: Row)
    requires Rectangular(rows) && index < |rows| && |line| == MaxWidth(rows)
    ensures Cleaned(LineRemoved(InsertedLine(rows, index, line), index)) == rows
  {
    var w := MaxWidth(rows);
    InsertedRowsWidth(rows, index, line, w);
    WidenedIsRectangular(rows[..index] + [line] + rows[index..], w);
    RemoveInsertedRow(rows, index, line);
    CleanedRectangular(rows);
  }

  /** The loop of `remove_column`, before `clean()`. */
  function ColumnRemoved(rows: Rows, k: nat): (r: Rows)
    ensures |r| == |rows| && forall i :: 0 <= i < |rows| ==> r[i] == RemoveAt(rows[i], k)
  {
    seq(|rows|, i requires 0 <= i < |rows| => RemoveAt(rows[i], k))
  }

  // ---------------------------------------------------------------------
  // Queries: min_columns, line_sum, column_sum, sum, max_val_size_column

  /** The length of the shortest row, 0 when there is none: what `min_columns` is documented to return. */
  function MinWidth(rows: Rows): (w: nat)
    ensures forall i :: 0 <= i < |rows| ==> w <= |rows[i]|
    ensures rows == [] ==> w == 0
    ensures rows != [] ==> exists i :: 0 <= i < |rows| && |rows[i]| == w
  {
    if rows == [] then 0
    else
      var init := rows[..|rows| - 1];
      var last := |rows[|rows| - 1]|;
      var w := MinWidth(init);
      if init != [] && w <= last then
        var i :| 0 <= i < |init| && |init[i]| == w;
        assert |rows[i]| == w;
        w
      else
        last
  }

  /** `min_columns` starts from 0 and takes minima, so it returns 0 even when every row is longer. */
  lemma MinColumnsCounterexample()
    ensures MinWidth([[1, 2]]) == 2
  {
    var rows: Rows := [[1, 2]];
    assert |rows[0]| == 2;
  }

  /** The sum of a row (what `std::accumulate` from 0 gives). */
  function SeqSum(row: Row): int {
    if row == [] then 0 else SeqSum(row[..|row| - 1]) + row[|row| - 1]
  }

  lemma {:induction false} SeqSumConcat(a: Row, b: Row)
    ensures SeqSum(a + b) == SeqSum(a) + SeqSum(b)
    decreases |b|
  {
    if b == [] {
      assert a + b == a;
    } else {
      var init := b[..|b| - 1];
      SeqSumConcat(a, init);
      assert (a + b)[..|a + b| - 1] == a + init;
      assert (a + b)[|a + b| - 1] == b[|b| - 1];
    }
  }

  /** Padding with zeros does not change a row's sum. */
  lemma SeqSumPad(row: Row, w: nat)
    ensures SeqSum(Pad(row, w)) == SeqSum(row)
  {
    if |row| < w {
      SeqSumConcat(row, Zeros(w - |row|));
      SeqSumZeros(w - |row|);
    }
  }

  lemma {:induction false} SeqSumZeros(n: nat)
    ensures SeqSum(Zeros(n)) == 0
  {
    if n > 0 {
      SeqSumZeros(n - 1);
      assert Zeros(n)[..n - 1] == Zeros(n - 1);
    }
  }

  lemma SeqSumSnoc(row: Row, x: int)
    ensures SeqSum(row + [x]) == SeqSum(row) + x
  {
    assert (row + [x])[..|row|] == row;
  }

  /** `remove_value(v)` lowers a row's sum by `v` once per occurrence. */
  lemma {:induction false} SeqSumWithout(row: Row, v: int)
    ensures SeqSum(Without(row, v)) == SeqSum(row) - v * multiset(row)[v]
  {
    if row != [] {
      var init, x := row[..|row| - 1], row[|row| - 1];
      var c := multiset(init)[v];
      SeqSumWithout(init, v);
      assert SeqSum(row) == SeqSum(init) + x;
      assert init + [x] == row;
      CountSnoc(init, x, v);
      if x == v {
        assert Without(row, v) == Without(init, v);
        MulSucc(v, c);
      } else {
        assert Without(row, v) == Without(init, v) + [x];
        SeqSumSnoc(Without(init, v), x);
      }
    }
  }

  lemma MulSucc(v: int, c: int)
    ensures v * (c + 1) == v * c + v
  {
  }

  lemma CountSnoc(init: Row, x: int, v: int)
    ensures multiset(init + [x])[v] == multiset(init)[v] + if x == v then 1 else 0
  {
    assert multiset(init + [x]) == multiset(init) + multiset{x};
  }

  /** The sum of cell `column` over the rows that have one (`column_sum`). */
  function ColumnTotal(rows: Rows, column: nat): int {
    if rows == [] then 0
    else
      var last := rows[|rows| - 1];
      ColumnTotal(rows[..|rows| - 1], column) + (if column < |last| then last[column] else 0)
  }

  /** `column_sum` is 0 when no row is wide enough. */
  lemma {:induction false} ColumnTotalNarrow(rows: Rows, column: nat)
    requires forall i :: 0 <= i < |rows| ==> |rows[i]| <= column
    ensures ColumnTotal(rows, column) == 0
  {
    if rows != [] {
      ColumnTotalNarrow(rows[..|rows| - 1], column);
    }
  }

  /** Padding rows with zeros does not change any column sum. */
  lemma {:induction false} ColumnTotalPadAll(rows: Rows, w: nat, column: nat)
    ensures ColumnTotal(PadAll(rows, w), column) == ColumnTotal(rows, column)
  {
    if rows != [] {
      var init := rows[..|rows| - 1];
      ColumnTotalPadAll(init, w, column);
      assert PadAll(rows, w)[..|rows| - 1] == PadAll(init, w);
    }
  }

  /** `clean()` leaves every column sum as it was. */
  lemma ColumnTotalCleaned(rows: Rows, column: nat)
    ensures ColumnTotal(Cleaned(rows), column) == ColumnTotal(rows, column)
  {
    ColumnTotalPadAll(rows, MaxWidth(rows), column);
  }

  /** The sum of every cell (`sum`). */
  function Total(rows: Rows): int {
    if rows == [] then 0 else Total(rows[..|rows| - 1]) + SeqSum(rows[|rows| - 1])
  }

  lemma {:induction false} TotalPadAll(rows: Rows, w: nat)
    ensures Total(PadAll(rows, w)) == Total(rows)
  {
    if rows != [] {
      var init := rows[..|rows| - 1];
      TotalPadAll(init, w);
      assert PadAll(rows, w)[..|rows| - 1] == PadAll(init, w);
      SeqSumPad(rows[|rows| - 1], w);
    }
  }

  /** `clean()` leaves the total as it was. */
  lemma TotalCleaned(rows: Rows)
    ensures Total(Cleaned(rows)) == Total(rows)
  {
    TotalPadAll(rows, MaxWidth(rows));
  }

  /** The number of characters of `std::to_string(x)`. */
  function DecimalWidth(x: int): (n: nat)
    ensures n >= 1
  {
    |IntText(x)|
  }

  /** The text width of cell `column` of `row`, 0 when the row is too short. */
  function CellWidth(row: Row, column: nat): (n: nat)
    ensures n == 0 <==> |row| <= column
  {
    if column < |row| then DecimalWidth(row[column]) else 0
  }

  /** The largest element, 0 for the empty sequence. */
  function MaxOf(s: seq<nat>): (m: nat)
    ensures forall i :: 0 <= i < |s| ==> s[i] <= m
    ensures m > 0 ==> exists i :: 0 <= i < |s| && s[i] == m
  {
    if s == [] then 0
    else
      var init := s[..|s| - 1];
      var w := MaxOf(init);
      if w == 0 || s[|s| - 1] >= w then
        s[|s| - 1]
      else
        var i :| 0 <= i < |init| && init[i] == w;
        assert s[i] == w;
        w
  }

  /** The text widths of cell `column`, row by row. */
  function ColumnWidths(rows: Rows, column: nat): (r: seq<nat>)
    ensures |r| == |rows| && forall i :: 0 <= i < |rows| ==> r[i] == CellWidth(rows[i], column)
  {
    seq(|rows|, i requires 0 <= i < |rows| => CellWidth(rows[i], column))
  }

  /** The widest text of cell `column` over the rows that have one (`max_val_size_column`). */
  function MaxDecimalWidth(rows: Rows, column: nat): (w: nat)
    ensures forall i :: 0 <= i < |rows| ==> CellWidth(rows[i], column) <= w
    ensures w > 0 ==> exists i :: 0 <= i < |rows| && CellWidth(rows[i], column) == w
  {
    var widths := ColumnWidths(rows, column);
    var w := MaxOf(widths);
    assert forall i :: 0 <= i < |rows| ==> widths[i] == CellWidth(rows[i], column);
    w
  }

  /** One more row extends the maximum by that row's cell, if it has one. */
  lemma MaxDecimalWidthStep(rows: Rows, i: nat, column: nat)
    requires i < |rows|
    ensures MaxDecimalWidth(rows[..i + 1], column) == Max(MaxDecimalWidth(rows[..i], column), CellWidth(rows[i], column))
  {
    var widths := ColumnWidths(rows[..i + 1], column);
    assert widths[..i] == ColumnWidths(rows[..i], column);
    assert widths[i] == CellWidth(rows[i], column);
  }

  /** `max_val_size_column` is 0 exactly when no row has the column. */
  lemma MaxDecimalWidthZero(rows: Rows, column: nat)
    ensures MaxDecimalWidth(rows, column) == 0 <==> forall i :: 0 <= i < |rows| ==> |rows[i]| <= column
  {
    if exists i :: 0 <= i < |rows| && column < |rows[i]| {
      var i :| 0 <= i < |rows| && column < |rows[i]|;
      assert CellWidth(rows[i], column) > 0;
    }
  }
}
