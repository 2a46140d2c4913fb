/**
 * `math::Matrix2D<int>` (`IMatrix2D`) of matrix.hpp: a list of rows edited
 * in place. Rows need not have equal lengths: `SetRow` and the early
 * returns of `PushColumn`, `InsertLine` and `InsertColumn` skip `clean()`.
 * A call of `error()` ends the program; here it is a `false` (or `None`)
 * result with the rows left as they were.
 */
module Matrix {
  import opened Wrappers
  import opened Cpp
  import opened MatrixSpec
  import Utils

  class Matrix2D {
    var rows: Rows

    /** `clean()`, matrix.hpp:22-50: find the longest row, then pad every shorter row with zeros. */
    method Clean()
      modifies this
      ensures rows == Cleaned(old(rows))
    {
      var finalLength := MaxColumns();
      var vals := rows;
      var i := 0;
      while i < |vals|
        invariant 0 <= i <= |vals| == |old(rows)| && finalLength == MaxWidth(old(rows))
        invariant forall j :: 0 <= j < i ==> vals[j] == Pad(old(rows)[j], finalLength)
        invariant forall j :: i <= j < |vals| ==> vals[j] == old(rows)[j]
      {
        var line := PadRow(vals[i], finalLength);
        vals := vals[i := line];
        i := i + 1;
      }
      rows := vals;
    }

    /** The `reduce_number(line)` pass every mutator makes: the identity on `int` rows. */
    method ReduceRows()
      modifies this
      ensures rows == old(rows)
    {
      var i := 0;
      while i < |rows|
        invariant 0 <= i <= |rows| && rows == old(rows)
      {
        var line := Utils.ReduceNumbers(rows[i]);
        rows := rows[i := line];
        i := i + 1;
      }
    }

    /** `Matrix2D(lines, columns)`, matrix.hpp:53-68: `lines` empty rows; `columns` only reserves capacity. */
    constructor Sized(lines: nat, columns: nat)
      ensures rows == seq(lines, _ => [])
    {
      var vals: Rows := [];
      while |vals| < lines
        invariant |vals| <= lines && vals == seq(|vals|, _ => [])
      {
        vals := vals + [[]];
      }
      rows := vals;
      new;
      ReduceRows();
      WidenedIsRectangular(rows, 0);
      Clean();
    }

    /** `Matrix2D()`, matrix.hpp:53-68 with its default arguments: two empty rows. */
    constructor Default()
      ensures rows == [[], []]
    {
      rows := [[], []];
      new;
      ReduceRows();
      WidenedIsRectangular(rows, 0);
      Clean();
    }

    /** `Matrix2D(lines, line)`, matrix.hpp:70-79: `lines` copies of `line`. */
    constructor Replicated(lines: nat, line: Row)
      ensures rows == seq(lines, _ => line)
    {
      var vals: Rows := [];
      while |vals| < lines
        invariant |vals| <= lines && vals == seq(|vals|, _ => line)
      {
        vals := vals + [line];
      }
      rows := vals;
      new;
      ReduceRows();
      WidenedIsRectangular(rows, |line|);
      Clean();
    }

    /** `Matrix2D(vals)`, matrix.hpp:81-87: the given rows, cleaned. */
    constructor FromRows(vals: Rows)
      ensures rows == Cleaned(vals)
    {
      rows := vals;
      new;
      ReduceRows();
      Clean();
    }

    /** `fill_column(column, value)`, matrix.hpp:89-99: rows too short for `column` are skipped. */
    method FillColumn(column: nat, value: int)
      modifies this
      ensures rows == Cleaned(ColumnFilled(old(rows), column, value))
    {
      var i := 0;
      while i < |rows|
        invariant 0 <= i <= |rows| == |old(rows)|
        invariant forall j :: 0 <= j < i ==> rows[j] == SetCell(old(rows)[j], column, value)
        invariant forall j :: i <= j < |rows| ==> rows[j] == old(rows)[j]
      {
        if column < |rows[i]| {
          rows := rows[i := rows[i][column := value]];
        }
        i := i + 1;
      }
      assert rows == ColumnFilled(old(rows), column, value);
      ReduceRows();
      Clean();
    }

    /** `fill_line(line, value)`, matrix.hpp:101-110: fails when `line` is not a row index. */
    method FillLine(line: nat, value: int) returns (ok: bool)
      modifies this
      ensures ok <==> line < |old(rows)|
      ensures ok ==> rows == Cleaned(LineFilled(old(rows), line, value))
      ensures !ok ==> rows == old(rows)
    {
      if line >= |rows| {
        return false;
      }
      var cells := rows[line];
      var j := 0;
      while j < |cells|
        invariant 0 <= j <= |cells| == |old(rows)[line]|
        invariant forall c :: 0 <= c < j ==> cells[c] == value
      {
        cells := cells[j := value];
        j := j + 1;
      }
      assert cells == Constant(|old(rows)[line]|, value);
      rows := rows[line := cells];
      ReduceRows();
      Clean();
      return true;
    }

    /**
     * `fill(value)`, matrix.hpp:112-120: `fill_line` on every row in turn.
     * The first call pads row 0 with zeros after filling it.
     */
    method Fill(value: int)
      modifies this
      ensures rows == FilledAsWritten(old(rows), value)
    {
      ghost var original := rows;
      var line := 0;
      while line < |rows|
        invariant 0 <= line <= |rows| == |original|
        invariant line == 0 ==> rows == original
        invariant line > 0 ==> FillProgress(original, value, rows, line)
      {
        ghost var current := rows;
        if line == 0 {
          FillFirstStep(original, value);
        } else {
          FillLaterStep(original, value, current, line);
        }
        var ok := FillLine(line, value);
        line := line + 1;
      }
      FillFinished(original, value, rows);
      ReduceRows();
      Clean();
    }

    /** `lines()`, matrix.hpp:122-124. */
    function Lines(): (n: nat)
      reads this
      ensures n == |rows|
    {
      |rows|
    }

    /**
     * `min_columns()`, matrix.hpp:126-133, as written: the running minimum
     * starts at 0, so the result is always 0.
     */
    method MinColumns() returns (result: nat)
      ensures result == 0
    {
      result := 0;
      var i := 0;
      while i < |rows|
        invariant 0 <= i <= |rows| && result == 0
      {
        var width: nat := |rows[i]|;
        if width < result {
          result := width;
        }
        i := i + 1;
      }
    }

    /** `max_columns()`, matrix.hpp:135-142: the length of the longest row. */
    method MaxColumns() returns (result: nat)
      ensures result == MaxWidth(rows)
    {
      result := 0;
      var i := 0;
      while i < |rows|
        invariant 0 <= i <= |rows| && result == MaxWidth(rows[..i])
      {
        MaxWidthStep(rows, i);
        result := if result >= |rows[i]| then result else |rows[i]|;
        i := i + 1;
      }
      assert rows[..i] == rows;
    }

    /** `operator[](index) const`, matrix.hpp:151-156: a copy of row `index`. */
    method GetRow(index: nat) returns (r: Option<Row>)
      ensures r.None? <==> index >= |rows|
      ensures r.Some? ==> r.value == rows[index]
    {
      if index >= |rows| {
        return None;
      }
      return Some(rows[index]);
    }

    /**
     * `operator[](index)`, matrix.hpp:144-149, used to assign a whole row
     * (Source.cpp:14-15): the row is replaced and `clean()` does not run.
     */
    method SetRow(index: nat, row: Row) returns (ok: bool)
      modifies this
      ensures ok <==> index < |old(rows)|
      ensures ok ==> rows == old(rows)[index := row]
      ensures !ok ==> rows == old(rows)
    {
      if index >= |rows| {
        return false;
      }
      rows := rows[index := row];
      return true;
    }

    /** `push_line(line)`, matrix.hpp:158-164. */
    method PushLine(line: Row)
      modifies this
      ensures rows == Cleaned(old(rows) + [line])
    {
      rows := rows + [line];
      ReduceRows();
      Clean();
    }

    /**
     * `push_column(column)`, matrix.hpp:166-187: row `i` gets `column[i]`;
     * a column shorter than the row count stops the loop and returns
     * without `clean()` (the `return 0;` at matrix.hpp:179 is read as `return;`).
     */
    method PushColumn(column: Row)
      modifies this
      ensures rows == PushedColumn(old(rows), column)
    {
      var i := 0;
      while i < |rows|
        invariant 0 <= i <= |rows| == |old(rows)|
        invariant forall j :: 0 <= j < i ==> j < |column| && rows[j] == old(rows)[j] + [column[j]]
        invariant forall j :: i <= j < |rows| ==> rows[j] == old(rows)[j]
      {
        if i >= |column| {
          assert rows == ColumnPushed(old(rows), column);
          return;
        }
        rows := rows[i := rows[i] + [column[i]]];
        i := i + 1;
      }
      assert rows == ColumnPushed(old(rows), column);
      ReduceRows();
      Clean();
    }

    /**
     * `insert_line(index, line)`, matrix.hpp:189-199: past the end the row
     * is appended and `clean()` is skipped; otherwise it is inserted before
     * row `index` (the intent of `vals_.insert(index, line)`).
     */
    method InsertLine(index: nat, line: Row)
      modifies this
      ensures rows == InsertedLine(old(rows), index, line)
    {
      if index >= |rows| {
        rows := rows + [line];
        return;
      }
      rows := rows[..index] + [line] + rows[index..];
      ReduceRows();
      Clean();
    }

    /**
     * `insert_column(index, column)`, matrix.hpp:201-216: row `i` gets
     * `column[i]` before cell `index`, or at its end when it is shorter; a
     * column shorter than the row count returns without `clean()`.
     */
    method InsertColumn(index: nat, column: Row)
      modifies this
      ensures rows == InsertedColumn(old(rows), index, column)
    {
      var i := 0;
      while i < |rows|
        invariant 0 <= i <= |rows| == |old(rows)|
        invariant forall j :: 0 <= j < i ==> j < |column| && rows[j] == InsertAt(old(rows)[j], index, column[j])
        invariant forall j :: i <= j < |rows| ==> rows[j] == old(rows)[j]
      {
        if i >= |column| {
          assert rows == ColumnInserted(old(rows), index, column);
          return;
        }
        if index >= |rows[i]| {
          rows := rows[i := rows[i] + [column[i]]];
        } else {
          rows := rows[i := rows[i][..index] + [column[i]] + rows[i][index..]];
        }
        i := i + 1;
      }
      assert rows == ColumnInserted(old(rows), index, column);
      ReduceRows();
      Clean();
    }

    /** `reset()`, matrix.hpp:218-224: no rows at all. */
    method Reset()
      modifies this
      ensures rows == []
    {
      rows := [];
      ReduceRows();
      Clean();
    }

    /** `remove_value(value)`, matrix.hpp:226-242: each row rebuilt without `value`. */
    method RemoveValue(value: int)
      modifies this
      ensures rows == Cleaned(ValueRemoved(old(rows), value))
    {
      var i := 0;
      while i < |rows|
        invariant 0 <= i <= |rows| == |old(rows)|
        invariant forall j :: 0 <= j < i ==> rows[j] == Without(old(rows)[j], value)
        invariant forall j :: i <= j < |rows| ==> rows[j] == old(rows)[j]
      {
        var line := rows[i];
        var newLine := [];
        var c := 0;
        while c < |line|
          invariant 0 <= c <= |line| && newLine == Without(line[..c], value)
        {
          assert line[..c + 1][..c] == line[..c];
          if line[c] != value {
            newLine := newLine + [line[c]];
          }
          c := c + 1;
        }
        assert line[..c] == line;
        rows := rows[i := newLine];
        i := i + 1;
      }
      assert rows == ValueRemoved(old(rows), value);
      ReduceRows();
      Clean();
    }

    /** `replace_value(old_value, new_value)`, matrix.hpp:244-263: each row rebuilt with `from` mapped to `to`. */
    method ReplaceValue(from: int, to: int)
      modifies this
      ensures rows == Cleaned(ValueReplaced(old(rows), from, to))
    {
      var i := 0;
      while i < |rows|
        invariant 0 <= i <= |rows| == |old(rows)|
        invariant forall j :: 0 <= j < i ==> rows[j] == Replaced(old(rows)[j], from, to)
        invariant forall j :: i <= j < |rows| ==> rows[j] == old(rows)[j]
      {
        var line := rows[i];
        var newLine := [];
        var c := 0;
        while c < |line|
          invariant 0 <= c <= |line| && newLine == Replaced(line[..c], from, to)
        {
          if line[c] != from {
            newLine := newLine + [line[c]];
          } else {
            newLine := newLine + [to];
          }
          c := c + 1;
        }
        assert line[..c] == line;
        rows := rows[i := newLine];
        i := i + 1;
      }
      assert rows == ValueReplaced(old(rows), from, to);
      ReduceRows();
      Clean();
    }

    /** `swap_lines(first, second)`, matrix.hpp:265-277: fails when either is not a row index. */
    method SwapLines(first: nat, second: nat) returns (ok: bool)
      modifies this
      ensures ok <==> first < |old(rows)| && second < |old(rows)|
      ensures ok ==> rows == Cleaned(LinesSwapped(old(rows), first, second))
      ensures !ok ==> rows == old(rows)
    {
      if first >= |rows| || second >= |rows| {
        return false;
      }
      rows := rows[first := rows[second]][second := rows[first]];
      ReduceRows();
      Clean();
      return true;
    }

    /** `swap_columns(first, second)`, matrix.hpp:279-301: only rows that have both cells are swapped. */
    method SwapColumns(first: nat, second: nat)
      modifies this
      ensures rows == Cleaned(ColumnsSwapped(old(rows), first, second))
    {
      var i := 0;
      while i < |rows|
        invariant 0 <= i <= |rows| == |old(rows)|
        invariant forall j :: 0 <= j < i ==> rows[j] == CellsSwapped(old(rows)[j], first, second)
        invariant forall j :: i <= j < |rows| ==> rows[j] == old(rows)[j]
      {
        var line := rows[i];
        if Max(first, second) < |line| {
          rows := rows[i := line[first := line[second]][second := line[first]]];
        }
        i := i + 1;
      }
      assert rows == ColumnsSwapped(old(rows), first, second);
      ReduceRows();
      Clean();
    }

    /**
     * `line_sum(index)`, matrix.hpp:303-308, with the range check it is
     * meant to have: no sum when `index` is not a row index.
     */
    method LineSum(index: nat) returns (r: Option<int>)
      ensures r.None? <==> index >= |rows|
      ensures r.Some? ==> r.value == SeqSum(rows[index])
    {
      if index >= |rows| {
        return None;
      }
      var line := rows[index];
      var total := 0;
      var c := 0;
      while c < |line|
        invariant 0 <= c <= |line| && total == SeqSum(line[..c])
      {
        assert line[..c + 1][..c] == line[..c];
        total := total + line[c];
        c := c + 1;
      }
      assert line[..c] == line;
      return Some(total);
    }

    /** `column_sum(column)`, matrix.hpp:310-318: rows too short for `column` add nothing. */
    method ColumnSum(column: nat) returns (result: int)
      ensures result == ColumnTotal(rows, column)
    {
      result := 0;
      var i := 0;
      while i < |rows|
        invariant 0 <= i <= |rows| && result == ColumnTotal(rows[..i], column)
      {
        assert rows[..i + 1][..i] == rows[..i];
        if column < |rows[i]| {
          result := result + rows[i][column];
        }
        i := i + 1;
      }
      assert rows[..i] == rows;
    }

    /** `sum()`, matrix.hpp:320-326: every row's sum added up. */
    method Sum() returns (result: int)
      ensures result == Total(rows)
    {
      result := 0;
      var i := 0;
      while i < |rows|
        invariant 0 <= i <= |rows| && result == Total(rows[..i])
      {
        assert rows[..i + 1][..i] == rows[..i];
        var line := rows[i];
        var lineTotal := 0;
        var c := 0;
        while c < |line|
          invariant 0 <= c <= |line| && lineTotal == SeqSum(line[..c])
        {
          assert line[..c + 1][..c] == line[..c];
          lineTotal := lineTotal + line[c];
          c := c + 1;
        }
        assert line[..c] == line;
        result := result + lineTotal;
        i := i + 1;
      }
      assert rows[..i] == rows;
    }

    /**
     * `remove_line(index)`, matrix.hpp:328-337, as written: fails when
     * `index` is not a row index, otherwise erases rows `[0, index)`.
     */
    method RemoveLine(index: nat) returns (ok: bool)
      modifies this
      ensures ok <==> index < |old(rows)|
      ensures ok ==> rows == Cleaned(LinesDropped(old(rows), index))
      ensures !ok ==> rows == old(rows)
    {
      if index >= |rows| {
        return false;
      }
      rows := rows[index..];
      ReduceRows();
      Clean();
      return true;
    }

    /** `remove_column(index)`, matrix.hpp:339-349: rows too short for `index` are skipped. */
    method RemoveColumn(index: nat)
      modifies this
      ensures rows == Cleaned(ColumnRemoved(old(rows), index))
    {
      var i := 0;
      while i < |rows|
        invariant 0 <= i <= |rows| == |old(rows)|
        invariant forall j :: 0 <= j < i ==> rows[j] == RemoveAt(old(rows)[j], index)
        invariant forall j :: i <= j < |rows| ==> rows[j] == old(rows)[j]
      {
        var line := rows[i];
        if index < |line| {
          rows := rows[i := line[..index] + line[index + 1..]];
        }
        i := i + 1;
      }
      assert rows == ColumnRemoved(old(rows), index);
      ReduceRows();
      Clean();
    }

    /** `max_val_size_column(column)`, matrix.hpp:375-384: the widest decimal text in that column. */
    method MaxValSizeColumn(column: nat) returns (result: nat)
      ensures result == MaxDecimalWidth(rows, column)
    {
      result := 0;
      var i := 0;
      while i < |rows|
        invariant 0 <= i <= |rows| && result == MaxDecimalWidth(rows[..i], column)
      {
        MaxDecimalWidthStep(rows, i, column);
        if column < |rows[i]| {
          var width := DecimalWidth(rows[i][column]);
          result := Max(result, width);
        }
        i := i + 1;
      }
      assert rows[..i] == rows;
    }
  }

  /** The inner loop of `clean()`: zeros pushed onto `row` until it has `w` cells. */
  method PadRow(row: Row, w: nat) returns (line: Row)
    ensures line == Pad(row, w)
  {
    line := row;
    if |line| < w {
      while |line| < w
        invariant |row| <= |line| <= w && line == Pad(row, |line|)
        decreases w - |line|
      {
        PadGrow(row, |line|);
        line := line + [0];
      }
    }
  }

  /** The guard of `line_sum` as written: `index >+ size` parses as `index > +size`. */
  predicate LineSumGuardRejects(index: nat, lines: nat) {
    index > lines
  }

  /**
   * The guard rejects only indexes with no row behind them, but not all of
   * them: `index == lines()` gets through and is then used to read a row
   * that does not exist.
   */
  lemma LineSumGuardAdmitsMissingRow(rows: Rows)
    ensures forall index: nat :: LineSumGuardRejects(index, |rows|) ==> index >= |rows|
    ensures exists index: nat :: !LineSumGuardRejects(index, |rows|) && index >= |rows|
  {
    assert !LineSumGuardRejects(|rows|, |rows|);
  }

  /** The calls of the demo in Source.cpp:12-17, replayed through the class's methods. */
  method DemoScenario() returns (grid: Rows)
    ensures grid == [[10, 2, 3, 0, 0], [0, 1, 2, 520, 85]]
  {
    var matrix := new Matrix2D.Default();
    var ok := matrix.SetRow(0, [10, 2, 3]);
    ok := matrix.SetRow(1, [0, 1, 2, 85, 520]);
    SwapColumnsDemo(matrix.rows);
    matrix.SwapColumns(3, 4);
    grid := matrix.rows;
  }

  /**
   * `min_columns()` on the one-row matrix `[[1, 2]]`: the shortest row has
   * length 2, yet the call returns 0.
   */
  method MinColumnsOnOneRow() returns (r: nat, shortest: nat)
    ensures r == 0 && shortest == 2
  {
    var matrix := new Matrix2D.FromRows([[1, 2]]);
    WidenedIsRectangular([[1, 2]], 2);
    r := matrix.MinColumns();
    MinColumnsCounterexample();
    shortest := MinWidth(matrix.rows);
  }
}
