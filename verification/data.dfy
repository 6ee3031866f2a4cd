/**
 * `DsvData` of DsvData.cs: the older, eager splitter. A first pass counts
 * the columns of the first line and stops at the first line break; a second
 * pass, from the start again, cuts every line at the delimiters into
 * strings. Quoting is not handled: the escape character only stops the
 * first pass from finding a line break.
 */
module DsvData {
  import opened Outcomes

  /** An element of a `string[]`: null until written. */
  datatype Cell = Null | Text(chars: string)

  /** What `DsvData` exposes: the header strings and the rows. */
  datatype Table = Table(headers: seq<Cell>, rows: seq<seq<Cell>>)

  /** A fresh `string[n]`. */
  function Nulls(n: nat): (r: seq<Cell>)
    ensures |r| == n && forall i :: 0 <= i < n ==> r[i] == Null
  {
    if n == 0 then [] else Nulls(n - 1) + [Null]
  }

  /** A fresh `ReadOnlyMemory<string>[n]`: every slot an empty memory. */
  function Blank(n: nat): (r: seq<seq<Cell>>)
    ensures |r| == n && forall i :: 0 <= i < n ==> r[i] == []
  {
    if n == 0 then [] else Blank(n - 1) + [[]]
  }

  function Max(a: int, b: int): int
  {
    if a < b then b else a
  }

  /** `SequenceEqual`, one character at a time from `k` on: does `lb` sit at `dsv[start..]`? */
  function MatchesFrom(dsv: string, lb: string, start: nat, k: nat): bool
    requires start + |lb| <= |dsv|
    decreases |lb| - k
  {
    k >= |lb| || (dsv[start + k] == lb[k] && MatchesFrom(dsv, lb, start, k + 1))
  }

  lemma {:induction false} MatchesFromAll(dsv: string, lb: string, start: nat, k: nat)
    requires start + |lb| <= |dsv|
    ensures MatchesFrom(dsv, lb, start, k) <==> forall j :: k <= j < |lb| ==> dsv[start + j] == lb[j]
    decreases |lb| - k
  {
    if k < |lb| {
      MatchesFromAll(dsv, lb, start, k + 1);
    }
  }

  /** `CheckLineFeed(dsv, lineBreak, i)`: does the line break end just before `i`? */
  function CheckLineFeed(dsv: string, lb: string, i: nat): (r: bool)
    requires i <= |dsv|
    ensures r <==> |lb| <= i && dsv[i - |lb|..i] == lb
  {
    if |lb| <= i then
      MatchesFromAll(dsv, lb, i - |lb|, 0);
      assert (forall j :: 0 <= j < |lb| ==> dsv[i - |lb| + j] == lb[j]) <==> dsv[i - |lb|..i] == lb;
      MatchesFrom(dsv, lb, i - |lb|, 0)
    else false
  }

  /** An escape character that is not also the delimiter: it switches the first pass into escaping for good. */
  predicate OpensEscape(o: Options, c: char)
  {
    c == o.escapeChar && c != o.delimiter
  }

  /** No escape was opened before `i`. */
  predicate Unescaped(dsv: string, o: Options, i: nat)
    requires i <= |dsv|
  {
    forall j :: 0 <= j < i ==> !OpensEscape(o, dsv[j])
  }

  /** The first pass stops at `i`: an ordinary character right after a line break. */
  predicate ClosesFirstLine(dsv: string, o: Options, i: nat)
    requires i < |dsv|
  {
    dsv[i] != o.delimiter && dsv[i] != o.escapeChar && CheckLineFeed(dsv, o.lineBreak, i)
  }

  /** What the first pass learns: the column count, and the index at which it stopped. */
  datatype Shape = Shape(columns: nat, stop: nat)

  /** The first pass of the `for` loop, from `i` on, `columns` delimiters counted so far. */
  function CountColumns(dsv: string, o: Options, i: nat, columns: nat, escaping: bool): Option<Shape>
    decreases |dsv| - i
  {
    if |dsv| <= i then None
    else if dsv[i] == o.delimiter then CountColumns(dsv, o, i + 1, if escaping then columns else columns + 1, escaping)
    else if dsv[i] == o.escapeChar then CountColumns(dsv, o, i + 1, columns, true)
    else if !escaping && CheckLineFeed(dsv, o.lineBreak, i) then Some(Shape(columns + 1, i))
    else CountColumns(dsv, o, i + 1, columns, escaping)
  }

  lemma {:induction false} CountOfSnoc(s: string, c: char, x: char)
    ensures CountOf(s + [c], x) == CountOf(s, x) + (if c == x then 1 else 0)
  {
    if |s| > 0 {
      assert (s + [c])[1..] == s[1..] + [c];
      CountOfSnoc(s[1..], c, x);
    }
  }

  /** What the first pass carries from `i` on: whether an escape was opened, and the delimiters counted otherwise. */
  predicate FirstPassAt(dsv: string, o: Options, i: nat, columns: nat, escaping: bool)
  {
    && i <= |dsv|
    && (escaping <==> !Unescaped(dsv, o, i))
    && (!escaping ==> columns == CountOf(dsv[..i], o.delimiter))
  }

  /** The first pass's variables after the character at `i`. */
  lemma FirstPassSteps(dsv: string, o: Options, i: nat, columns: nat, escaping: bool)
    requires FirstPassAt(dsv, o, i, columns, escaping) && i < |dsv|
    ensures dsv[i] == o.delimiter ==> FirstPassAt(dsv, o, i + 1, if escaping then columns else columns + 1, escaping)
    ensures dsv[i] != o.delimiter && dsv[i] == o.escapeChar ==> FirstPassAt(dsv, o, i + 1, columns, true)
    ensures dsv[i] != o.delimiter && dsv[i] != o.escapeChar ==> FirstPassAt(dsv, o, i + 1, columns, escaping)
  {
    assert dsv[..i + 1] == dsv[..i] + [dsv[i]];
    CountOfSnoc(dsv[..i], dsv[i], o.delimiter);
    assert Unescaped(dsv, o, i + 1) <==> Unescaped(dsv, o, i) && !OpensEscape(o, dsv[i]);
  }

  /**
   * When the first pass stops, it stops at the first character that closes
   * the first line before any escape was opened, and knows one column more
   * than the delimiters before it.
   */
  lemma {:induction false} FirstPassStopsAtFirstLine(dsv: string, o: Options, i: nat, columns: nat, escaping: bool)
    requires FirstPassAt(dsv, o, i, columns, escaping)
    ensures var r := CountColumns(dsv, o, i, columns, escaping);
            r.Some? ==> && i <= r.value.stop < |dsv|
                        && ClosesFirstLine(dsv, o, r.value.stop) && Unescaped(dsv, o, r.value.stop)
                        && (forall j :: i <= j < r.value.stop ==> !ClosesFirstLine(dsv, o, j))
                        && r.value.columns == CountOf(dsv[..r.value.stop], o.delimiter) + 1
    decreases |dsv| - i
  {
    if i < |dsv| {
      FirstPassSteps(dsv, o, i, columns, escaping);
      if dsv[i] == o.delimiter {
        FirstPassStopsAtFirstLine(dsv, o, i + 1, if escaping then columns else columns + 1, escaping);
      } else if dsv[i] == o.escapeChar {
        FirstPassStopsAtFirstLine(dsv, o, i + 1, columns, true);
      } else if escaping || !CheckLineFeed(dsv, o.lineBreak, i) {
        FirstPassStopsAtFirstLine(dsv, o, i + 1, columns, escaping);
      }
    }
  }

  /** The first pass runs to the end only when every character that closes the first line comes after an escape. */
  lemma {:induction false} FirstPassMissesOnlyEscaped(dsv: string, o: Options, i: nat, columns: nat, escaping: bool)
    requires FirstPassAt(dsv, o, i, columns, escaping)
    ensures CountColumns(dsv, o, i, columns, escaping).None? ==>
              forall j :: i <= j < |dsv| && ClosesFirstLine(dsv, o, j) ==> !Unescaped(dsv, o, j)
    decreases |dsv| - i
  {
    if i < |dsv| {
      FirstPassSteps(dsv, o, i, columns, escaping);
      if dsv[i] == o.delimiter {
        FirstPassMissesOnlyEscaped(dsv, o, i + 1, if escaping then columns else columns + 1, escaping);
      } else if dsv[i] == o.escapeChar {
        FirstPassMissesOnlyEscaped(dsv, o, i + 1, columns, true);
      } else if escaping || !CheckLineFeed(dsv, o.lineBreak, i) {
        FirstPassMissesOnlyEscaped(dsv, o, i + 1, columns, escaping);
      }
    }
  }

  /** `dsv.Slice(start, length).ToString()`; Slice raises on a negative length or a range past the end. */
  function SliceText(dsv: string, start: int, length: int): (r: Result<string>)
  {
    if 0 <= start && 0 <= length && start + length <= |dsv| then Ok(dsv[start..start + length])
    else Err(SliceOutOfRange)
  }

  /**
   * `ExpandRowAllocation(ref rows, rowCount)`: once at most one free slot
   * is left, the rows move to an array twice as long (at least four).
   */
  function ExpandRowAllocation(rows: seq<seq<Cell>>, rowCount: nat): (r: seq<seq<Cell>>)
    ensures |rows| <= |r| && r[..|rows|] == rows
    ensures forall k :: |rows| <= k < |r| ==> r[k] == []
    ensures rowCount <= |rows| ==> rowCount + 1 < |r|
    ensures |r| == |rows| || |r| == Max(2 * |rows|, 4)
    ensures r == rows <==> rowCount + 1 < |rows|
  {
    if |rows| - 1 <= rowCount then rows + Blank(Max(2 * |rows|, 4) - |rows|) else rows
  }

  /** The variables of the second pass. */
  datatype Fill = Fill(
    lastDelimiter: nat,
    columnCount: nat,
    row: seq<Cell>,
    headers: seq<Cell>,
    headersFilled: bool,
    rows: seq<seq<Cell>>,
    rowCount: nat)

  /**
   * One character of the second pass. A delimiter closes a field; the last
   * character closes the last field, dropping a line break's length, and
   * stores the row; a character just after a line break closes the row's
   * last field, stores the row (the first one as the headers when there
   * are headers) and starts a new one. Writing a cell or a row past the
   * end of its array raises, and so does a negative field length.
   */
  function Step(dsv: string, o: Options, columns: nat, checkRowBounds: bool, i: nat, f: Fill): Result<Fill>
    requires i < |dsv|
  {
    var cc := f.columnCount;
    if dsv[i] == o.delimiter then
      if |f.row| <= cc then Err(IndexOutOfRange)
      else
        var text :- SliceText(dsv, f.lastDelimiter, i - f.lastDelimiter);
        Ok(f.(row := f.row[cc := Text(text)], columnCount := cc + 1, lastDelimiter := i + 1))
    else if i == |dsv| - 1 then
      if |f.row| <= cc then Err(IndexOutOfRange)
      else
        var text :- SliceText(dsv, f.lastDelimiter, i - f.lastDelimiter - |o.lineBreak| + 1);
        var row := f.row[cc := Text(text)];
        if |f.rows| <= f.rowCount then Err(IndexOutOfRange)
        else Ok(f.(row := row, rows := f.rows[f.rowCount := row], rowCount := f.rowCount + 1))
    else if CheckLineFeed(dsv, o.lineBreak, i) then
      if |f.row| <= cc then Err(IndexOutOfRange)
      else
        var text :- SliceText(dsv, f.lastDelimiter, i - f.lastDelimiter - |o.lineBreak|);
        var row := f.row[cc := Text(text)];
        var rows := if checkRowBounds then ExpandRowAllocation(f.rows, f.rowCount) else f.rows;
        var next := f.(row := Nulls(columns), lastDelimiter := i, columnCount := 0, rows := rows);
        if o.hasHeaders && !f.headersFilled then Ok(next.(headers := row, headersFilled := true))
        else if |rows| <= f.rowCount then Err(IndexOutOfRange)
        else Ok(next.(rows := rows[f.rowCount := row], rowCount := f.rowCount + 1))
    else Ok(f)
  }

  /** The second pass's characters as a step function: `Step` inside the text, nothing past it. */
  function Steps(dsv: string, o: Options, columns: nat, checkRowBounds: bool): (nat, Fill) -> Result<Fill>
  {
    (i: nat, f: Fill) => if i < |dsv| then Step(dsv, o, columns, checkRowBounds, i, f) else Ok(f)
  }

  /** A `for` loop from `i` up to `n` over any step, stopping at the first error. */
  function RunWith(step: (nat, Fill) -> Result<Fill>, n: nat, i: nat, f: Fill): Result<Fill>
    decreases n - i
  {
    if n <= i then Ok(f)
    else
      var g :- step(i, f);
      RunWith(step, n, i + 1, g)
  }

  /** The second pass of the `for` loop, from `i` to the end. */
  function Run(dsv: string, o: Options, columns: nat, checkRowBounds: bool, i: nat, f: Fill): Result<Fill>
  {
    RunWith(Steps(dsv, o, columns, checkRowBounds), |dsv|, i, f)
  }

  /** The state the second pass starts in: nothing read, `columns` empty headers and cells. */
  function Fresh(o: Options, columns: nat): Fill
    requires 0 <= o.knownRows
  {
    Fill(0, 0, Nulls(columns), Nulls(columns), false, Blank(o.knownRows), 0)
  }

  /** After the loop: the rows array is cut to the rows stored. */
  function Finish(r: Result<Fill>): Result<Table>
  {
    var f :- r;
    if f.rowCount <= |f.rows| then Ok(Table(f.headers, f.rows[..f.rowCount]))
    else Err(SliceOutOfRange)
  }

  /**
   * `new DsvData(dsv, options)`. With a known column count the second pass
   * starts at once, at index 0; otherwise the first pass counts the columns
   * and the second pass starts at index 1, the loop's increment following
   * the reset of `i` to 0. If the first pass never ends there are no
   * headers and no rows. A negative known row or column count makes the
   * allocation of the rows or of the headers raise before any pass.
   */
  function Split(dsv: string, o: Options): Result<Table>
  {
    if o.knownRows < 0 || o.knownColumns < 0 then Err(NegativeArraySize)
    else
      var checkRowBounds := o.knownRows == 0;
      if o.knownColumns != 0 then
        Finish(Run(dsv, o, o.knownColumns, checkRowBounds, 0, Fresh(o, o.knownColumns)))
      else
        match CountColumns(dsv, o, 0, 0, false)
        case None => Ok(Table([], []))
        case Some(shape) => Finish(Run(dsv, o, shape.columns, checkRowBounds, 1, Fresh(o, shape.columns)))
  }

  /** Every row the second pass holds, stored or in progress, has `columns` cells, and the stored ones fit. */
  predicate Shaped(columns: nat, f: Fill)
  {
    && |f.row| == columns && |f.headers| == columns
    && f.rowCount <= |f.rows|
    && forall k :: 0 <= k < f.rowCount ==> |f.rows[k]| == columns
  }

  /** One character of the second pass keeps every row at `columns` cells and never stores a row past the array. */
  lemma StepKeepsShape(dsv: string, o: Options, columns: nat, checkRowBounds: bool, i: nat, f: Fill)
    requires Shaped(columns, f)
    ensures var g := Steps(dsv, o, columns, checkRowBounds)(i, f);
            g.Ok? ==> Shaped(columns, g.value)
  {
  }

  /** A loop whose every step keeps the shape keeps it to the end. */
  lemma {:induction false} RunWithKeepsShape(step: (nat, Fill) -> Result<Fill>, n: nat, columns: nat, i: nat, f: Fill)
    requires forall k, g :: Shaped(columns, g) && step(k, g).Ok? ==> Shaped(columns, step(k, g).value)
    requires Shaped(columns, f)
    ensures var r := RunWith(step, n, i, f);
            r.Ok? ==> Shaped(columns, r.value)
    decreases n - i
  {
    if i < n {
      var g := step(i, f);
      if g.Ok? {
        RunWithKeepsShape(step, n, columns, i + 1, g.value);
      }
    }
  }

  /** The second pass keeps every row at `columns` cells and never stores a row past the array. */
  lemma RunKeepsShape(dsv: string, o: Options, columns: nat, checkRowBounds: bool, i: nat, f: Fill)
    requires Shaped(columns, f)
    ensures var r := Run(dsv, o, columns, checkRowBounds, i, f);
            r.Ok? ==> Shaped(columns, r.value)
  {
    var step := Steps(dsv, o, columns, checkRowBounds);
    forall k, g | Shaped(columns, g) && step(k, g).Ok?
      ensures Shaped(columns, step(k, g).value)
    {
      StepKeepsShape(dsv, o, columns, checkRowBounds, k, g);
    }
    RunWithKeepsShape(step, |dsv|, columns, i, f);
  }

  /**
   * Every row `DsvData` hands out has as many cells as there are headers:
   * the column count of the first line, or the known column count.
   */
  lemma SplitRowsMatchHeaders(dsv: string, o: Options)
    ensures var r := Split(dsv, o);
            r.Ok? ==> forall k :: 0 <= k < |r.value.rows| ==> |r.value.rows[k]| == |r.value.headers|
    ensures var r := Split(dsv, o);
            r.Ok? && o.knownColumns != 0 ==> |r.value.headers| == o.knownColumns
  {
    var crb := o.knownRows == 0;
    if 0 <= o.knownRows && 0 <= o.knownColumns {
      if o.knownColumns != 0 {
        RunKeepsShape(dsv, o, o.knownColumns, crb, 0, Fresh(o, o.knownColumns));
      } else {
        var shape := CountColumns(dsv, o, 0, 0, false);
        if shape.Some? {
          RunKeepsShape(dsv, o, shape.value.columns, crb, 1, Fresh(o, shape.value.columns));
        }
      }
    }
  }

  /** One character of the second pass raises only index and slice errors. */
  lemma StepsRaiseNoAllocationError(dsv: string, o: Options, columns: nat, checkRowBounds: bool)
    ensures forall k, g :: Steps(dsv, o, columns, checkRowBounds)(k, g).Err? ==>
                             Steps(dsv, o, columns, checkRowBounds)(k, g).error != NegativeArraySize
  {
    var st := Steps(dsv, o, columns, checkRowBounds);
    forall k, g | st(k, g).Err?
      ensures st(k, g).error != NegativeArraySize
    {
      assert st(k, g) == Step(dsv, o, columns, checkRowBounds, k, g);
    }
  }

  /** A loop whose steps never raise the allocation error does not raise it either. */
  lemma {:induction false} RunWithRaisesNoAllocationError(step: (nat, Fill) -> Result<Fill>, n: nat, i: nat, f: Fill)
    requires forall k, g :: step(k, g).Err? ==> step(k, g).error != NegativeArraySize
    ensures RunWith(step, n, i, f).Err? ==> RunWith(step, n, i, f).error != NegativeArraySize
    decreases n - i
  {
    if i < n && step(i, f).Ok? {
      RunWithRaisesNoAllocationError(step, n, i + 1, step(i, f).value);
    }
  }

  /** `DsvData` raises the allocation error exactly when a known row or column count is negative. */
  lemma SplitRejectsNegativeCounts(dsv: string, o: Options)
    ensures Split(dsv, o) == Err(NegativeArraySize) <==> o.knownRows < 0 || o.knownColumns < 0
  {
    if 0 <= o.knownRows && 0 <= o.knownColumns {
      var crb := o.knownRows == 0;
      if o.knownColumns != 0 {
        StepsRaiseNoAllocationError(dsv, o, o.knownColumns, crb);
        RunWithRaisesNoAllocationError(Steps(dsv, o, o.knownColumns, crb), |dsv|, 0, Fresh(o, o.knownColumns));
      } else {
        var shape := CountColumns(dsv, o, 0, 0, false);
        if shape.Some? {
          StepsRaiseNoAllocationError(dsv, o, shape.value.columns, crb);
          RunWithRaisesNoAllocationError(Steps(dsv, o, shape.value.columns, crb), |dsv|, 1, Fresh(o, shape.value.columns));
        }
      }
    }
  }
}
