/**
 * Properties of the DsvReader scanner: the line-break test, the invariant
 * every call preserves, the two format errors, the out-of-range hazards, and
 * what a call yields for plain and quoted fields.
 */
module DsvReaderProperties {
  import opened Outcomes
  import opened Unescape
  import opened DsvReader

  // ---------------------------------------------------------------------
  // The line-break test
  // ---------------------------------------------------------------------

  /** The four two-character sequences `CheckLineFeed` accepts. */
  const LineFeedPairs: set<string> := {"\r\n", "\n\r", "\r\r", "\n\n"}

  /** Any two-character mix of '\r' and '\n' ending just before `i` is a line break, and nothing else is. */
  lemma CheckLineFeedAcceptsPairs(dsv: string, i: nat)
    requires i <= |dsv|
    ensures CheckLineFeed(dsv, i) == Ok(2 <= i && dsv[i - 2..i] in LineFeedPairs)
  {
    if 2 <= i {
      var w := dsv[i - 2..i];
      assert w == [dsv[i - 2], dsv[i - 1]];
      if IsLineFeedChar(dsv[i - 2]) && IsLineFeedChar(dsv[i - 1]) {
        assert w in LineFeedPairs;
      } else {
        assert w != "\r\n" && w != "\n\r" && w != "\r\r" && w != "\n\n";
      }
    }
  }

  /** A single '\n' after an ordinary character is never a line break. */
  lemma LoneLineFeedIsNoBreak(dsv: string, i: nat)
    requires 1 <= i <= |dsv| && dsv[i - 1] == '\n'
    requires i == 1 || !IsLineFeedChar(dsv[i - 2])
    ensures CheckLineFeed(dsv, i) == Ok(false)
  {
  }

  /**
   * The forward check `CheckLineFeed(dsv, index + 3)` reads one character
   * past the input exactly when the character after the one examined is the
   * last one and is a '\r' or '\n'.
   */
  lemma ForwardCheckOverrun(dsv: string, index: nat)
    requires index + 1 < |dsv|
    ensures CheckLineFeed(dsv, index + 3).Err? <==> index + 2 == |dsv| && IsLineFeedChar(dsv[index + 1])
  {
  }

  // ---------------------------------------------------------------------
  // The invariant of the reader's state
  // ---------------------------------------------------------------------

  /**
   * What holds between calls: a lone escape is pending only inside quotes;
   * without headers the columns are never marked filled; while the header row
   * is read the column and the column count agree; once filled, the column
   * never passes the count; the field start is at most one past the cursor;
   * and quoting is off whenever the cursor is at the start.
   */
  ghost predicate Inv(o: Options, s: Scanner)
  {
    && (s.escapedEscapeChar ==> s.escaping)
    && (!o.hasHeaders ==> !s.columnsFilled)
    && (o.hasHeaders && !s.columnsFilled ==> s.column == s.columnCount && !s.newRowNextRead)
    && (s.columnsFilled ==> 1 <= s.columnCount && s.column <= s.columnCount)
    && s.lastDelimiter <= s.index + 1
    && (s.index == 0 ==> !s.escaping)
  }

  lemma StartSatisfiesInv(o: Options)
    ensures Inv(o, Start)
  {
  }

  lemma PrepareKeepsInv(o: Options, s: Scanner)
    requires Inv(o, s)
    ensures Inv(o, Prepare(s))
  {
  }

  /** One examined character keeps the invariant (at the next cursor position when scanning goes on). */
  lemma ExamineKeepsInv(dsv: string, o: Options, t: Scanner)
    requires t.index < |dsv| && Inv(o, t)
    ensures Examine(dsv, o, t).Continue? ==> Inv(o, Examine(dsv, o, t).next.(index := t.index + 1))
    ensures Examine(dsv, o, t).Emit? ==> Inv(o, Examine(dsv, o, t).next)
  {
    ExamineFacts(dsv, o, t);
    var c := dsv[t.index];
    if c != o.delimiter && t.index < |dsv| - 1 && c == o.escapeChar {
      var r := OnEscape(dsv, o, t);
      if r.Ok? && t.escaping && !r.value.escaping {
        assert !t.escapedEscapeChar;
      }
    }
  }

  lemma {:induction false} ScanKeepsInv(dsv: string, o: Options, t: Scanner)
    requires Inv(o, t)
    ensures Scan(dsv, o, t).Ok? ==> Inv(o, Scan(dsv, o, t).value.next)
    decreases |dsv| - t.index
  {
    if t.index < |dsv| {
      ExamineKeepsInv(dsv, o, t);
      var st := Examine(dsv, o, t);
      if st.Continue? {
        ScanKeepsInv(dsv, o, st.next.(index := t.index + 1));
      }
    } else {
      assert Scan(dsv, o, t) == Ok(Moved(false, t));
    }
  }

  /** Every call keeps the invariant: the pending-escape flag never outlives quoting. */
  lemma MoveNextKeepsInv(dsv: string, o: Options, s: Scanner)
    requires Inv(o, s)
    ensures MoveNext(dsv, o, s).Ok? ==> Inv(o, MoveNext(dsv, o, s).value.next)
  {
    PrepareKeepsInv(o, s);
    ScanKeepsInv(dsv, o, Prepare(s));
  }

  // ---------------------------------------------------------------------
  // Counters
  // ---------------------------------------------------------------------

  /**
   * Once the header has fixed the column count, a field closed by a
   * delimiter leaves the column at most at the count: a data row never
   * yields more fields than the header had.
   */
  lemma DataRowWithinColumnCount(dsv: string, o: Options, s: Scanner)
    requires Inv(o, s) && s.columnsFilled
    requires MoveNext(dsv, o, s).Ok? && MoveNext(dsv, o, s).value.more
    ensures MoveNext(dsv, o, s).value.next.columnsFilled
    ensures MoveNext(dsv, o, s).value.next.column <= MoveNext(dsv, o, s).value.next.columnCount
    ensures MoveNext(dsv, o, s).value.next.columnCount == s.columnCount
  {
    MoveNextKeepsInv(dsv, o, s);
    var t := Prepare(s);
    ScanFacts(dsv, o, t);
    assert MoveNext(dsv, o, s) == Scan(dsv, o, t);
  }

  /** A call that starts a new row restarts the column: at 2 after a delimiter, at 1 after a row end. */
  lemma ColumnRestartsAfterRowEnd(dsv: string, o: Options, s: Scanner)
    requires s.newRowNextRead
    requires MoveNext(dsv, o, s).Ok? && MoveNext(dsv, o, s).value.more
    ensures MoveNext(dsv, o, s).value.next.column == if MoveNext(dsv, o, s).value.next.rowCount == s.rowCount then 2 else 1
  {
    ScanFacts(dsv, o, Prepare(s));
    assert MoveNext(dsv, o, s) == Scan(dsv, o, Prepare(s));
  }

  /** After `MoveNext` has returned false it keeps returning false and the cursor stays past the input. */
  lemma FalseIsFinal(dsv: string, o: Options, s: Scanner)
    requires MoveNext(dsv, o, s).Ok? && !MoveNext(dsv, o, s).value.more
    ensures var s' := MoveNext(dsv, o, s).value.next;
            && MoveNext(dsv, o, s').Ok? && !MoveNext(dsv, o, s').value.more
            && MoveNext(dsv, o, s').value.next.rowCount == s.rowCount
  {
  }

  /** `n` successive calls from `s` that each yield a field closed by a delimiter, ending in `e`. */
  ghost predicate DelimiterRun(dsv: string, o: Options, s: Scanner, n: nat, e: Scanner)
    decreases n
  {
    if n == 0 then e == s
    else
      var r := MoveNext(dsv, o, s);
      && r.Ok? && r.value.more && r.value.next.rowCount == s.rowCount
      && DelimiterRun(dsv, o, r.value.next, n - 1, e)
  }

  lemma {:induction false} HeaderRunCountsColumns(dsv: string, o: Options, s: Scanner, n: nat, e: Scanner)
    requires o.hasHeaders && !s.columnsFilled && !s.newRowNextRead
    requires DelimiterRun(dsv, o, s, n, e)
    ensures e.columnCount == s.columnCount + n && !e.columnsFilled && !e.newRowNextRead
    ensures e.rowCount == s.rowCount
    decreases n
  {
    if n > 0 {
      var r := MoveNext(dsv, o, s);
      ScanFacts(dsv, o, Prepare(s));
      assert r == Scan(dsv, o, Prepare(s));
      HeaderRunCountsColumns(dsv, o, r.value.next, n - 1, e);
    }
  }

  /**
   * With headers on, the line break that ends the header row fixes the
   * column count at the number of delimiters before it plus one and marks
   * the columns filled; if the header row is ended by the last character
   * instead, the columns stay unfilled.
   */
  lemma HeaderFixesColumnCount(dsv: string, o: Options, n: nat, e: Scanner)
    requires o.hasHeaders
    requires DelimiterRun(dsv, o, Start, n, e)
    requires MoveNext(dsv, o, e).Ok? && MoveNext(dsv, o, e).value.more
    requires MoveNext(dsv, o, e).value.next.rowCount != e.rowCount
    ensures var h := MoveNext(dsv, o, e).value.next;
            && h.rowCount == 1
            && (h.index < |dsv| - 1 ==> h.columnsFilled && h.columnCount == n + 1)
            && (h.index == |dsv| - 1 ==> !h.columnsFilled && h.columnCount == n)
  {
    HeaderRunCountsColumns(dsv, o, Start, n, e);
    ScanFacts(dsv, o, Prepare(e));
    assert MoveNext(dsv, o, e) == Scan(dsv, o, Prepare(e));
  }

  // ---------------------------------------------------------------------
  // Errors, character by character
  // ---------------------------------------------------------------------

  /**
   * `InvalidEscapedEscapeChar` is raised exactly at an ordinary character
   * (not the delimiter, not the escape character, not the last one) met
   * while a lone escape is pending.
   */
  lemma MalformedEscapeExactly(dsv: string, o: Options, s: Scanner)
    requires s.index < |dsv|
    ensures Examine(dsv, o, s) == Stop(InvalidEscapedEscapeChar) <==>
              && dsv[s.index] != o.delimiter
              && s.index != |dsv| - 1
              && dsv[s.index] != o.escapeChar
              && s.escapedEscapeChar
  {
  }

  /**
   * `InvalidRowColumn` is raised exactly at a delimiter that would close a
   * field while the columns are filled and the row already has them all.
   */
  lemma TooManyColumnsExactly(dsv: string, o: Options, s: Scanner)
    requires s.index < |dsv|
    ensures Examine(dsv, o, s) == Stop(InvalidRowColumn) <==>
              && dsv[s.index] == o.delimiter
              && (!s.escaping || s.escapedEscapeChar)
              && s.columnsFilled && s.columnCount == s.column
  {
  }

  /**
   * Under the invariant, the only out-of-range read is the forward
   * line-break check: an escape character inside quotes at the second to
   * last position, followed by a final '\r' or '\n' that is not the delimiter.
   */
  lemma IndexOverrunExactly(dsv: string, o: Options, s: Scanner)
    requires s.index < |dsv| && Inv(o, s)
    ensures Examine(dsv, o, s) == Stop(IndexOutOfRange) <==>
              && s.escaping
              && dsv[s.index] == o.escapeChar && dsv[s.index] != o.delimiter
              && s.index + 2 == |dsv|
              && dsv[s.index + 1] != o.delimiter && IsLineFeedChar(dsv[s.index + 1])
  {
  }

  /**
   * With headers on and the columns filled, a line break inside a row that
   * does not yet have all its columns is not a row end: the character is
   * passed over (or rejected as a stray escape).
   */
  lemma ShortRowIgnoresLineBreak(dsv: string, o: Options, s: Scanner)
    requires s.index < |dsv| - 1
    requires o.hasHeaders && s.columnsFilled && s.column != s.columnCount
    requires dsv[s.index] != o.delimiter && dsv[s.index] != o.escapeChar
    ensures Examine(dsv, o, s) == (if s.escapedEscapeChar then Stop(InvalidEscapedEscapeChar) else Continue(s))
  {
  }

  /** Handing out the value does not change what the next call does. */
  lemma ReadNextLeavesScanAlone(dsv: string, o: Options, s: Scanner)
    ensures ReadNext(s).0 == s.nextValue && ReadNext(s).1.nextValue == NoValue
    ensures MoveNext(dsv, o, ReadNext(s).1) == MoveNext(dsv, o, s)
  {
    var cleared := s.(nextValue := NoValue);
    assert ReadNext(s).1 == cleared;
    assert Prepare(cleared) == Prepare(s);
  }

  /**
   * A field cut from the input holds the characters of its slice, with the
   * doubled escape characters collapsed when the field saw one; a slice
   * starting or ending outside the input raises.
   */
  lemma TakeFieldHolds(dsv: string, e: char, start: int, length: int, unescape: bool)
    ensures var r := TakeField(dsv, start, length, unescape);
            && (r.Err? <==> start < 0 || length < 0 || |dsv| < start + length)
            && (r.Err? ==> r.error == SliceOutOfRange)
            && (r.Ok? ==> && FieldFits(dsv, r.value)
                          && FieldText(dsv, e, r.value)
                               == if unescape then Collapse(dsv[start..start + length], e)
                                  else dsv[start..start + length])
  {
  }
}
