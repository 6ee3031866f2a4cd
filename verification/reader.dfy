/**
 * The pull-based scanner of DsvReader.cs. A `Scanner` value is the reader's
 * mutable state; `MoveNext` is one call of `MoveNext`/`MoveToNext`, which
 * scans forward from the cursor, one character per `Examine`, until it can
 * yield a field, reaches the end of the input, or raises.
 */
module DsvReader {
  import opened Outcomes
  import opened Unescape

  /**
   * The reader's `nextValue`: nothing (a null memory), a zero-copy slice of
   * the input, or a freshly built string holding the unescaped form of the
   * slice at `start .. start + length`. The input never changes, so an owned
   * field is represented by the slice it was built from; `FieldText` gives
   * its characters.
   */
  datatype Field =
    | NoValue
    | Borrowed(start: nat, length: nat)
    | Owned(start: nat, length: nat)

  predicate FieldFits(dsv: string, f: Field)
  {
    !f.NoValue? ==> f.start + f.length <= |dsv|
  }

  /** The characters a field stands for: an owned field holds the collapse of its slice. */
  function FieldText(dsv: string, e: char, f: Field): string
    requires FieldFits(dsv, f)
  {
    match f
    case NoValue => []
    case Borrowed(a, n) => dsv[a..a + n]
    case Owned(a, n) => Collapse(dsv[a..a + n], e)
  }

  /** The private fields of a DsvReader that `MoveToNext` reads and writes. */
  datatype Scanner = Scanner(
    index: nat,
    lastDelimiter: nat,
    escaping: bool,
    didEscape: bool,
    escapedEscapeChar: bool,
    didEscapeEscapeChar: bool,
    rowCount: nat,
    columnCount: nat,
    column: nat,
    columnsFilled: bool,
    newRowNextRead: bool,
    nextValue: Field)

  /** A freshly constructed reader. */
  const Start := Scanner(0, 0, false, false, false, false, 0, 0, 0, false, false, NoValue)

  /** Result of one `MoveNext` call: whether a field was produced, and the state after it. */
  datatype Moved = Moved(more: bool, next: Scanner)

  /** Effect of examining the character under the cursor. */
  datatype Step = Continue(next: Scanner) | Emit(next: Scanner) | Stop(error: Failure)

  predicate IsLineFeedChar(c: char)
  {
    c == '\r' || c == '\n'
  }

  /**
   * `CheckLineFeed(dsv, i)`: are the two characters just before `i` both
   * carriage returns or line feeds? The span indexing raises when it runs
   * past the input.
   */
  function CheckLineFeed(dsv: string, i: nat): (r: Result<bool>)
    ensures i <= |dsv| ==> r == Ok(2 <= i && IsLineFeedChar(dsv[i - 2]) && IsLineFeedChar(dsv[i - 1]))
    ensures r.Err? <==> 2 <= i && |dsv| < i && (|dsv| + 2 <= i || IsLineFeedChar(dsv[|dsv| - 1]))
  {
    if i < 2 then Ok(false)
    else if |dsv| <= i - 2 then Err(IndexOutOfRange)
    else if !IsLineFeedChar(dsv[i - 2]) then Ok(false)
    else if |dsv| <= i - 1 then Err(IndexOutOfRange)
    else Ok(IsLineFeedChar(dsv[i - 1]))
  }

  /**
   * `dsv.AsMemory().Slice(start, length)`, marked for the doubled-escape
   * rewrite when `unescape` holds. Slice raises on a negative length or a
   * range past the end.
   */
  function TakeField(dsv: string, start: int, length: int, unescape: bool): (r: Result<Field>)
    ensures r.Ok? <==> 0 <= start && 0 <= length && start + length <= |dsv|
    ensures r.Ok? ==> && !r.value.NoValue? && r.value.start == start && r.value.length == length
                      && FieldFits(dsv, r.value) && (r.value.Owned? <==> unescape)
  {
    if 0 <= start && 0 <= length && start + length <= |dsv| then
      if unescape then Ok(Owned(start, length))
      else Ok(Borrowed(start, length))
    else Err(SliceOutOfRange)
  }

  /** A line break is looked for only outside a header-shaped row or once the row has all its columns. */
  predicate LineFeedHonoured(o: Options, s: Scanner)
  {
    !o.hasHeaders || (s.columnsFilled && s.column == s.columnCount) || !s.columnsFilled
  }

  /** `n` differs from `s` at most in the four quoting flags. */
  predicate SameExceptQuoting(s: Scanner, n: Scanner)
  {
    n == s.(escaping := n.escaping, didEscape := n.didEscape,
            escapedEscapeChar := n.escapedEscapeChar, didEscapeEscapeChar := n.didEscapeEscapeChar)
  }

  /** The field is a slice between the start of the field and the character just examined. */
  predicate FieldWithin(dsv: string, o: Options, f: Field, lo: nat, k: nat)
  {
    && !f.NoValue?
    && lo <= f.start && f.start + f.length <= k + 1 <= |dsv|
  }

  /** Bookkeeping after the delimiter at `n.index` closed a field that began in state `t`. */
  predicate ClosedByDelimiter(t: Scanner, n: Scanner)
  {
    && n.rowCount == t.rowCount
    && t.lastDelimiter <= n.index
    && n.lastDelimiter == n.index + 1
    && n.column == t.column + 1
    && n.columnsFilled == t.columnsFilled
    && n.columnCount == (if t.columnsFilled then t.columnCount else t.columnCount + 1)
    && n.newRowNextRead == t.newRowNextRead
    && (t.columnsFilled ==> t.column != t.columnCount)
    && !n.didEscape
  }

  /** Bookkeeping after the character at `n.index` closed a row that began in state `t`. */
  predicate ClosedRow(dsv: string, o: Options, t: Scanner, n: Scanner)
    requires n.index < |dsv|
  {
    && n.rowCount == t.rowCount + 1
    && n.column == t.column
    && !n.didEscape && !n.didEscapeEscapeChar
    && if n.index == |dsv| - 1 then
         && n.lastDelimiter == t.lastDelimiter
         && !n.newRowNextRead
         && n.columnCount == t.columnCount
         && n.columnsFilled == t.columnsFilled
       else
         && 1 <= n.index
         && IsLineFeedChar(dsv[n.index - 1]) && IsLineFeedChar(dsv[n.index])
         && LineFeedHonoured(o, t)
         && !n.escaping && !n.escapedEscapeChar
         && n.lastDelimiter == n.index + 1
         && n.newRowNextRead
         && if o.hasHeaders && !t.columnsFilled then
              n.columnsFilled && n.columnCount == t.columnCount + 1
            else
              n.columnsFilled == t.columnsFilled && n.columnCount == t.columnCount
  }

  /** A delimiter outside quotes, or after a lone escape: close the field (DsvReader.cs:191-225). */
  function CloseAtDelimiter(dsv: string, o: Options, s: Scanner): Step
    requires s.index < |dsv|
  {
    var i := s.index;
    var ld := s.lastDelimiter;
    if s.columnsFilled && s.columnCount == s.column then Stop(InvalidRowColumn)
    else
      var field :=
        if s.didEscape then TakeField(dsv, ld + 1, i - ld - 2, s.didEscapeEscapeChar)
        else TakeField(dsv, ld, i - ld, s.didEscapeEscapeChar);
      match field
      case Err(e) => Stop(e)
      case Ok(f) =>
        Emit(s.(nextValue := f, lastDelimiter := i + 1, didEscape := false,
                columnCount := if s.columnsFilled then s.columnCount else s.columnCount + 1,
                column := s.column + 1))
  }

  /** The last character of the input closes the field and the row (DsvReader.cs:227-265). */
  function Finalize(dsv: string, o: Options, s: Scanner): Step
    requires s.index == |dsv| - 1
  {
    var n := |dsv|;
    var ld := s.lastDelimiter;
    var lineFeed := CheckLineFeed(dsv, s.index + 1).value;
    var field :=
      if s.escaping then
        if lineFeed then TakeField(dsv, ld + 1, (n - ld - 2) - 1, s.didEscapeEscapeChar)
        else TakeField(dsv, ld + 1, (n - ld) - 2, s.didEscapeEscapeChar)
      else if lineFeed then TakeField(dsv, ld, n - ld - 2, s.didEscapeEscapeChar)
      else TakeField(dsv, ld, n - ld, s.didEscapeEscapeChar);
    match field
    case Err(err) => Stop(err)
    case Ok(f) =>
      Emit(s.(nextValue := f, didEscape := false, didEscapeEscapeChar := false,
              rowCount := s.rowCount + 1, newRowNextRead := false))
  }

  /**
   * An escape character that is not the last character (DsvReader.cs:266-293).
   * The closing test reads `dsv[index + 1]`, then perhaps `dsv[index + 2]`
   * through `CheckLineFeed(dsv, index + 3)`, then `dsv[index - 1]`.
   */
  function OnEscape(dsv: string, o: Options, s: Scanner): Result<Scanner>
    requires s.index < |dsv| - 1
  {
    var i := s.index;
    if !s.escaping then Ok(s.(didEscape := true, escaping := true))
    else
      var ahead := if dsv[i + 1] == o.delimiter then Ok(true) else CheckLineFeed(dsv, i + 3);
      if ahead.Err? then Err(ahead.error)
      else if ahead.value && !s.escapedEscapeChar && i == 0 then Err(IndexOutOfRange)
      else if ahead.value && !s.escapedEscapeChar && dsv[i - 1] != o.escapeChar then Ok(s.(escaping := false))
      else if !s.escapedEscapeChar then Ok(s.(escapedEscapeChar := true, didEscapeEscapeChar := true))
      else Ok(s.(escapedEscapeChar := false))
  }

  /**
   * A line break found outside quotes closes the field and the row
   * (DsvReader.cs:308-349). The first branch repeats the second and is never
   * taken: its only caller has just checked `!escaping`.
   */
  function CloseAtLineFeed(dsv: string, o: Options, s: Scanner): Step
    requires s.index < |dsv| - 1
  {
    var i := s.index;
    var ld := s.lastDelimiter;
    var field :=
      if s.escaping then TakeField(dsv, ld + 1, i - ld - 2 - 1, s.didEscapeEscapeChar)
      else if s.didEscape then TakeField(dsv, ld + 1, i - ld - 2 - 1, s.didEscapeEscapeChar)
      else TakeField(dsv, ld, i - ld - 2 + 1, s.didEscapeEscapeChar);
    var header := o.hasHeaders && !s.columnsFilled;
    match field
    case Err(err) => Stop(err)
    case Ok(f) =>
      Emit(s.(nextValue := f,
              columnCount := if header then s.columnCount + 1 else s.columnCount,
              columnsFilled := if header then true else s.columnsFilled,
              rowCount := s.rowCount + 1,
              didEscape := false, didEscapeEscapeChar := false,
              lastDelimiter := i + 1,
              newRowNextRead := true))
  }

  /** Any other character that is not the last one (DsvReader.cs:294-352). */
  function OnOther(dsv: string, o: Options, s: Scanner): Step
    requires s.index < |dsv| - 1
  {
    if s.escapedEscapeChar then Stop(InvalidEscapedEscapeChar)
    else if !s.escaping && LineFeedHonoured(o, s) && CheckLineFeed(dsv, s.index + 1).value then
      CloseAtLineFeed(dsv, o, s)
    else Continue(s)
  }

  /** One iteration of the `for` loop of `MoveToNext`: the character at `s.index`. */
  function Examine(dsv: string, o: Options, s: Scanner): Step
    requires s.index < |dsv|
  {
    var c := dsv[s.index];
    if c == o.delimiter then
      if !s.escaping || (s.escaping && s.escapedEscapeChar) then CloseAtDelimiter(dsv, o, s)
      else Continue(s)
    else if s.index == |dsv| - 1 then Finalize(dsv, o, s)
    else if c == o.escapeChar then
      match OnEscape(dsv, o, s)
      case Ok(n) => Continue(n)
      case Err(err) => Stop(err)
    else OnOther(dsv, o, s)
  }

  /** A delimiter close yields the slice before the delimiter and opens the next column. */
  lemma DelimiterCloseFacts(dsv: string, o: Options, s: Scanner)
    requires s.index < |dsv| && dsv[s.index] == o.delimiter
    ensures var r := CloseAtDelimiter(dsv, o, s);
            r.Emit? ==> && r.next.index == s.index
                        && FieldWithin(dsv, o, r.next.nextValue, s.lastDelimiter, s.index)
                        && ClosedByDelimiter(s, r.next)
  {
  }

  /** The close at the last character yields a slice ending at or before it and ends the row. */
  lemma FinalizeFacts(dsv: string, o: Options, s: Scanner)
    requires s.index == |dsv| - 1
    ensures var r := Finalize(dsv, o, s);
            r.Emit? ==> && r.next.index == s.index
                        && FieldWithin(dsv, o, r.next.nextValue, s.lastDelimiter, s.index)
                        && ClosedRow(dsv, o, s, r.next)
  {
    assert CheckLineFeed(dsv, s.index + 1).Ok?;
  }

  /** An escape character only flips quoting flags; a pending escape is set only inside quotes. */
  lemma EscapeFacts(dsv: string, o: Options, s: Scanner)
    requires s.index < |dsv| - 1
    ensures var r := OnEscape(dsv, o, s);
            && (r.Ok? ==> SameExceptQuoting(s, r.value))
            && (r.Ok? && r.value.escapedEscapeChar && !s.escapedEscapeChar ==> r.value.escaping)
  {
  }

  /** A line-break close yields the slice before the break and ends the row. */
  lemma LineFeedCloseFacts(dsv: string, o: Options, s: Scanner)
    requires 1 <= s.index < |dsv| - 1
    requires !s.escaping && !s.escapedEscapeChar && LineFeedHonoured(o, s)
    requires IsLineFeedChar(dsv[s.index - 1]) && IsLineFeedChar(dsv[s.index])
    ensures var r := CloseAtLineFeed(dsv, o, s);
            r.Emit? ==> && r.next.index == s.index
                        && FieldWithin(dsv, o, r.next.nextValue, s.lastDelimiter, s.index)
                        && ClosedRow(dsv, o, s, r.next)
  {
  }

  /**
   * What one examined character does: passing over it touches only the
   * quoting flags, and a pending escape appears only inside quotes; a field
   * yielded lies between the field start and the character, with the
   * bookkeeping of a delimiter close or of a row close.
   */
  lemma ExamineFacts(dsv: string, o: Options, s: Scanner)
    requires s.index < |dsv|
    ensures var r := Examine(dsv, o, s);
            && (r.Continue? ==> SameExceptQuoting(s, r.next))
            && (r.Continue? && r.next.escapedEscapeChar && !s.escapedEscapeChar ==> r.next.escaping)
            && (r.Emit? ==> && r.next.index == s.index
                            && FieldWithin(dsv, o, r.next.nextValue, s.lastDelimiter, s.index)
                            && if dsv[s.index] == o.delimiter then ClosedByDelimiter(s, r.next)
                               else ClosedRow(dsv, o, s, r.next))
  {
    var c := dsv[s.index];
    if c == o.delimiter {
      if !s.escaping || s.escapedEscapeChar {
        DelimiterCloseFacts(dsv, o, s);
      }
    } else if s.index == |dsv| - 1 {
      FinalizeFacts(dsv, o, s);
    } else if c == o.escapeChar {
      EscapeFacts(dsv, o, s);
    } else if !s.escapedEscapeChar && !s.escaping && LineFeedHonoured(o, s) && CheckLineFeed(dsv, s.index + 1).value {
      LineFeedCloseFacts(dsv, o, s);
    }
  }

  /** The `for` loop of `MoveToNext`, from the cursor of `t` to the end of the input. */
  function Scan(dsv: string, o: Options, t: Scanner): Result<Moved>
    decreases |dsv| - t.index
  {
    if |dsv| <= t.index then Ok(Moved(false, t))
    else
      match Examine(dsv, o, t)
      case Stop(err) => Err(err)
      case Emit(n) => Ok(Moved(true, n))
      case Continue(n) => Scan(dsv, o, n.(index := t.index + 1))
  }

  /**
   * The loop only moves forward. When it runs off the end, only the cursor
   * and the quoting flags have changed; when it yields, the field lies
   * between the field start and the character that closed it, and the
   * bookkeeping is that of a delimiter close or of a row close.
   */
  lemma {:induction false} ScanFacts(dsv: string, o: Options, t: Scanner)
    ensures var r := Scan(dsv, o, t);
            && (r.Ok? ==> t.index <= r.value.next.index)
            && (r.Ok? && !r.value.more ==> && |dsv| <= r.value.next.index
                                           && SameExceptQuoting(t.(index := r.value.next.index), r.value.next))
            && (r.Ok? && r.value.more ==> && r.value.next.index < |dsv|
                                          && FieldWithin(dsv, o, r.value.next.nextValue, t.lastDelimiter, r.value.next.index)
                                          && if dsv[r.value.next.index] == o.delimiter then ClosedByDelimiter(t, r.value.next)
                                             else ClosedRow(dsv, o, t, r.value.next))
    decreases |dsv| - t.index
  {
    if t.index < |dsv| {
      ExamineFacts(dsv, o, t);
      var st := Examine(dsv, o, t);
      if st.Continue? {
        var u := st.next.(index := t.index + 1);
        ScanFacts(dsv, o, u);
        assert Scan(dsv, o, t) == Scan(dsv, o, u);
      }
    }
  }

  /** What `MoveToNext` does before its loop: clear the value, start a new row, step past the last field. */
  function Prepare(s: Scanner): Scanner
  {
    var cleared := s.(nextValue := NoValue);
    var renewed := if cleared.newRowNextRead then cleared.(column := 1, newRowNextRead := false) else cleared;
    if renewed.index != 0 then renewed.(index := renewed.index + 1) else renewed
  }

  /**
   * Measure of remaining work: two per unread character, plus one while the
   * field under the cursor has not been closed. It never grows across a
   * call that yields a field and shrinks across one that stays in the row.
   */
  function Rank(dsv: string, s: Scanner): nat
  {
    if |dsv| < s.index then 0
    else 2 * (|dsv| - s.index) + (if s.lastDelimiter <= s.index then 1 else 0)
  }

  /** `MoveNext()`: advance to the next field; false once the input is exhausted. */
  function MoveNext(dsv: string, o: Options, s: Scanner): (r: Result<Moved>)
    ensures r.Ok? ==> s.index <= r.value.next.index
    ensures r.Ok? && s.index != 0 ==> s.index < r.value.next.index
    ensures r.Ok? && !r.value.more ==> && |dsv| <= r.value.next.index
                                       && r.value.next.rowCount == s.rowCount
                                       && r.value.next.nextValue == NoValue
    ensures r.Ok? && r.value.more ==> && r.value.next.index < |dsv|
                                      && FieldWithin(dsv, o, r.value.next.nextValue, s.lastDelimiter, r.value.next.index)
                                      && s.rowCount <= r.value.next.rowCount <= s.rowCount + 1
                                      && (r.value.next.rowCount == s.rowCount <==> dsv[r.value.next.index] == o.delimiter)
                                      && Rank(dsv, r.value.next) <= Rank(dsv, s)
                                      && (r.value.next.rowCount == s.rowCount ==> Rank(dsv, r.value.next) < Rank(dsv, s))
  {
    ScanFacts(dsv, o, Prepare(s));
    Scan(dsv, o, Prepare(s))
  }

  /** `ReadNext()`: hand out the current value and forget it. */
  function ReadNext(s: Scanner): (r: (Field, Scanner))
  {
    (s.nextValue, s.(nextValue := NoValue))
  }
}
