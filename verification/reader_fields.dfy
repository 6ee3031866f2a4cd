/**
 * What one call of the reader yields for the usual shapes of field: plain
 * text ended by a delimiter, a line break or the end of the input, and
 * quoted text (escape characters doubled inside) ended likewise; and the
 * inputs on which a call goes wrong.
 */
module DsvReaderFields {
  import opened Outcomes
  import opened Unescape
  import opened DsvReader
  import opened DsvReaderSteps

  // ---------------------------------------------------------------------
  // Plain fields
  // ---------------------------------------------------------------------

  /** From a field start, a call scans over plain characters up to `q`. */
  lemma PlainReach(dsv: string, o: Options, s: Scanner, q: nat)
    requires AtFieldStart(s) && Quiet(s)
    requires s.lastDelimiter <= q < |dsv|
    requires forall j :: s.lastDelimiter <= j < q ==> Plain(o, dsv[j])
    ensures MoveNext(dsv, o, s) == Scan(dsv, o, Prepare(s).(index := q))
  {
    ScanSkipsPlain(dsv, o, Prepare(s), q);
  }

  /** From a field start, a call scans over plain characters and the first character of a line break at `q`. */
  lemma PlainReachBreak(dsv: string, o: Options, s: Scanner, q: nat)
    requires AtFieldStart(s) && Quiet(s)
    requires !IsLineFeedChar(o.delimiter) && !IsLineFeedChar(o.escapeChar)
    requires s.lastDelimiter <= q < |dsv| - 1 && IsLineFeedChar(dsv[q])
    requires forall j :: s.lastDelimiter <= j < q ==> Plain(o, dsv[j])
    requires s.lastDelimiter < q || s.lastDelimiter == 0 || !IsLineFeedChar(dsv[s.lastDelimiter - 1])
    ensures MoveNext(dsv, o, s) == Scan(dsv, o, Prepare(s).(index := q + 1))
  {
    var t := Prepare(s);
    ScanSkipsPlain(dsv, o, t, q);
    if s.lastDelimiter < q {
      assert Plain(o, dsv[q - 1]);
    }
    ScanPassesNoBreak(dsv, o, t.(index := q));
  }

  /**
   * Plain text followed by the delimiter is yielded as that text; the row
   * goes on, and the following call starts at the next field unless the
   * delimiter was the very first character of the input.
   */
  lemma PlainFieldBeforeDelimiter(dsv: string, o: Options, s: Scanner, q: nat)
    requires AtFieldStart(s) && Quiet(s) && RoomForColumn(s)
    requires s.lastDelimiter <= q < |dsv| && dsv[q] == o.delimiter
    requires forall j :: s.lastDelimiter <= j < q ==> Plain(o, dsv[j])
    ensures MoveNext(dsv, o, s).Ok? && MoveNext(dsv, o, s).value.more
    ensures var n := MoveNext(dsv, o, s).value.next;
            && n.index == q
            && FieldText(dsv, o.escapeChar, n.nextValue) == dsv[s.lastDelimiter..q]
            && n.rowCount == s.rowCount
            && Quiet(n)
            && (AtFieldStart(n) <==> q != 0)
  {
    var t := Prepare(s).(index := q);
    PlainReach(dsv, o, s, q);
    PlainDelimiterText(dsv, o, t);
    DelimiterYields(dsv, o, t);
  }

  /**
   * Plain text followed by a two-character line break that is not at the end
   * of the input is yielded as that text and ends the row, provided the
   * reader is honouring line breaks there.
   */
  lemma PlainFieldBeforeLineBreak(dsv: string, o: Options, s: Scanner, q: nat)
    requires AtFieldStart(s) && Quiet(s) && LineFeedHonoured(o, Prepare(s))
    requires !IsLineFeedChar(o.delimiter) && !IsLineFeedChar(o.escapeChar)
    requires s.lastDelimiter <= q && q + 2 < |dsv|
    requires forall j :: s.lastDelimiter <= j < q ==> Plain(o, dsv[j])
    requires IsLineFeedChar(dsv[q]) && IsLineFeedChar(dsv[q + 1])
    requires s.lastDelimiter < q || s.lastDelimiter == 0 || !IsLineFeedChar(dsv[s.lastDelimiter - 1])
    ensures MoveNext(dsv, o, s).Ok? && MoveNext(dsv, o, s).value.more
    ensures var n := MoveNext(dsv, o, s).value.next;
            && n.index == q + 1
            && FieldText(dsv, o.escapeChar, n.nextValue) == dsv[s.lastDelimiter..q]
            && n.rowCount == s.rowCount + 1
            && n.newRowNextRead
            && Quiet(n) && AtFieldStart(n)
  {
    var t := Prepare(s).(index := q + 1);
    PlainReachBreak(dsv, o, s, q);
    PlainLineBreakText(dsv, o, t);
    LineBreakYields(dsv, o, t);
  }

  /** Plain text running to the end of the input is yielded whole and ends the row. */
  lemma PlainLastField(dsv: string, o: Options, s: Scanner)
    requires AtFieldStart(s) && Quiet(s)
    requires s.lastDelimiter < |dsv|
    requires forall j :: s.lastDelimiter <= j < |dsv| ==> Plain(o, dsv[j])
    ensures MoveNext(dsv, o, s).Ok? && MoveNext(dsv, o, s).value.more
    ensures var n := MoveNext(dsv, o, s).value.next;
            && n.index == |dsv| - 1
            && FieldText(dsv, o.escapeChar, n.nextValue) == dsv[s.lastDelimiter..]
            && n.rowCount == s.rowCount + 1
  {
    var t := Prepare(s).(index := |dsv| - 1);
    PlainReach(dsv, o, s, |dsv| - 1);
    assert Plain(o, dsv[|dsv| - 1]);
    assert CheckLineFeed(dsv, |dsv|) == Ok(false);
    PlainLastText(dsv, o, t, 0);
    LastYields(dsv, o, t);
  }

  /**
   * Plain text followed by a line break that ends the input is yielded
   * without the line break, whether or not line breaks are being honoured.
   */
  lemma PlainLastFieldBeforeLineBreak(dsv: string, o: Options, s: Scanner)
    requires AtFieldStart(s) && Quiet(s)
    requires !IsLineFeedChar(o.delimiter) && !IsLineFeedChar(o.escapeChar)
    requires s.lastDelimiter + 2 <= |dsv|
    requires forall j :: s.lastDelimiter <= j < |dsv| - 2 ==> Plain(o, dsv[j])
    requires IsLineFeedChar(dsv[|dsv| - 2]) && IsLineFeedChar(dsv[|dsv| - 1])
    requires s.lastDelimiter + 2 < |dsv| || s.lastDelimiter == 0 || !IsLineFeedChar(dsv[s.lastDelimiter - 1])
    ensures MoveNext(dsv, o, s).Ok? && MoveNext(dsv, o, s).value.more
    ensures var n := MoveNext(dsv, o, s).value.next;
            && n.index == |dsv| - 1
            && FieldText(dsv, o.escapeChar, n.nextValue) == dsv[s.lastDelimiter..|dsv| - 2]
            && n.rowCount == s.rowCount + 1
  {
    var t := Prepare(s).(index := |dsv| - 1);
    PlainReachBreak(dsv, o, s, |dsv| - 2);
    PlainLastText(dsv, o, t, 2);
    LastYields(dsv, o, t);
  }

  /** After the last character has ended the last row, the reader reports the end (inputs of two or more characters). */
  lemma EndAfterLastField(dsv: string, o: Options, s: Scanner)
    requires 2 <= |dsv| && s.index == |dsv| - 1
    ensures MoveNext(dsv, o, s).Ok? && !MoveNext(dsv, o, s).value.more
    ensures MoveNext(dsv, o, s).value.next.rowCount == s.rowCount
  {
  }

  // ---------------------------------------------------------------------
  // Quoted fields
  // ---------------------------------------------------------------------

  /**
   * From a field start at an opening quote, the scan goes on past a closing
   * quote followed by a delimiter, which switches quoting off unless the
   * character before it is an escape character.
   */
  lemma QuotedReachDelimiter(dsv: string, o: Options, t: Scanner, w: string)
    requires o.escapeChar != o.delimiter && !IsLineFeedChar(o.escapeChar)
    requires !t.escaping && !t.escapedEscapeChar
    requires QuotedAt(dsv, o.escapeChar, t.index, w)
    requires t.index + |Double(w, o.escapeChar)| + 2 < |dsv|
    requires dsv[t.index + |Double(w, o.escapeChar)| + 2] == o.delimiter
    ensures var pending := |w| == 0 || w[|w| - 1] == o.escapeChar;
            (Scan(dsv, o, t)
             == Scan(dsv, o, t.(index := t.index + |Double(w, o.escapeChar)| + 2,
                                escaping := pending, didEscape := true, escapedEscapeChar := pending,
                                didEscapeEscapeChar := t.didEscapeEscapeChar || o.escapeChar in w || pending)))
  {
    hide *;
    var e := o.escapeChar;
    var pending := |w| == 0 || w[|w| - 1] == e;
    var c := t.index + 1 + |Double(w, e)|;
    var tc := t.(index := c, escaping := true, didEscape := true,
                 didEscapeEscapeChar := t.didEscapeEscapeChar || e in w);
    BeforeClosingQuote(dsv, e, t.index, w);
    PassClosingQuote(dsv, o, tc, pending);
    ScanToClosingQuote(dsv, o, t, w);
  }

  /** The character before the closing quote is an escape character exactly when `w` is empty or ends in one. */
  lemma BeforeClosingQuote(dsv: string, e: char, p: nat, w: string)
    requires QuotedAt(dsv, e, p, w)
    ensures dsv[p + |Double(w, e)|] == e <==> (|w| == 0 || w[|w| - 1] == e)
    ensures dsv[p + 1 + |Double(w, e)|] == e
  {
    var d := Double(w, e);
    DoubledEndsInEscape(w, e);
    if |d| > 0 {
      assert dsv[p + 1..p + 1 + |d|][|d| - 1] == d[|d| - 1];
    }
  }

  /** A closing quote before a delimiter: quoting goes off, or an escape is left pending after an escape character. */
  lemma PassClosingQuote(dsv: string, o: Options, t: Scanner, pending: bool)
    requires 1 <= t.index < |dsv| - 1 && dsv[t.index] == o.escapeChar && o.escapeChar != o.delimiter
    requires t.escaping && !t.escapedEscapeChar && dsv[t.index + 1] == o.delimiter
    requires pending <==> dsv[t.index - 1] == o.escapeChar
    ensures Scan(dsv, o, t)
         == Scan(dsv, o, t.(index := t.index + 1, escaping := pending, escapedEscapeChar := pending,
                            didEscapeEscapeChar := t.didEscapeEscapeChar || pending))
  {
    if pending {
      ScanPassesQuoteAfterEscape(dsv, o, t);
    } else {
      ScanPassesCloseQuote(dsv, o, t);
    }
  }

  /** ... and on past a closing quote and the first character of a line break after it. */
  lemma QuotedReachBreak(dsv: string, o: Options, t: Scanner, w: string)
    requires o.escapeChar != o.delimiter && !IsLineFeedChar(o.escapeChar) && !IsLineFeedChar(o.delimiter)
    requires !t.escaping && !t.escapedEscapeChar
    requires QuotedAt(dsv, o.escapeChar, t.index, w)
    requires t.index + |Double(w, o.escapeChar)| + 4 <= |dsv|
    requires IsLineFeedChar(dsv[t.index + |Double(w, o.escapeChar)| + 2])
    requires IsLineFeedChar(dsv[t.index + |Double(w, o.escapeChar)| + 3])
    requires |w| > 0 && w[|w| - 1] != o.escapeChar
    ensures Scan(dsv, o, t)
         == Scan(dsv, o, t.(index := t.index + |Double(w, o.escapeChar)| + 3,
                            escaping := false, didEscape := true,
                            didEscapeEscapeChar := t.didEscapeEscapeChar || o.escapeChar in w))
  {
    hide *;
    var e := o.escapeChar;
    var c := t.index + 1 + |Double(w, e)|;
    var tc := t.(index := c, escaping := true, didEscape := true,
                 didEscapeEscapeChar := t.didEscapeEscapeChar || e in w);
    BeforeClosingQuote(dsv, e, t.index, w);
    assert dsv[c - 1] != e && dsv[c] == e;
    assert tc.(index := tc.index + 2, escaping := false)
        == t.(index := t.index + |Double(w, e)| + 3, escaping := false, didEscape := true,
              didEscapeEscapeChar := t.didEscapeEscapeChar || e in w);
    PassClosingQuoteBreak(dsv, o, tc);
    ScanToClosingQuote(dsv, o, t, w);
  }

  /** Inside quotes, a closing quote before a line break switches quoting off and the scan passes the first character of the break. */
  lemma PassClosingQuoteBreak(dsv: string, o: Options, t: Scanner)
    requires !IsLineFeedChar(o.escapeChar) && !IsLineFeedChar(o.delimiter)
    requires 1 <= t.index && t.index + 3 <= |dsv| && o.escapeChar != o.delimiter
    requires dsv[t.index] == o.escapeChar && dsv[t.index - 1] != o.escapeChar
    requires IsLineFeedChar(dsv[t.index + 1]) && IsLineFeedChar(dsv[t.index + 2])
    requires t.escaping && !t.escapedEscapeChar
    ensures Scan(dsv, o, t) == Scan(dsv, o, t.(index := t.index + 2, escaping := false))
  {
    var tb := t.(escaping := false, index := t.index + 1);
    assert CheckLineFeed(dsv, t.index + 3) == Ok(true);
    assert CheckLineFeed(dsv, t.index + 2) == Ok(false);
    assert tb.(index := tb.index + 1) == t.(index := t.index + 2, escaping := false);
    ScanPassesNoBreak(dsv, o, tb);
    ScanPassesCloseQuote(dsv, o, t);
  }

  /**
   * Quoted text followed by the delimiter is yielded as the text itself:
   * the quotes dropped and each doubled escape character collapsed. Quoting
   * stays switched on, with an escape pending, exactly when the character
   * before the closing quote is itself an escape character: the text is
   * empty or ends in an escape character.
   */
  lemma QuotedFieldBeforeDelimiter(dsv: string, o: Options, s: Scanner, w: string)
    requires o.escapeChar != o.delimiter && !IsLineFeedChar(o.escapeChar)
    requires AtFieldStart(s) && !s.escaping && !s.escapedEscapeChar && RoomForColumn(s)
    requires QuotedAt(dsv, o.escapeChar, s.lastDelimiter, w)
    requires s.lastDelimiter + |Double(w, o.escapeChar)| + 2 < |dsv|
    requires dsv[s.lastDelimiter + |Double(w, o.escapeChar)| + 2] == o.delimiter
    ensures MoveNext(dsv, o, s).Ok? && MoveNext(dsv, o, s).value.more
    ensures var n := MoveNext(dsv, o, s).value.next;
            && n.index == s.lastDelimiter + |Double(w, o.escapeChar)| + 2
            && FieldText(dsv, o.escapeChar, n.nextValue) == w
            && n.rowCount == s.rowCount
            && AtFieldStart(n) && !n.didEscape
            && n.escaping == n.escapedEscapeChar
            && (n.escaping <==> |w| == 0 || w[|w| - 1] == o.escapeChar)
  {
    hide Double, CountOf, Examine, TakeField, FieldText, QuotedAt;
    var e := o.escapeChar;
    var pending := |w| == 0 || w[|w| - 1] == e;
    var p := Prepare(s);
    var t := p.(index := p.index + |Double(w, e)| + 2,
                escaping := pending, didEscape := true, escapedEscapeChar := pending,
                didEscapeEscapeChar := p.didEscapeEscapeChar || e in w || pending);
    QuotedReachDelimiter(dsv, o, p, w);
    QuotedDelimiterText(dsv, o, t, w);
    DelimiterYields(dsv, o, t);
  }

  /**
   * Quoted text followed by a line break that does not end the input is
   * yielded as the text itself and ends the row, provided the reader is
   * honouring line breaks there and the text does not end in an escape
   * character.
   */
  lemma QuotedFieldBeforeLineBreak(dsv: string, o: Options, s: Scanner, w: string)
    requires o.escapeChar != o.delimiter && !IsLineFeedChar(o.escapeChar) && !IsLineFeedChar(o.delimiter)
    requires AtFieldStart(s) && !s.escaping && !s.escapedEscapeChar && LineFeedHonoured(o, Prepare(s))
    requires QuotedAt(dsv, o.escapeChar, s.lastDelimiter, w)
    requires s.lastDelimiter + |Double(w, o.escapeChar)| + 4 < |dsv|
    requires IsLineFeedChar(dsv[s.lastDelimiter + |Double(w, o.escapeChar)| + 2])
    requires IsLineFeedChar(dsv[s.lastDelimiter + |Double(w, o.escapeChar)| + 3])
    requires |w| > 0 && w[|w| - 1] != o.escapeChar
    ensures MoveNext(dsv, o, s).Ok? && MoveNext(dsv, o, s).value.more
    ensures var n := MoveNext(dsv, o, s).value.next;
            && n.index == s.lastDelimiter + |Double(w, o.escapeChar)| + 3
            && FieldText(dsv, o.escapeChar, n.nextValue) == w
            && n.rowCount == s.rowCount + 1
            && Quiet(n) && AtFieldStart(n)
  {
    hide Double, CountOf, Examine, TakeField, FieldText, QuotedAt;
    var e := o.escapeChar;
    var t := Prepare(s).(index := s.lastDelimiter + |Double(w, e)| + 3,
                         escaping := false, didEscape := true,
                         didEscapeEscapeChar := s.didEscapeEscapeChar || e in w);
    QuotedReachBreak(dsv, o, Prepare(s), w);
    assert MoveNext(dsv, o, s) == Scan(dsv, o, t);
    QuotedLineBreakText(dsv, o, t, w);
    LineBreakYields(dsv, o, t);
  }

  /**
   * The other case of quoted text before a line break: when the text is
   * empty or ends in an escape character, the closing quote follows an
   * escape character and only marks an escaped escape character, so the
   * line-break character after it raises.
   */
  lemma QuotedBeforeLineBreakRaises(dsv: string, o: Options, s: Scanner, w: string)
    requires o.escapeChar != o.delimiter && !IsLineFeedChar(o.escapeChar) && !IsLineFeedChar(o.delimiter)
    requires AtFieldStart(s) && !s.escaping && !s.escapedEscapeChar
    requires QuotedAt(dsv, o.escapeChar, s.lastDelimiter, w)
    requires s.lastDelimiter + |Double(w, o.escapeChar)| + 3 < |dsv|
    requires IsLineFeedChar(dsv[s.lastDelimiter + |Double(w, o.escapeChar)| + 2])
    requires |w| == 0 || w[|w| - 1] == o.escapeChar
    ensures MoveNext(dsv, o, s) == Err(InvalidEscapedEscapeChar)
  {
    hide Double, CountOf, Examine, TakeField, FieldText, QuotedAt;
    var e := o.escapeChar;
    var c := s.lastDelimiter + 1 + |Double(w, e)|;
    var tc := Prepare(s).(index := c, escaping := true, didEscape := true,
                          didEscapeEscapeChar := s.didEscapeEscapeChar || e in w);
    ScanToClosingQuote(dsv, o, Prepare(s), w);
    BeforeClosingQuote(dsv, e, s.lastDelimiter, w);
    ScanPassesQuoteAfterEscape(dsv, o, tc);
    EscapedEscapeStopsAtBreak(dsv, o, tc.(escapedEscapeChar := true, didEscapeEscapeChar := true, index := c + 1));
    assert MoveNext(dsv, o, s) == Scan(dsv, o, Prepare(s));
  }

  /** With an escaped escape character marked, a line-break character that is not the last one raises. */
  lemma EscapedEscapeStopsAtBreak(dsv: string, o: Options, t: Scanner)
    requires !IsLineFeedChar(o.escapeChar) && !IsLineFeedChar(o.delimiter)
    requires t.index < |dsv| - 1 && IsLineFeedChar(dsv[t.index]) && t.escapedEscapeChar
    ensures Scan(dsv, o, t) == Err(InvalidEscapedEscapeChar)
  {
  }

  /** A quoted field whose closing quote is the last character is yielded as its text. */
  lemma QuotedLastField(dsv: string, o: Options, s: Scanner, w: string)
    requires o.escapeChar != o.delimiter && !IsLineFeedChar(o.escapeChar)
    requires AtFieldStart(s) && !s.escaping && !s.escapedEscapeChar
    requires QuotedAt(dsv, o.escapeChar, s.lastDelimiter, w)
    requires s.lastDelimiter + |Double(w, o.escapeChar)| + 2 == |dsv|
    ensures MoveNext(dsv, o, s).Ok? && MoveNext(dsv, o, s).value.more
    ensures var n := MoveNext(dsv, o, s).value.next;
            && n.index == |dsv| - 1
            && FieldText(dsv, o.escapeChar, n.nextValue) == w
            && n.rowCount == s.rowCount + 1
  {
    hide Double, CountOf, Examine, TakeField, FieldText, QuotedAt;
    var e := o.escapeChar;
    var t := Prepare(s).(index := s.lastDelimiter + |Double(w, e)| + 1,
                         escaping := true, didEscape := true,
                         didEscapeEscapeChar := s.didEscapeEscapeChar || e in w);
    BeforeClosingQuote(dsv, e, s.lastDelimiter, w);
    ScanToClosingQuote(dsv, o, Prepare(s), w);
    assert MoveNext(dsv, o, s) == Scan(dsv, o, t);
    QuotedLastText(dsv, o, t, w);
    LastYields(dsv, o, t);
  }

  /**
   * A quoted field that is followed only by a final line break keeps its
   * quotes: the last-character branch looks at `escaping`, which the
   * closing quote has already switched off, not at `didEscape`.
   */
  lemma QuotedLastFieldKeepsQuotes(dsv: string, o: Options, s: Scanner, w: string)
    requires o.escapeChar != o.delimiter && !IsLineFeedChar(o.escapeChar) && !IsLineFeedChar(o.delimiter)
    requires AtFieldStart(s) && !s.escaping && !s.escapedEscapeChar && !s.didEscapeEscapeChar
    requires o.escapeChar !in w && |w| > 0
    requires QuotedAt(dsv, o.escapeChar, s.lastDelimiter, w)
    requires s.lastDelimiter + |w| + 4 == |dsv|
    requires IsLineFeedChar(dsv[|dsv| - 2]) && IsLineFeedChar(dsv[|dsv| - 1])
    ensures MoveNext(dsv, o, s).Ok? && MoveNext(dsv, o, s).value.more
    ensures var n := MoveNext(dsv, o, s).value.next;
            && n.index == |dsv| - 1
            && FieldText(dsv, o.escapeChar, n.nextValue) == [o.escapeChar] + w + [o.escapeChar]
            && n.rowCount == s.rowCount + 1
  {
    hide Double, CountOf, Examine, TakeField, FieldText, QuotedAt;
    DoubleWithoutEscape(w, o.escapeChar);
    var t := Prepare(s).(index := s.lastDelimiter + |w| + 3, escaping := false, didEscape := true);
    QuotedReachBreak(dsv, o, Prepare(s), w);
    assert MoveNext(dsv, o, s) == Scan(dsv, o, t);
    QuotesKeptText(dsv, o, t, w);
    LastYields(dsv, o, t);
  }

  // ---------------------------------------------------------------------
  // Inputs on which a call goes wrong
  // ---------------------------------------------------------------------

  /**
   * While quoting is still on with an escape pending (left so by an empty
   * quoted field or one ending in an escape character), the next field's
   * first ordinary character raises `InvalidEscapedEscapeChar`.
   */
  lemma PendingEscapeRejectsNextField(dsv: string, o: Options, s: Scanner)
    requires s.escaping && s.escapedEscapeChar && AtFieldStart(s)
    requires s.lastDelimiter < |dsv| - 1 && Plain(o, dsv[s.lastDelimiter])
    ensures MoveNext(dsv, o, s) == Err(InvalidEscapedEscapeChar)
  {
  }

  /**
   * Where line breaks are honoured, a line break directly after another one
   * (a blank line) makes the reader slice with a negative length.
   */
  lemma BlankLineFails(dsv: string, o: Options, s: Scanner)
    requires AtFieldStart(s) && !s.escaping && !s.escapedEscapeChar && LineFeedHonoured(o, Prepare(s))
    requires !IsLineFeedChar(o.delimiter) && !IsLineFeedChar(o.escapeChar)
    requires 1 <= s.lastDelimiter < |dsv| - 1
    requires IsLineFeedChar(dsv[s.lastDelimiter - 1]) && IsLineFeedChar(dsv[s.lastDelimiter])
    ensures MoveNext(dsv, o, s) == Err(SliceOutOfRange)
  {
  }

  /**
   * A delimiter as the first character yields an empty first field, but the
   * cursor is not moved past it, so the next call slices with a negative
   * length.
   */
  lemma LeadingDelimiterFails(dsv: string, o: Options)
    requires 1 <= |dsv| && dsv[0] == o.delimiter
    ensures MoveNext(dsv, o, Start).Ok? && MoveNext(dsv, o, Start).value.more
    ensures var n := MoveNext(dsv, o, Start).value.next;
            && FieldText(dsv, o.escapeChar, n.nextValue) == ""
            && MoveNext(dsv, o, n) == Err(SliceOutOfRange)
  {
  }

  /**
   * On a one-character input other than the delimiter, each call yields the
   * whole input again as a new row: the cursor never leaves position 0.
   */
  lemma SingleCharacterRepeats(dsv: string, o: Options, s: Scanner)
    requires |dsv| == 1 && dsv[0] != o.delimiter
    requires s.index == 0 && s.lastDelimiter == 0 && !s.escaping
    ensures MoveNext(dsv, o, s).Ok? && MoveNext(dsv, o, s).value.more
    ensures var n := MoveNext(dsv, o, s).value.next;
            && n.index == 0 && n.lastDelimiter == 0 && !n.escaping
            && n.rowCount == s.rowCount + 1 && n.columnsFilled == s.columnsFilled
            && FieldText(dsv, o.escapeChar, n.nextValue) == dsv
  {
    assert dsv[0..1] == dsv;
    assert Collapse(dsv, o.escapeChar) == dsv by {
      assert dsv == [dsv[0]] + dsv[1..];
    }
  }
}
