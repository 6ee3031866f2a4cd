/**
 * Single steps of the reader's scan and the field each closing branch
 * builds, for the shapes of field the reader is meant for. The lemmas here
 * are the pieces from which the per-call results in DsvReaderFields are put
 * together.
 */
module DsvReaderSteps {
  import opened Outcomes
  import opened Unescape
  import opened DsvReader

  /** A character with no meaning to the reader. */
  predicate Plain(o: Options, c: char)
  {
    c != o.delimiter && c != o.escapeChar && !IsLineFeedChar(c)
  }

  /** The next call starts scanning exactly where the next field begins. */
  predicate AtFieldStart(s: Scanner)
  {
    Prepare(s).index == s.lastDelimiter
  }

  /** No quoting is in progress and the field seen so far was not quoted. */
  predicate Quiet(s: Scanner)
  {
    !s.escaping && !s.escapedEscapeChar && !s.didEscape
  }

  /** The delimiter about to be met would not overflow a filled row. */
  predicate RoomForColumn(s: Scanner)
  {
    !(s.columnsFilled && s.columnCount == Prepare(s).column)
  }

  lemma ScanContinues(dsv: string, o: Options, t: Scanner, n: Scanner)
    requires t.index < |dsv| && Examine(dsv, o, t) == Continue(n)
    ensures Scan(dsv, o, t) == Scan(dsv, o, n.(index := t.index + 1))
  {
  }

  lemma ScanEmits(dsv: string, o: Options, t: Scanner, n: Scanner)
    requires t.index < |dsv| && Examine(dsv, o, t) == Emit(n)
    ensures Scan(dsv, o, t) == Ok(Moved(true, n))
  {
  }

  /** Outside quotes, a plain character that is not the last one is passed over. */
  lemma StepPlain(dsv: string, o: Options, t: Scanner)
    requires t.index < |dsv| - 1 && Plain(o, dsv[t.index])
    requires !t.escaping && !t.escapedEscapeChar
    ensures Examine(dsv, o, t) == Continue(t)
  {
    assert CheckLineFeed(dsv, t.index + 1) == Ok(false);
  }

  /** Inside quotes with no escape pending, any character but the escape character is passed over. */
  lemma StepQuoted(dsv: string, o: Options, t: Scanner)
    requires t.index < |dsv| - 1 && dsv[t.index] != o.escapeChar
    requires t.escaping && !t.escapedEscapeChar
    ensures Examine(dsv, o, t) == Continue(t)
  {
  }

  /** An escape character outside quotes opens them. */
  lemma StepOpenQuote(dsv: string, o: Options, t: Scanner)
    requires t.index < |dsv| - 1 && dsv[t.index] == o.escapeChar && o.escapeChar != o.delimiter
    requires !t.escaping
    ensures Examine(dsv, o, t) == Continue(t.(escaping := true, didEscape := true))
  {
  }

  /** Inside quotes, an escape character followed by another one marks an escape pending. */
  lemma StepPairFirst(dsv: string, o: Options, t: Scanner)
    requires o.escapeChar != o.delimiter && !IsLineFeedChar(o.escapeChar)
    requires t.index + 3 <= |dsv| && dsv[t.index] == o.escapeChar && dsv[t.index + 1] == o.escapeChar
    requires t.escaping && !t.escapedEscapeChar
    ensures Examine(dsv, o, t) == Continue(t.(escapedEscapeChar := true, didEscapeEscapeChar := true))
  {
    assert CheckLineFeed(dsv, t.index + 3) == Ok(false);
  }

  /** Inside quotes, an escape character while one is pending completes the pair. */
  lemma StepPairSecond(dsv: string, o: Options, t: Scanner)
    requires o.escapeChar != o.delimiter
    requires t.index + 2 <= |dsv| && dsv[t.index] == o.escapeChar
    requires t.index + 3 <= |dsv| || !IsLineFeedChar(dsv[t.index + 1])
    requires t.escaping && t.escapedEscapeChar
    ensures Examine(dsv, o, t) == Continue(t.(escapedEscapeChar := false))
  {
    assert CheckLineFeed(dsv, t.index + 3).Ok?;
  }

  /** Inside quotes, a doubled escape character is passed over and recorded for collapsing. */
  lemma ScanSkipsPair(dsv: string, o: Options, t: Scanner)
    requires o.escapeChar != o.delimiter && !IsLineFeedChar(o.escapeChar)
    requires t.index + 3 <= |dsv| && dsv[t.index] == o.escapeChar && dsv[t.index + 1] == o.escapeChar
    requires t.index + 4 <= |dsv| || !IsLineFeedChar(dsv[t.index + 2])
    requires t.escaping && !t.escapedEscapeChar
    ensures Scan(dsv, o, t) == Scan(dsv, o, t.(index := t.index + 2, didEscapeEscapeChar := true))
  {
    var t1 := t.(escapedEscapeChar := true, didEscapeEscapeChar := true);
    StepPairFirst(dsv, o, t);
    ScanContinues(dsv, o, t, t1);
    var u1 := t1.(index := t.index + 1);
    StepPairSecond(dsv, o, u1);
    ScanContinues(dsv, o, u1, u1.(escapedEscapeChar := false));
    assert u1.(escapedEscapeChar := false).(index := t.index + 2) == t.(index := t.index + 2, didEscapeEscapeChar := true);
  }

  /** Inside quotes, the doubled form of the first character of the text is passed over. */
  lemma ScanSkipsFirst(dsv: string, o: Options, t: Scanner, w: string)
    requires o.escapeChar != o.delimiter && !IsLineFeedChar(o.escapeChar)
    requires t.escaping && !t.escapedEscapeChar && |w| > 0
    requires t.index + |Double(w, o.escapeChar)| < |dsv| && dsv[t.index + |Double(w, o.escapeChar)|] == o.escapeChar
    requires dsv[t.index..t.index + |Double(w, o.escapeChar)|] == Double(w, o.escapeChar)
    ensures Scan(dsv, o, t) == Scan(dsv, o, SkipFirst(t, w, o.escapeChar))
  {
    var e := o.escapeChar;
    var d := Double(w, e);
    assert d == (if w[0] == e then [e, e] else [w[0]]) + Double(w[1..], e);
    if w[0] == e {
      assert dsv[t.index] == d[0] && dsv[t.index + 1] == d[1];
      ScanSkipsPair(dsv, o, t);
    } else {
      assert dsv[t.index] == d[0];
      StepQuoted(dsv, o, t);
      ScanContinues(dsv, o, t, t);
      assert t.(index := t.index + 1, didEscapeEscapeChar := t.didEscapeEscapeChar || false) == t.(index := t.index + 1);
    }
  }

  /** Scanning outside quotes passes over plain characters. */
  lemma {:induction false} ScanSkipsPlain(dsv: string, o: Options, t: Scanner, q: nat)
    requires t.index <= q < |dsv|
    requires forall j :: t.index <= j < q ==> Plain(o, dsv[j])
    requires !t.escaping && !t.escapedEscapeChar
    ensures Scan(dsv, o, t) == Scan(dsv, o, t.(index := q))
    decreases q - t.index
  {
    if t.index < q {
      StepPlain(dsv, o, t);
      ScanContinues(dsv, o, t, t);
      ScanSkipsPlain(dsv, o, t.(index := t.index + 1), q);
    }
  }

  /**
   * Scanning inside quotes passes over the doubled form of any text; it
   * records a collapse to do exactly when the text holds an escape character.
   */
  lemma {:induction false} ScanSkipsQuoted(dsv: string, o: Options, t: Scanner, w: string)
    requires o.escapeChar != o.delimiter && !IsLineFeedChar(o.escapeChar)
    requires t.escaping && !t.escapedEscapeChar
    requires t.index + |Double(w, o.escapeChar)| < |dsv| && dsv[t.index + |Double(w, o.escapeChar)|] == o.escapeChar
    requires dsv[t.index..t.index + |Double(w, o.escapeChar)|] == Double(w, o.escapeChar)
    ensures Scan(dsv, o, t) == Scan(dsv, o, SkipAll(t, w, o.escapeChar))
    decreases |w|
  {
    var e := o.escapeChar;
    if |w| > 0 {
      DoubleSplits(dsv, t.index, w, e);
      ScanSkipsFirst(dsv, o, t, w);
      ScanSkipsQuoted(dsv, o, SkipFirst(t, w, e), w[1..]);
      SkipSplits(t, w, e);
    } else {
      assert SkipAll(t, w, e) == t;
    }
  }

  /** The scanner after the doubled form of the first character of `w`. */
  function SkipFirst(t: Scanner, w: string, e: char): Scanner
    requires |w| > 0
  {
    t.(index := t.index + (if w[0] == e then 2 else 1), didEscapeEscapeChar := t.didEscapeEscapeChar || w[0] == e)
  }

  /** The scanner after the doubled form of all of `w`. */
  function SkipAll(t: Scanner, w: string, e: char): Scanner
  {
    t.(index := t.index + |Double(w, e)|, didEscapeEscapeChar := t.didEscapeEscapeChar || e in w)
  }

  /** Skipping the first character and then the rest is skipping the whole text. */
  lemma SkipSplits(t: Scanner, w: string, e: char)
    requires |w| > 0
    ensures SkipAll(SkipFirst(t, w, e), w[1..], e) == SkipAll(t, w, e)
  {
    assert Double(w, e) == (if w[0] == e then [e, e] else [w[0]]) + Double(w[1..], e);
    assert w == [w[0]] + w[1..];
  }

  /** The doubled form of a text is the doubled form of its first character followed by that of the rest. */
  lemma DoubleSplits(dsv: string, i: nat, w: string, e: char)
    requires |w| > 0
    requires i + |Double(w, e)| <= |dsv| && dsv[i..i + |Double(w, e)|] == Double(w, e)
    ensures var k := if w[0] == e then 2 else 1;
            && |Double(w, e)| == k + |Double(w[1..], e)|
            && dsv[i + k..i + k + |Double(w[1..], e)|] == Double(w[1..], e)
            && (e in w <==> w[0] == e || e in w[1..])
  {
    var k := if w[0] == e then 2 else 1;
    var d := Double(w, e);
    assert d == (if w[0] == e then [e, e] else [w[0]]) + Double(w[1..], e);
    assert dsv[i + k..i + k + |Double(w[1..], e)|] == dsv[i..i + |d|][k..];
    assert w == [w[0]] + w[1..];
  }

  /** Outside quotes, a character that does not complete a line break (and is not the last one) is passed over. */
  lemma StepNoBreak(dsv: string, o: Options, t: Scanner)
    requires t.index < |dsv| - 1 && dsv[t.index] != o.delimiter && dsv[t.index] != o.escapeChar
    requires !t.escaping && !t.escapedEscapeChar
    requires CheckLineFeed(dsv, t.index + 1) == Ok(false)
    ensures Examine(dsv, o, t) == Continue(t)
  {
  }

  /** Outside quotes, a character that completes an honoured line break (and is not the last one) closes the row. */
  lemma StepLineBreak(dsv: string, o: Options, t: Scanner)
    requires t.index < |dsv| - 1 && dsv[t.index] != o.delimiter && dsv[t.index] != o.escapeChar
    requires !t.escaping && !t.escapedEscapeChar && LineFeedHonoured(o, t)
    requires CheckLineFeed(dsv, t.index + 1) == Ok(true)
    ensures Examine(dsv, o, t) == CloseAtLineFeed(dsv, o, t)
  {
  }

  /** The last character, unless it is the delimiter, closes the row. */
  lemma StepLast(dsv: string, o: Options, t: Scanner)
    requires t.index == |dsv| - 1 && dsv[t.index] != o.delimiter
    ensures Examine(dsv, o, t) == Finalize(dsv, o, t)
  {
  }

  /** A delimiter outside quotes, or after a lone escape, closes the field. */
  lemma StepDelimiter(dsv: string, o: Options, t: Scanner)
    requires t.index < |dsv| && dsv[t.index] == o.delimiter
    requires !t.escaping || t.escapedEscapeChar
    ensures Examine(dsv, o, t) == CloseAtDelimiter(dsv, o, t)
  {
  }

  /** Inside quotes, an escape character after an ordinary one, before a delimiter or line break, closes the quotes. */
  lemma StepCloseQuote(dsv: string, o: Options, t: Scanner)
    requires 1 <= t.index < |dsv| - 1 && dsv[t.index] == o.escapeChar && o.escapeChar != o.delimiter
    requires dsv[t.index - 1] != o.escapeChar
    requires t.escaping && !t.escapedEscapeChar
    requires dsv[t.index + 1] == o.delimiter || CheckLineFeed(dsv, t.index + 3) == Ok(true)
    ensures Examine(dsv, o, t) == Continue(t.(escaping := false))
  {
  }

  /** Inside quotes, an escape character right after another one is taken as the first of a pair, even before a delimiter. */
  lemma StepQuoteAfterEscape(dsv: string, o: Options, t: Scanner)
    requires 1 <= t.index < |dsv| - 1 && dsv[t.index] == o.escapeChar && o.escapeChar != o.delimiter
    requires dsv[t.index - 1] == o.escapeChar
    requires t.escaping && !t.escapedEscapeChar
    requires dsv[t.index + 1] == o.delimiter || CheckLineFeed(dsv, t.index + 3).Ok?
    ensures Examine(dsv, o, t) == Continue(t.(escapedEscapeChar := true, didEscapeEscapeChar := true))
  {
  }

  /** A run of plain characters holds no escape character, so collapsing leaves it alone. */
  lemma PlainRunUnchanged(dsv: string, o: Options, p: nat, q: nat)
    requires p <= q <= |dsv|
    requires forall j :: p <= j < q ==> Plain(o, dsv[j])
    ensures o.escapeChar !in dsv[p..q]
    ensures Collapse(dsv[p..q], o.escapeChar) == dsv[p..q]
  {
    forall k | 0 <= k < q - p
      ensures dsv[p..q][k] != o.escapeChar
    {
      assert Plain(o, dsv[p + k]);
    }
    CollapseWithoutEscape(dsv[p..q], o.escapeChar);
  }

  /** The text of a field sliced from a quoted interior. */
  lemma QuotedInteriorText(dsv: string, e: char, p: nat, w: string, dee: bool)
    requires QuotedAt(dsv, e, p, w)
    requires !dee ==> e !in w
    ensures TakeField(dsv, p + 1, |Double(w, e)|, dee).Ok?
    ensures FieldText(dsv, e, TakeField(dsv, p + 1, |Double(w, e)|, dee).value) == w
  {
    var d := Double(w, e);
    InteriorIsDoubled(dsv, e, p, w);
    if dee {
      CollapseDouble(w, e);
      OwnedText(dsv, e, p + 1, |d|);
    } else {
      DoubleWithoutEscape(w, e);
    }
  }

  /** The characters between the quotes are the doubled form. */
  lemma InteriorIsDoubled(dsv: string, e: char, p: nat, w: string)
    requires QuotedAt(dsv, e, p, w)
    ensures dsv[p + 1..p + 1 + |Double(w, e)|] == Double(w, e)
  {
  }

  /** An owned field stands for the collapse of the characters it spans. */
  lemma OwnedText(dsv: string, e: char, a: nat, n: nat)
    requires a + n <= |dsv|
    ensures FieldText(dsv, e, Owned(a, n)) == Collapse(dsv[a..a + n], e)
  {
  }

  /** A span that is an escape character, `d`, and an escape character again. */
  lemma FramedSpan(dsv: string, e: char, p: nat, d: string)
    requires p + |d| + 2 <= |dsv| && dsv[p] == e && dsv[p + 1 + |d|] == e
    requires dsv[p + 1..p + 1 + |d|] == d
    ensures dsv[p..p + |d| + 2] == [e] + d + [e]
  {
    assert dsv[p..p + |d| + 2] == [dsv[p]] + dsv[p + 1..p + 1 + |d|] + [dsv[p + 1 + |d|]];
  }

  /** `[e] + Double(w, e) + [e]` sits at `p` in `dsv`. */
  predicate QuotedAt(dsv: string, e: char, p: nat, w: string)
  {
    && p + |Double(w, e)| + 2 <= |dsv|
    && dsv[p] == e
    && dsv[p + 1..p + 1 + |Double(w, e)|] == Double(w, e)
    && dsv[p + 1 + |Double(w, e)|] == e
  }

  /**
   * From the opening quote of `[e] + Double(w, e) + [e]`, scanning reaches
   * the closing quote inside quotes, with the field marked quoted and a
   * collapse recorded when `w` holds an escape character.
   */
  lemma ScanToClosingQuote(dsv: string, o: Options, t: Scanner, w: string)
    requires o.escapeChar != o.delimiter && !IsLineFeedChar(o.escapeChar)
    requires !t.escaping && !t.escapedEscapeChar
    requires QuotedAt(dsv, o.escapeChar, t.index, w)
    ensures Scan(dsv, o, t) == Scan(dsv, o, t.(index := t.index + 1 + |Double(w, o.escapeChar)|,
                                               escaping := true, didEscape := true,
                                               didEscapeEscapeChar := t.didEscapeEscapeChar || o.escapeChar in w))
  {
    var e := o.escapeChar;
    var d := Double(w, e);
    assert dsv[t.index + 1..t.index + 1 + |d|] == d;
    StepOpenQuote(dsv, o, t);
    var t0 := t.(escaping := true, didEscape := true);
    ScanContinues(dsv, o, t, t0);
    ScanSkipsQuoted(dsv, o, t0.(index := t.index + 1), w);
  }

  /** The doubled form ends in an escape character exactly when the text does. */
  lemma {:induction false} DoubledEndsInEscape(w: string, e: char)
    ensures |Double(w, e)| == 0 <==> |w| == 0
    ensures |w| > 0 ==> (Double(w, e)[|Double(w, e)| - 1] == e <==> w[|w| - 1] == e)
  {
    if |w| > 0 {
      DoubledEndsInEscape(w[1..], e);
      if |w| > 1 {
        assert w[1..][|w[1..]| - 1] == w[|w| - 1];
      }
    }
  }

  /** Text without escape characters is its own doubled form. */
  lemma {:induction false} DoubleWithoutEscape(w: string, e: char)
    requires e !in w
    ensures Double(w, e) == w
  {
    if |w| > 0 {
      assert w[0] != e;
      DoubleWithoutEscape(w[1..], e);
      assert w == [w[0]] + w[1..];
    }
  }


  // ---------------------------------------------------------------------
  // Steps stated on the scan
  // ---------------------------------------------------------------------

  /** Outside quotes, a character that does not complete a line break is passed over. */
  lemma ScanPassesNoBreak(dsv: string, o: Options, t: Scanner)
    requires t.index < |dsv| - 1 && dsv[t.index] != o.delimiter && dsv[t.index] != o.escapeChar
    requires !t.escaping && !t.escapedEscapeChar
    requires CheckLineFeed(dsv, t.index + 1) == Ok(false)
    ensures Scan(dsv, o, t) == Scan(dsv, o, t.(index := t.index + 1))
  {
    StepNoBreak(dsv, o, t);
    ScanContinues(dsv, o, t, t);
  }

  /** Inside quotes, a closing quote before a delimiter or line break switches quoting off. */
  lemma ScanPassesCloseQuote(dsv: string, o: Options, t: Scanner)
    requires 1 <= t.index < |dsv| - 1 && dsv[t.index] == o.escapeChar && o.escapeChar != o.delimiter
    requires dsv[t.index - 1] != o.escapeChar
    requires t.escaping && !t.escapedEscapeChar
    requires dsv[t.index + 1] == o.delimiter || CheckLineFeed(dsv, t.index + 3) == Ok(true)
    ensures Scan(dsv, o, t) == Scan(dsv, o, t.(escaping := false, index := t.index + 1))
  {
    StepCloseQuote(dsv, o, t);
    ScanContinues(dsv, o, t, t.(escaping := false));
  }

  /** Inside quotes, a quote right after an escape character leaves an escape pending. */
  lemma ScanPassesQuoteAfterEscape(dsv: string, o: Options, t: Scanner)
    requires 1 <= t.index < |dsv| - 1 && dsv[t.index] == o.escapeChar && o.escapeChar != o.delimiter
    requires dsv[t.index - 1] == o.escapeChar
    requires t.escaping && !t.escapedEscapeChar
    requires dsv[t.index + 1] == o.delimiter || CheckLineFeed(dsv, t.index + 3).Ok?
    ensures Scan(dsv, o, t) == Scan(dsv, o, t.(escapedEscapeChar := true, didEscapeEscapeChar := true, index := t.index + 1))
  {
    StepQuoteAfterEscape(dsv, o, t);
    ScanContinues(dsv, o, t, t.(escapedEscapeChar := true, didEscapeEscapeChar := true));
  }

  lemma ScanClosesAtDelimiter(dsv: string, o: Options, t: Scanner)
    requires t.index < |dsv| && dsv[t.index] == o.delimiter && (!t.escaping || t.escapedEscapeChar)
    requires CloseAtDelimiter(dsv, o, t).Emit?
    ensures Scan(dsv, o, t) == Ok(Moved(true, CloseAtDelimiter(dsv, o, t).next))
  {
    StepDelimiter(dsv, o, t);
    ScanEmits(dsv, o, t, CloseAtDelimiter(dsv, o, t).next);
  }

  lemma ScanClosesAtLineBreak(dsv: string, o: Options, t: Scanner)
    requires t.index < |dsv| - 1 && dsv[t.index] != o.delimiter && dsv[t.index] != o.escapeChar
    requires !t.escaping && !t.escapedEscapeChar && LineFeedHonoured(o, t)
    requires CheckLineFeed(dsv, t.index + 1) == Ok(true)
    requires CloseAtLineFeed(dsv, o, t).Emit?
    ensures Scan(dsv, o, t) == Ok(Moved(true, CloseAtLineFeed(dsv, o, t).next))
  {
    StepLineBreak(dsv, o, t);
    ScanEmits(dsv, o, t, CloseAtLineFeed(dsv, o, t).next);
  }

  lemma ScanClosesAtLast(dsv: string, o: Options, t: Scanner)
    requires t.index == |dsv| - 1 && dsv[t.index] != o.delimiter
    requires Finalize(dsv, o, t).Emit?
    ensures Scan(dsv, o, t) == Ok(Moved(true, Finalize(dsv, o, t).next))
  {
    StepLast(dsv, o, t);
    ScanEmits(dsv, o, t, Finalize(dsv, o, t).next);
  }

  // ---------------------------------------------------------------------
  // The slice each closing branch takes
  // ---------------------------------------------------------------------

  /** The slice a delimiter close takes: inside the quotes if the field was quoted. */
  function DelimiterSlice(dsv: string, o: Options, t: Scanner): Result<Field>
  {
    var ld := t.lastDelimiter;
    if t.didEscape then TakeField(dsv, ld + 1, t.index - ld - 2, t.didEscapeEscapeChar)
    else TakeField(dsv, ld, t.index - ld, t.didEscapeEscapeChar)
  }

  /** The slice a line-break close takes, the line break left out. */
  function LineBreakSlice(dsv: string, o: Options, t: Scanner): Result<Field>
  {
    var ld := t.lastDelimiter;
    if t.didEscape then TakeField(dsv, ld + 1, t.index - ld - 3, t.didEscapeEscapeChar)
    else TakeField(dsv, ld, t.index - ld - 1, t.didEscapeEscapeChar)
  }

  lemma DelimiterTakes(dsv: string, o: Options, t: Scanner)
    requires t.index < |dsv| && !(t.columnsFilled && t.columnCount == t.column)
    ensures CloseAtDelimiter(dsv, o, t).Emit? <==> DelimiterSlice(dsv, o, t).Ok?
    ensures CloseAtDelimiter(dsv, o, t).Emit? ==> CloseAtDelimiter(dsv, o, t).next.nextValue == DelimiterSlice(dsv, o, t).value
  {
  }

  lemma LineBreakTakes(dsv: string, o: Options, t: Scanner)
    requires t.index < |dsv| - 1 && !t.escaping
    ensures CloseAtLineFeed(dsv, o, t).Emit? <==> LineBreakSlice(dsv, o, t).Ok?
    ensures CloseAtLineFeed(dsv, o, t).Emit? ==> CloseAtLineFeed(dsv, o, t).next.nextValue == LineBreakSlice(dsv, o, t).value
  {
  }

  /**
   * The slice the last-character close takes: inside the quotes while
   * quoting is on, and without a final line break.
   */
  function LastSlice(dsv: string, o: Options, t: Scanner): Result<Field>
  {
    var n := |dsv|;
    var ld := t.lastDelimiter;
    var lineFeed := CheckLineFeed(dsv, n) == Ok(true);
    if t.escaping then TakeField(dsv, ld + 1, if lineFeed then n - ld - 3 else n - ld - 2, t.didEscapeEscapeChar)
    else TakeField(dsv, ld, if lineFeed then n - ld - 2 else n - ld, t.didEscapeEscapeChar)
  }

  /** The state after a delimiter close that took `f`: the next field starts past the delimiter. */
  function AfterDelimiter(t: Scanner, f: Field): Scanner
  {
    t.(nextValue := f, lastDelimiter := t.index + 1, didEscape := false,
       columnCount := if t.columnsFilled then t.columnCount else t.columnCount + 1,
       column := t.column + 1)
  }

  /** The state after a line-break close that took `f`: a new row starts past the line break. */
  function AfterLineBreak(o: Options, t: Scanner, f: Field): Scanner
  {
    var header := o.hasHeaders && !t.columnsFilled;
    t.(nextValue := f,
       columnCount := if header then t.columnCount + 1 else t.columnCount,
       columnsFilled := header || t.columnsFilled,
       rowCount := t.rowCount + 1,
       didEscape := false, didEscapeEscapeChar := false,
       lastDelimiter := t.index + 1,
       newRowNextRead := true)
  }

  /** The state after the last-character close that took `f`. */
  function AfterLast(t: Scanner, f: Field): Scanner
  {
    t.(nextValue := f, didEscape := false, didEscapeEscapeChar := false,
       rowCount := t.rowCount + 1, newRowNextRead := false)
  }

  /** A delimiter close that can take its slice yields it and moves the field start past the delimiter. */
  lemma DelimiterYields(dsv: string, o: Options, t: Scanner)
    requires t.index < |dsv| && dsv[t.index] == o.delimiter && (!t.escaping || t.escapedEscapeChar)
    requires !(t.columnsFilled && t.columnCount == t.column)
    requires DelimiterSlice(dsv, o, t).Ok?
    ensures Scan(dsv, o, t) == Ok(Moved(true, AfterDelimiter(t, DelimiterSlice(dsv, o, t).value)))
  {
    StepDelimiter(dsv, o, t);
    DelimiterTakes(dsv, o, t);
    ScanEmits(dsv, o, t, CloseAtDelimiter(dsv, o, t).next);
  }

  /** A line-break close that can take its slice yields it and ends the row. */
  lemma LineBreakYields(dsv: string, o: Options, t: Scanner)
    requires t.index < |dsv| - 1 && dsv[t.index] != o.delimiter && dsv[t.index] != o.escapeChar
    requires !t.escaping && !t.escapedEscapeChar && LineFeedHonoured(o, t)
    requires CheckLineFeed(dsv, t.index + 1) == Ok(true)
    requires LineBreakSlice(dsv, o, t).Ok?
    ensures Scan(dsv, o, t) == Ok(Moved(true, AfterLineBreak(o, t, LineBreakSlice(dsv, o, t).value)))
  {
    StepLineBreak(dsv, o, t);
    LineBreakTakes(dsv, o, t);
    ScanEmits(dsv, o, t, CloseAtLineFeed(dsv, o, t).next);
  }

  /** The last-character close that can take its slice yields it and ends the row. */
  lemma LastYields(dsv: string, o: Options, t: Scanner)
    requires t.index == |dsv| - 1 && dsv[t.index] != o.delimiter
    requires LastSlice(dsv, o, t).Ok?
    ensures Scan(dsv, o, t) == Ok(Moved(true, AfterLast(t, LastSlice(dsv, o, t).value)))
  {
    StepLast(dsv, o, t);
    assert CheckLineFeed(dsv, |dsv|).Ok?;
    ScanEmits(dsv, o, t, Finalize(dsv, o, t).next);
  }

  /** A slice of plain characters is yielded as it stands. */
  lemma PlainSliceText(dsv: string, o: Options, a: nat, n: nat, unescape: bool)
    requires a + n <= |dsv|
    requires forall j :: a <= j < a + n ==> Plain(o, dsv[j])
    ensures TakeField(dsv, a, n, unescape).Ok?
    ensures FieldText(dsv, o.escapeChar, TakeField(dsv, a, n, unescape).value) == dsv[a..a + n]
  {
    PlainRunUnchanged(dsv, o, a, a + n);
  }
  /** A delimiter close of a plain field yields the characters between the field start and the delimiter. */
  lemma PlainDelimiterText(dsv: string, o: Options, t: Scanner)
    requires !t.didEscape && t.lastDelimiter <= t.index < |dsv|
    requires forall j :: t.lastDelimiter <= j < t.index ==> Plain(o, dsv[j])
    ensures DelimiterSlice(dsv, o, t).Ok?
    ensures FieldText(dsv, o.escapeChar, DelimiterSlice(dsv, o, t).value) == dsv[t.lastDelimiter..t.index]
  {
    PlainSliceText(dsv, o, t.lastDelimiter, t.index - t.lastDelimiter, t.didEscapeEscapeChar);
  }

  /** A line-break close of a plain field yields the characters before the line break. */
  lemma PlainLineBreakText(dsv: string, o: Options, t: Scanner)
    requires !t.didEscape && t.lastDelimiter < t.index < |dsv|
    requires forall j :: t.lastDelimiter <= j < t.index - 1 ==> Plain(o, dsv[j])
    ensures LineBreakSlice(dsv, o, t).Ok?
    ensures FieldText(dsv, o.escapeChar, LineBreakSlice(dsv, o, t).value) == dsv[t.lastDelimiter..t.index - 1]
  {
    PlainSliceText(dsv, o, t.lastDelimiter, t.index - 1 - t.lastDelimiter, t.didEscapeEscapeChar);
  }

  /** The last-character close of a plain field yields the rest of the input, less `cut` final characters. */
  lemma PlainLastText(dsv: string, o: Options, t: Scanner, cut: nat)
    requires !t.escaping && t.index == |dsv| - 1
    requires cut == if CheckLineFeed(dsv, |dsv|) == Ok(true) then 2 else 0
    requires t.lastDelimiter + cut <= |dsv|
    requires forall j :: t.lastDelimiter <= j < |dsv| - cut ==> Plain(o, dsv[j])
    ensures LastSlice(dsv, o, t).Ok?
    ensures FieldText(dsv, o.escapeChar, LastSlice(dsv, o, t).value) == dsv[t.lastDelimiter..|dsv| - cut]
  {
    PlainSliceText(dsv, o, t.lastDelimiter, |dsv| - cut - t.lastDelimiter, t.didEscapeEscapeChar);
  }

  /** For a quoted field, the delimiter close slices the `n` characters inside the quotes. */
  lemma DelimiterSliceInside(dsv: string, o: Options, t: Scanner, n: nat)
    requires t.didEscape && t.index == t.lastDelimiter + n + 2
    ensures DelimiterSlice(dsv, o, t) == TakeField(dsv, t.lastDelimiter + 1, n, t.didEscapeEscapeChar)
  {
  }

  /** For a quoted field, the line-break close slices the `n` characters inside the quotes. */
  lemma LineBreakSliceInside(dsv: string, o: Options, t: Scanner, n: nat)
    requires t.didEscape && t.index == t.lastDelimiter + n + 3
    ensures LineBreakSlice(dsv, o, t) == TakeField(dsv, t.lastDelimiter + 1, n, t.didEscapeEscapeChar)
  {
  }

  /** With quoting on and no final line break, the last-character close slices the `n` characters inside the quotes. */
  lemma LastSliceInside(dsv: string, o: Options, t: Scanner, n: nat)
    requires t.escaping && 1 <= |dsv| && !IsLineFeedChar(dsv[|dsv| - 1])
    requires t.lastDelimiter + n + 2 == |dsv|
    ensures LastSlice(dsv, o, t) == TakeField(dsv, t.lastDelimiter + 1, n, t.didEscapeEscapeChar)
  {
  }

  /** A delimiter close right after the closing quote yields the quoted text. */
  lemma QuotedDelimiterText(dsv: string, o: Options, t: Scanner, w: string)
    requires t.didEscape && QuotedAt(dsv, o.escapeChar, t.lastDelimiter, w)
    requires t.index == t.lastDelimiter + |Double(w, o.escapeChar)| + 2
    requires !t.didEscapeEscapeChar ==> o.escapeChar !in w
    ensures DelimiterSlice(dsv, o, t).Ok?
    ensures FieldText(dsv, o.escapeChar, DelimiterSlice(dsv, o, t).value) == w
  {
    DelimiterSliceInside(dsv, o, t, |Double(w, o.escapeChar)|);
    QuotedInteriorText(dsv, o.escapeChar, t.lastDelimiter, w, t.didEscapeEscapeChar);
  }

  /** A line-break close one character past the closing quote yields the quoted text. */
  lemma QuotedLineBreakText(dsv: string, o: Options, t: Scanner, w: string)
    requires t.didEscape && QuotedAt(dsv, o.escapeChar, t.lastDelimiter, w)
    requires t.index == t.lastDelimiter + |Double(w, o.escapeChar)| + 3
    requires !t.didEscapeEscapeChar ==> o.escapeChar !in w
    ensures LineBreakSlice(dsv, o, t).Ok?
    ensures FieldText(dsv, o.escapeChar, LineBreakSlice(dsv, o, t).value) == w
  {
    LineBreakSliceInside(dsv, o, t, |Double(w, o.escapeChar)|);
    QuotedInteriorText(dsv, o.escapeChar, t.lastDelimiter, w, t.didEscapeEscapeChar);
  }

  /** The last-character close at a closing quote, quoting still on, yields the quoted text. */
  lemma QuotedLastText(dsv: string, o: Options, t: Scanner, w: string)
    requires t.escaping && QuotedAt(dsv, o.escapeChar, t.lastDelimiter, w)
    requires t.index == t.lastDelimiter + |Double(w, o.escapeChar)| + 1 == |dsv| - 1
    requires !IsLineFeedChar(o.escapeChar)
    requires !t.didEscapeEscapeChar ==> o.escapeChar !in w
    ensures LastSlice(dsv, o, t).Ok?
    ensures FieldText(dsv, o.escapeChar, LastSlice(dsv, o, t).value) == w
  {
    LastSliceInside(dsv, o, t, |Double(w, o.escapeChar)|);
    QuotedInteriorText(dsv, o.escapeChar, t.lastDelimiter, w, t.didEscapeEscapeChar);
  }

  /**
   * With quoting off at the last character and a final line break, the
   * slice runs from the field start over the quotes up to the line break.
   */
  lemma QuotesKeptText(dsv: string, o: Options, t: Scanner, w: string)
    requires !t.escaping && !t.didEscapeEscapeChar && t.index == |dsv| - 1
    requires o.escapeChar !in w && QuotedAt(dsv, o.escapeChar, t.lastDelimiter, w)
    requires t.lastDelimiter + |w| + 4 == |dsv|
    requires IsLineFeedChar(dsv[|dsv| - 2]) && IsLineFeedChar(dsv[|dsv| - 1])
    ensures LastSlice(dsv, o, t).Ok?
    ensures FieldText(dsv, o.escapeChar, LastSlice(dsv, o, t).value) == [o.escapeChar] + w + [o.escapeChar]
  {
    var e := o.escapeChar;
    var p := t.lastDelimiter;
    DoubleWithoutEscape(w, e);
    assert CheckLineFeed(dsv, |dsv|) == Ok(true);
    assert LastSlice(dsv, o, t) == TakeField(dsv, p, |w| + 2, false);
    FramedSpan(dsv, e, p, w);
  }
}
