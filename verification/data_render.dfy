/**
 * What `DsvData` reads back from text it could have been handed: rows of
 * plain fields (no delimiter, no escape character, no line-break
 * character), the fields of a row joined by the delimiter, every row
 * followed by the line break. On such text of at least two rows, with no
 * known column or row count, the splitter returns the rows as written:
 * the first as the headers when there are headers.
 */
module DsvDataRender {
  import opened Outcomes
  import opened DsvData

  /** The fields of one row, joined by the delimiter. */
  function JoinFields(fs: seq<string>, d: char): string
    requires 1 <= |fs|
  {
    if |fs| == 1 then fs[0] else fs[0] + [d] + JoinFields(fs[1..], d)
  }

  /** A row as the options write it. */
  function Joined(o: Options, fs: seq<string>): string
    requires 1 <= |fs|
  {
    JoinFields(fs, o.delimiter)
  }

  /** Rows as the options write them. */
  function Written(o: Options, rs: seq<seq<string>>): string
    requires HasFields(rs)
  {
    Render(rs, o.delimiter, o.lineBreak)
  }

  /** Every row has at least one field. */
  predicate HasFields(rs: seq<seq<string>>)
  {
    forall k :: 0 <= k < |rs| ==> 1 <= |rs[k]|
  }

  /** The rows as text: each row followed by the line break. */
  function Render(rs: seq<seq<string>>, d: char, lb: string): string
    requires HasFields(rs)
  {
    if |rs| == 0 then [] else JoinFields(rs[0], d) + lb + Render(rs[1..], d, lb)
  }

  /** The cells a row of strings becomes. */
  function Texts(fs: seq<string>): (r: seq<Cell>)
    ensures |r| == |fs| && forall t :: 0 <= t < |fs| ==> r[t] == Text(fs[t])
  {
    seq(|fs|, t requires 0 <= t < |fs| => Text(fs[t]))
  }

  function TextRows(rs: seq<seq<string>>): (r: seq<seq<Cell>>)
    ensures |r| == |rs| && forall k :: 0 <= k < |rs| ==> r[k] == Texts(rs[k])
  {
    seq(|rs|, k requires 0 <= k < |rs| => Texts(rs[k]))
  }

  /** Options the splitter reads such text with: a non-empty line break free of the delimiter and the escape character. */
  predicate PlainOptions(o: Options)
  {
    && 1 <= |o.lineBreak|
    && o.delimiter !in o.lineBreak
    && o.escapeChar !in o.lineBreak
    && o.knownColumns == 0
    && o.knownRows == 0
  }

  /** A character that may appear in a field. */
  predicate PlainChar(o: Options, c: char)
  {
    c != o.delimiter && c != o.escapeChar && c !in o.lineBreak
  }

  predicate PlainField(o: Options, x: string)
  {
    forall t :: 0 <= t < |x| ==> PlainChar(o, x[t])
  }

  /** Rows the splitter reads back: all as wide as the first, plain fields, a non-empty first field. */
  predicate Writable(o: Options, rs: seq<seq<string>>)
  {
    && 1 <= |rs|
    && forall k :: 0 <= k < |rs| ==>
         && 1 <= |rs[k]| == |rs[0]| && 1 <= |rs[k][0]|
         && forall j :: 0 <= j < |rs[k]| ==> PlainField(o, rs[k][j])
  }

  /** A character of a rendered row: a field character or the delimiter. */
  predicate LineChar(o: Options, c: char)
  {
    c !in o.lineBreak && !OpensEscape(o, c)
  }

  // ---------------------------------------------------------------------
  // Text layout
  // ---------------------------------------------------------------------

  lemma SplitAt(dsv: string, b: nat, x: string, y: string)
    requires b + |x| + |y| <= |dsv| && dsv[b..b + |x| + |y|] == x + y
    ensures dsv[b..b + |x|] == x && dsv[b + |x|..b + |x| + |y|] == y
  {
    assert dsv[b..b + |x|] == dsv[b..b + |x| + |y|][..|x|];
    assert dsv[b + |x|..b + |x| + |y|] == dsv[b..b + |x| + |y|][|x|..];
  }

  lemma CharsAt(dsv: string, b: nat, x: string, k: nat)
    requires b + |x| <= |dsv| && dsv[b..b + |x|] == x && b <= k < b + |x|
    ensures dsv[k] == x[k - b]
  {
    assert dsv[b..b + |x|][k - b] == dsv[k];
  }

  /** A rendered row is made of field characters and delimiters, and starts with its first field. */
  lemma {:induction false} JoinFieldsChars(o: Options, fs: seq<string>)
    requires PlainOptions(o) && 1 <= |fs| && forall j :: 0 <= j < |fs| ==> PlainField(o, fs[j])
    ensures var J := Joined(o, fs);
            && |fs[0]| <= |J| && J[..|fs[0]|] == fs[0]
            && forall t :: 0 <= t < |J| ==> LineChar(o, J[t])
    decreases |fs|
  {
    var J := Joined(o, fs);
    if |fs| == 1 {
      assert J[..|fs[0]|] == fs[0];
    } else {
      JoinFieldsChars(o, fs[1..]);
      var rest := Joined(o, fs[1..]);
      assert J == fs[0] + [o.delimiter] + rest;
      assert J[..|fs[0]|] == fs[0];
      forall t | 0 <= t < |J|
        ensures LineChar(o, J[t])
      {
        if t < |fs[0]| {
          assert J[t] == fs[0][t];
        } else if t == |fs[0]| {
          assert J[t] == o.delimiter;
        } else {
          assert J[t] == rest[t - |fs[0]| - 1];
        }
      }
    }
  }

  lemma {:induction false} CountOfAppend(a: string, b: string, x: char)
    ensures CountOf(a + b, x) == CountOf(a, x) + CountOf(b, x)
    decreases |a|
  {
    if |a| > 0 {
      assert (a + b)[1..] == a[1..] + b;
      CountOfAppend(a[1..], b, x);
    } else {
      assert a + b == b;
    }
  }

  lemma {:induction false} CountOfAbsent(s: string, x: char)
    requires forall t :: 0 <= t < |s| ==> s[t] != x
    ensures CountOf(s, x) == 0
    decreases |s|
  {
    if |s| > 0 {
      CountOfAbsent(s[1..], x);
    }
  }

  /** A rendered row holds one delimiter fewer than it has fields. */
  lemma {:induction false} JoinFieldsDelimiters(o: Options, fs: seq<string>)
    requires 1 <= |fs| && forall j :: 0 <= j < |fs| ==> PlainField(o, fs[j])
    ensures CountOf(Joined(o, fs), o.delimiter) == |fs| - 1
    decreases |fs|
  {
    CountOfAbsent(fs[0], o.delimiter);
    if |fs| > 1 {
      JoinFieldsDelimiters(o, fs[1..]);
      CountOfAppend(fs[0], [o.delimiter], o.delimiter);
      CountOfAppend(fs[0] + [o.delimiter], Joined(o, fs[1..]), o.delimiter);
    }
  }

  /** The window before `k` holds a character that is not in the line break: no line break ends at `k`. */
  lemma NoLineBreakBefore(dsv: string, lb: string, k: nat, m: nat)
    requires m < k <= |dsv| && k <= m + |lb| && dsv[m] !in lb
    ensures !CheckLineFeed(dsv, lb, k)
  {
  }

  // ---------------------------------------------------------------------
  // The second pass over rendered text
  // ---------------------------------------------------------------------

  /** A character the second pass passes over: not the delimiter, not the last, not just after a line break. */
  predicate Quiet(dsv: string, o: Options, k: nat)
  {
    k + 1 < |dsv| && dsv[k] != o.delimiter && !CheckLineFeed(dsv, o.lineBreak, k)
  }

  /**
   * The step at `k` from state `g`. The facts below about a step function
   * are tied to this name, so a proof brings in just the steps it names.
   */
  ghost predicate StepAt(k: nat, g: Fill)
  {
    true
  }

  ghost predicate Passes(dsv: string, o: Options, st: (nat, Fill) -> Result<Fill>)
  {
    forall k: nat, g: Fill {:trigger StepAt(k, g)} :: Quiet(dsv, o, k) ==> st(k, g) == Ok(g)
  }

  /** The state after a delimiter at `c`: the field since the last delimiter is cut. */
  function Cut(dsv: string, c: nat, g: Fill): Fill
    requires g.lastDelimiter <= c <= |dsv| && g.columnCount < |g.row|
  {
    g.(row := g.row[g.columnCount := Text(dsv[g.lastDelimiter..c])], columnCount := g.columnCount + 1,
       lastDelimiter := c + 1)
  }

  ghost predicate Cuts(dsv: string, o: Options, st: (nat, Fill) -> Result<Fill>)
  {
    forall c: nat, g: Fill {:trigger StepAt(c, g)} :: c < |dsv| && dsv[c] == o.delimiter && g.lastDelimiter <= c && g.columnCount < |g.row| ==>
      st(c, g) == Ok(Cut(dsv, c, g))
  }

  /** The state at `q`, just after a line break: `row` is stored, or becomes the headers, and a new row begins. */
  function Stores(o: Options, cols: nat, q: nat, g: Fill, row: seq<Cell>): Fill
    requires g.rowCount <= |g.rows|
  {
    var rows := ExpandRowAllocation(g.rows, g.rowCount);
    var next := g.(row := Nulls(cols), lastDelimiter := q, columnCount := 0, rows := rows);
    if o.hasHeaders && !g.headersFilled then next.(headers := row, headersFilled := true)
    else next.(rows := rows[g.rowCount := row], rowCount := g.rowCount + 1)
  }

  ghost predicate Breaks(dsv: string, o: Options, cols: nat, st: (nat, Fill) -> Result<Fill>)
  {
    forall q: nat, g: Fill {:trigger StepAt(q, g)} ::
      && q + 1 < |dsv| && dsv[q] != o.delimiter && CheckLineFeed(dsv, o.lineBreak, q)
      && g.columnCount < |g.row| && g.lastDelimiter + |o.lineBreak| <= q && g.rowCount <= |g.rows|
      ==> st(q, g) == Ok(Stores(o, cols, q, g, g.row[g.columnCount := Text(dsv[g.lastDelimiter..q - |o.lineBreak|])]))
  }

  /** The state after the last character: `row` is stored. */
  function Ended(g: Fill, row: seq<Cell>): Fill
    requires g.rowCount < |g.rows|
  {
    g.(row := row, rows := g.rows[g.rowCount := row], rowCount := g.rowCount + 1)
  }

  ghost predicate Ends(dsv: string, o: Options, st: (nat, Fill) -> Result<Fill>)
  {
    forall g: Fill {:trigger StepAt(|dsv| - 1, g)} ::
      && 1 <= |dsv| && dsv[|dsv| - 1] != o.delimiter
      && g.columnCount < |g.row| && g.lastDelimiter + |o.lineBreak| <= |dsv| && g.rowCount < |g.rows|
      ==> st(|dsv| - 1, g) == Ok(Ended(g, g.row[g.columnCount := Text(dsv[g.lastDelimiter..|dsv| - |o.lineBreak|])]))
  }

  /**
   * What the second pass's step does on rendered text, stated of any step
   * function `st`: it passes over quiet characters, cuts a field at a
   * delimiter, stores a row just after a line break and the last row at the
   * last character.
   */
  ghost predicate Scans(dsv: string, o: Options, cols: nat, st: (nat, Fill) -> Result<Fill>)
  {
    Passes(dsv, o, st) && Cuts(dsv, o, st) && Breaks(dsv, o, cols, st) && Ends(dsv, o, st)
  }

  /** The second pass, with the row bounds checked, behaves so on any text. */
  lemma StepsScan(dsv: string, o: Options, cols: nat)
    ensures Scans(dsv, o, cols, Steps(dsv, o, cols, true))
  {
    StepsPass(dsv, o, cols);
    StepsCut(dsv, o, cols);
    StepsBreak(dsv, o, cols);
    StepsEnd(dsv, o, cols);
  }

  lemma StepsPass(dsv: string, o: Options, cols: nat)
    ensures Passes(dsv, o, Steps(dsv, o, cols, true))
  {
    var st := Steps(dsv, o, cols, true);
    forall k: nat, g: Fill | Quiet(dsv, o, k)
      ensures st(k, g) == Ok(g)
    {
      assert st(k, g) == Step(dsv, o, cols, true, k, g);
    }
  }

  lemma StepsCut(dsv: string, o: Options, cols: nat)
    ensures Cuts(dsv, o, Steps(dsv, o, cols, true))
  {
    var st := Steps(dsv, o, cols, true);
    forall c: nat, g: Fill | c < |dsv| && dsv[c] == o.delimiter && g.lastDelimiter <= c && g.columnCount < |g.row|
      ensures st(c, g) == Ok(Cut(dsv, c, g))
    {
      assert st(c, g) == Step(dsv, o, cols, true, c, g);
    }
  }

  lemma StepsBreak(dsv: string, o: Options, cols: nat)
    ensures Breaks(dsv, o, cols, Steps(dsv, o, cols, true))
  {
    var st := Steps(dsv, o, cols, true);
    forall q: nat, g: Fill | && q + 1 < |dsv| && dsv[q] != o.delimiter && CheckLineFeed(dsv, o.lineBreak, q)
                  && g.columnCount < |g.row| && g.lastDelimiter + |o.lineBreak| <= q && g.rowCount <= |g.rows|
      ensures st(q, g) == Ok(Stores(o, cols, q, g, g.row[g.columnCount := Text(dsv[g.lastDelimiter..q - |o.lineBreak|])]))
    {
      assert st(q, g) == Step(dsv, o, cols, true, q, g);
    }
  }

  lemma StepsEnd(dsv: string, o: Options, cols: nat)
    ensures Ends(dsv, o, Steps(dsv, o, cols, true))
  {
    var st := Steps(dsv, o, cols, true);
    forall g: Fill | && 1 <= |dsv| && dsv[|dsv| - 1] != o.delimiter
               && g.columnCount < |g.row| && g.lastDelimiter + |o.lineBreak| <= |dsv| && g.rowCount < |g.rows|
      ensures st(|dsv| - 1, g) == Ok(Ended(g, g.row[g.columnCount := Text(dsv[g.lastDelimiter..|dsv| - |o.lineBreak|])]))
    {
      assert st(|dsv| - 1, g) == Step(dsv, o, cols, true, |dsv| - 1, g);
    }
  }

  /** The second pass's loop over a step function `st`, from `i` to `n`. */
  function SecondPass(st: (nat, Fill) -> Result<Fill>, n: nat, i: nat, f: Fill): Result<Fill>
  {
    RunWith(st, n, i, f)
  }

  /** From `a` with state `f` the loop ends as from `b` with state `g`. */
  ghost predicate Reaches(st: (nat, Fill) -> Result<Fill>, n: nat, a: nat, f: Fill, b: nat, g: Fill)
  {
    RunWith(st, n, a, f) == RunWith(st, n, b, g)
  }

  lemma {:induction false} QuietSkip(dsv: string, o: Options, st: (nat, Fill) -> Result<Fill>, a: nat, b: nat, f: Fill)
    requires Passes(dsv, o, st)
    requires a <= b && forall k :: a <= k < b ==> Quiet(dsv, o, k)
    ensures Reaches(st, |dsv|, a, f, b, f)
    decreases b - a
  {
    if a < b {
      assert Quiet(dsv, o, a) && StepAt(a, f);
      QuietSkip(dsv, o, st, a + 1, b, f);
    }
  }

  /** The cells of a row whose first `j` fields were cut. */
  function Partial(fs: seq<string>, j: nat, cols: nat): (r: seq<Cell>)
    requires j <= |fs| && j <= cols
  {
    Texts(fs[..j]) + Nulls(cols - j)
  }

  lemma PartialNext(fs: seq<string>, j: nat, cols: nat)
    requires j < |fs| && j < cols
    ensures Partial(fs, j, cols)[j := Text(fs[j])] == Partial(fs, j + 1, cols)
  {
    var a := Partial(fs, j, cols)[j := Text(fs[j])];
    var b := Partial(fs, j + 1, cols);
    assert |a| == |b|;
    forall t | 0 <= t < |a|
      ensures a[t] == b[t]
    {
      if t < j {
        assert a[t] == Texts(fs[..j])[t] == Text(fs[t]);
      }
    }
  }

  lemma PartialFirst(fs: seq<string>, cols: nat)
    ensures Partial(fs, 0, cols) == Nulls(cols)
  {
    assert fs[..0] == [];
  }

  lemma PartialFull(fs: seq<string>)
    requires 1 <= |fs|
    ensures Partial(fs, |fs| - 1, |fs|)[|fs| - 1 := Text(fs[|fs| - 1])] == Texts(fs)
  {
    PartialNext(fs, |fs| - 1, |fs|);
    assert fs[..|fs|] == fs;
  }

  /** The positions of field `j` on are quiet up to the field's end, and delimiters cut the fields before the last. */
  lemma FieldQuiet(dsv: string, o: Options, x: string, b: nat, s: nat)
    requires PlainOptions(o) && PlainField(o, x)
    requires b + |x| < |dsv| && dsv[b..b + |x|] == x
    requires b <= s && (s == b ==> 1 <= b && dsv[b - 1] == o.delimiter)
    ensures forall k :: s <= k < b + |x| ==> Quiet(dsv, o, k)
  {
    forall k | s <= k < b + |x|
      ensures Quiet(dsv, o, k)
    {
      CharsAt(dsv, b, x, k);
      if k == b {
        NoLineBreakBefore(dsv, o.lineBreak, k, k - 1);
      } else {
        CharsAt(dsv, b, x, k - 1);
        NoLineBreakBefore(dsv, o.lineBreak, k, k - 1);
      }
    }
  }

  /** Where field `j` of a row ends, and what follows it: the delimiter and the later fields, or nothing. */
  lemma FieldLayout(dsv: string, o: Options, fs: seq<string>, j: nat, b: nat, e: nat)
    requires j < |fs| && e == b + |Joined(o, fs[j..])| <= |dsv|
    requires dsv[b..e] == Joined(o, fs[j..])
    ensures var c := b + |fs[j]|;
            && c <= e && dsv[b..c] == fs[j]
            && (j == |fs| - 1 ==> c == e)
            && (j < |fs| - 1 ==> && c < e && dsv[c] == o.delimiter
                                 && e == c + 1 + |Joined(o, fs[j + 1..])|
                                 && dsv[c + 1..e] == Joined(o, fs[j + 1..]))
  {
    var J := Joined(o, fs[j..]);
    var c := b + |fs[j]|;
    if j == |fs| - 1 {
      assert J == fs[j];
    } else {
      assert fs[j..][1..] == fs[j + 1..];
      var rest := Joined(o, fs[j + 1..]);
      assert J == fs[j] + [o.delimiter] + rest;
      assert dsv[b..c] == J[..|fs[j]|];
      assert dsv[c] == J[|fs[j]|];
      assert dsv[c + 1..e] == J[|fs[j]| + 1..];
    }
  }

  /** Fields `j` on of the row `fs` are written from `b` to `e`, and a character follows. */
  ghost predicate FieldsAt(dsv: string, o: Options, fs: seq<string>, j: nat, b: nat, e: nat)
  {
    && PlainOptions(o) && j < |fs|
    && (forall t :: 0 <= t < |fs| ==> PlainField(o, fs[t]))
    && e == b + |Joined(o, fs[j..])| < |dsv|
    && dsv[b..e] == Joined(o, fs[j..])
  }

  /**
   * Field `j` ends at `b + |fs[j]|`; the characters before that end, from
   * the one after the field's start on, are quiet; then comes the row's end
   * or a delimiter and the remaining fields.
   */
  lemma FieldFacts(dsv: string, o: Options, fs: seq<string>, j: nat, b: nat, e: nat, s: nat)
    requires FieldsAt(dsv, o, fs, j, b, e)
    requires b <= s <= b + |fs[j]| && (s == b ==> 1 <= b && dsv[b - 1] == o.delimiter)
    ensures b + |fs[j]| <= e && dsv[b..b + |fs[j]|] == fs[j]
    ensures forall k :: s <= k < b + |fs[j]| ==> Quiet(dsv, o, k)
    ensures j == |fs| - 1 ==> b + |fs[j]| == e
    ensures j < |fs| - 1 ==> && b + |fs[j]| < e && dsv[b + |fs[j]|] == o.delimiter
                             && FieldsAt(dsv, o, fs, j + 1, b + |fs[j]| + 1, e)
  {
    FieldLayout(dsv, o, fs, j, b, e);
    FieldQuiet(dsv, o, fs[j], b, s);
  }

  /** The state once the last of the fields `fs` was begun at `e` less its length. */
  function Begun(f: Fill, e: nat, fs: seq<string>): Fill
    requires 1 <= |fs| && |fs[|fs| - 1]| <= e
  {
    f.(lastDelimiter := e - |fs[|fs| - 1]|, columnCount := |fs| - 1, row := Partial(fs, |fs| - 1, |fs|))
  }

  /** The delimiter after field `j` stores that field and starts the next one. */
  lemma FieldCut(dsv: string, o: Options, st: (nat, Fill) -> Result<Fill>, fs: seq<string>, j: nat, c: nat, f: Fill)
    requires Cuts(dsv, o, st)
    requires j + 1 < |fs| && c < |dsv| && dsv[c] == o.delimiter
    requires f.lastDelimiter <= c && dsv[f.lastDelimiter..c] == fs[j]
    requires f.columnCount == j && f.row == Partial(fs, j, |fs|)
    ensures Reaches(st, |dsv|, c, f, c + 1, f.(row := Partial(fs, j + 1, |fs|), columnCount := j + 1, lastDelimiter := c + 1))
  {
    PartialNext(fs, j, |fs|);
    assert StepAt(c, f);
  }

  /**
   * Over the fields of a row from field `j` on, the second pass cuts each
   * field but the last at its delimiter and reaches the row's end with the
   * last field begun.
   */
  lemma {:induction false} FieldsRun(dsv: string, o: Options, st: (nat, Fill) -> Result<Fill>,
                                     fs: seq<string>, j: nat, b: nat, e: nat, s: nat, f: Fill)
    requires Passes(dsv, o, st) && Cuts(dsv, o, st)
    requires FieldsAt(dsv, o, fs, j, b, e)
    requires b <= s <= b + |fs[j]| && (s == b ==> 1 <= b && dsv[b - 1] == o.delimiter)
    requires f.lastDelimiter == b && f.columnCount == j && f.row == Partial(fs, j, |fs|)
    ensures |fs[|fs| - 1]| <= e && dsv[e - |fs[|fs| - 1]|..e] == fs[|fs| - 1]
    ensures Reaches(st, |dsv|, s, f, e, Begun(f, e, fs))
    decreases |fs| - j
  {
    FieldFacts(dsv, o, fs, j, b, e, s);
    var c := b + |fs[j]|;
    QuietSkip(dsv, o, st, s, c, f);
    if j < |fs| - 1 {
      var g := f.(row := Partial(fs, j + 1, |fs|), columnCount := j + 1, lastDelimiter := c + 1);
      FieldCut(dsv, o, st, fs, j, c, f);
      FieldsRun(dsv, o, st, fs, j + 1, c + 1, e, c + 1, g);
      assert Begun(g, e, fs) == Begun(f, e, fs);
    } else {
      assert Begun(f, e, fs) == f;
    }
  }

  /** The line break after a row is passed over up to its last character. */
  lemma BreakQuiet(dsv: string, o: Options, e: nat, J: string)
    requires PlainOptions(o) && e + |o.lineBreak| <= |dsv|
    requires 1 <= |J| <= e && dsv[e - |J|..e] == J
    requires forall t :: 0 <= t < |J| ==> LineChar(o, J[t])
    requires dsv[e..e + |o.lineBreak|] == o.lineBreak
    ensures forall k :: e <= k < e + |o.lineBreak| && k + 1 < |dsv| ==> Quiet(dsv, o, k)
  {
    var lb := o.lineBreak;
    CharsAt(dsv, e - |J|, J, e - 1);
    forall k | e <= k < e + |lb| && k + 1 < |dsv|
      ensures Quiet(dsv, o, k)
    {
      CharsAt(dsv, e, lb, k);
      NoLineBreakBefore(dsv, lb, k, e - 1);
    }
  }

  /** Where the rows the second pass has stored go, and what the headers are, once `rs` is read. */
  function Stored(o: Options, headersFilled: bool, rs: seq<seq<string>>): seq<seq<Cell>>
    requires 1 <= |rs|
  {
    if o.hasHeaders && !headersFilled then TextRows(rs[1..]) else TextRows(rs)
  }

  function HeadersAfter(o: Options, f: Fill, rs: seq<seq<string>>): seq<Cell>
    requires 1 <= |rs|
  {
    if o.hasHeaders && !f.headersFilled then Texts(rs[0]) else f.headers
  }

  /** Where the text of the first of the rows written from `p` ends, and where the next row starts. */
  function RowEnd(o: Options, p: nat, rs: seq<seq<string>>): nat
    requires 1 <= |rs| && 1 <= |rs[0]|
  {
    p + |Joined(o, rs[0])|
  }

  function NextRow(o: Options, p: nat, rs: seq<seq<string>>): nat
    requires 1 <= |rs| && 1 <= |rs[0]|
  {
    RowEnd(o, p, rs) + |o.lineBreak|
  }

  /** The rows `rs` are written from `p` to the end of the text. */
  ghost predicate RowsAt(dsv: string, o: Options, p: nat, rs: seq<seq<string>>)
  {
    && PlainOptions(o) && Writable(o, rs)
    && p + |Written(o, rs)| == |dsv| && dsv[p..] == Written(o, rs)
  }

  /**
   * The first of the rows written from `p`: its fields, then the quiet
   * line break, then the next row, whose first character is just after a
   * line break, or the end of the text.
   */
  lemma RowFacts(dsv: string, o: Options, p: nat, rs: seq<seq<string>>)
    requires RowsAt(dsv, o, p, rs)
    ensures FieldsAt(dsv, o, rs[0], 0, p, RowEnd(o, p, rs)) && 1 <= |rs[0][0]|
    ensures NextRow(o, p, rs) == RowEnd(o, p, rs) + |o.lineBreak| <= |dsv|
    ensures forall k :: RowEnd(o, p, rs) <= k < NextRow(o, p, rs) && k + 1 < |dsv| ==> Quiet(dsv, o, k)
    ensures |rs| == 1 ==> NextRow(o, p, rs) == |dsv| && dsv[|dsv| - 1] != o.delimiter
    ensures 2 <= |rs| ==> && RowsAt(dsv, o, NextRow(o, p, rs), rs[1..])
                          && NextRow(o, p, rs) + 1 < |dsv| && PlainChar(o, dsv[NextRow(o, p, rs)])
                          && CheckLineFeed(dsv, o.lineBreak, NextRow(o, p, rs))
  {
    RowHeadFacts(dsv, o, p, rs);
    if 2 <= |rs| {
      RowTailFacts(dsv, o, p, rs);
    }
  }

  /** The row's own text: its fields, then a line break in which the pass stays quiet. */
  lemma RowHeadFacts(dsv: string, o: Options, p: nat, rs: seq<seq<string>>)
    requires RowsAt(dsv, o, p, rs)
    ensures FieldsAt(dsv, o, rs[0], 0, p, RowEnd(o, p, rs)) && 1 <= |rs[0][0]|
    ensures NextRow(o, p, rs) == RowEnd(o, p, rs) + |o.lineBreak| <= |dsv|
    ensures forall k :: RowEnd(o, p, rs) <= k < NextRow(o, p, rs) && k + 1 < |dsv| ==> Quiet(dsv, o, k)
    ensures |rs| == 1 ==> NextRow(o, p, rs) == |dsv| && dsv[|dsv| - 1] != o.delimiter
  {
    var lb := o.lineBreak;
    var J := Joined(o, rs[0]);
    var e := RowEnd(o, p, rs);
    var q := NextRow(o, p, rs);
    RowLayout(dsv, o, p, rs);
    assert rs[0][0..] == rs[0];
    BreakQuiet(dsv, o, e, J);
    CharsAt(dsv, e, lb, q - 1);
  }

  /** After a row that is not the last, the next row starts with a field character right after a line break. */
  lemma RowTailFacts(dsv: string, o: Options, p: nat, rs: seq<seq<string>>)
    requires RowsAt(dsv, o, p, rs) && 2 <= |rs|
    ensures && RowsAt(dsv, o, NextRow(o, p, rs), rs[1..])
            && NextRow(o, p, rs) + 1 < |dsv| && PlainChar(o, dsv[NextRow(o, p, rs)])
            && CheckLineFeed(dsv, o.lineBreak, NextRow(o, p, rs))
  {
    var q := NextRow(o, p, rs);
    RowLayout(dsv, o, p, rs);
    WritableTail(o, rs);
    RowStart(dsv, o, q, rs[1..]);
    assert dsv[q - |o.lineBreak|..q] == o.lineBreak;
  }

  /** Rows written from `p` start with a field character that is not the last one. */
  lemma RowStart(dsv: string, o: Options, p: nat, rs: seq<seq<string>>)
    requires PlainOptions(o) && Writable(o, rs)
    requires p + |Written(o, rs)| == |dsv| && dsv[p..] == Written(o, rs)
    ensures p + 1 < |dsv| && PlainChar(o, dsv[p])
  {
    RowLayout(dsv, o, p, rs);
    CharsAt(dsv, p, rs[0][0], p);
  }

  /** The rows after the first are written as the rows themselves are. */
  lemma WritableTail(o: Options, rs: seq<seq<string>>)
    requires Writable(o, rs) && 2 <= |rs|
    ensures Writable(o, rs[1..]) && |rs[1]| == |rs[0]|
  {
    assert forall k :: 0 <= k < |rs| - 1 ==> rs[1..][k] == rs[k + 1];
  }

  /** A row's text starts at `p`: the joined fields, then the line break, then the remaining rows. */
  lemma RowLayout(dsv: string, o: Options, p: nat, rs: seq<seq<string>>)
    requires PlainOptions(o) && Writable(o, rs)
    requires p + |Written(o, rs)| == |dsv| && dsv[p..] == Written(o, rs)
    ensures RowEnd(o, p, rs) == p + |Joined(o, rs[0])| && NextRow(o, p, rs) == RowEnd(o, p, rs) + |o.lineBreak|
    ensures |rs[0][0]| <= |Joined(o, rs[0])| && dsv[p..p + |rs[0][0]|] == rs[0][0]
    ensures forall t :: 0 <= t < |Joined(o, rs[0])| ==> LineChar(o, Joined(o, rs[0])[t])
    ensures NextRow(o, p, rs) <= |dsv|
    ensures dsv[p..RowEnd(o, p, rs)] == Joined(o, rs[0])
    ensures dsv[RowEnd(o, p, rs)..NextRow(o, p, rs)] == o.lineBreak
    ensures dsv[NextRow(o, p, rs)..] == Written(o, rs[1..])
  {
    var d, lb := o.delimiter, o.lineBreak;
    var J := Joined(o, rs[0]);
    var R := Written(o, rs[1..]);
    assert HasFields(rs[1..]);
    JoinFieldsChars(o, rs[0]);
    assert Written(o, rs) == J + lb + R;
    Layout3(dsv, p, J, lb, R);
    PrefixAt(dsv, p, J, |rs[0][0]|);
  }

  /** Text made of three parts, from `p` to the end, holds each part in place. */
  lemma Layout3(dsv: string, p: nat, x: string, y: string, z: string)
    requires p + |x + y + z| == |dsv| && dsv[p..] == x + y + z
    ensures && dsv[p..p + |x|] == x && dsv[p + |x|..p + |x| + |y|] == y
            && dsv[p + |x| + |y|..] == z
  {
    assert dsv[p..p + |x|] == (x + y + z)[..|x|];
    assert dsv[p + |x|..p + |x| + |y|] == (x + y + z)[|x|..|x| + |y|];
    assert dsv[p + |x| + |y|..] == (x + y + z)[|x| + |y|..];
  }

  lemma PrefixAt(dsv: string, p: nat, x: string, n: nat)
    requires p + |x| <= |dsv| && dsv[p..p + |x|] == x && n <= |x|
    ensures dsv[p..p + n] == x[..n]
  {
    assert dsv[p..p + n] == dsv[p..p + |x|][..n];
  }

  /** The last field of a row is the end of its text. */
  lemma {:induction false} JoinFieldsLast(o: Options, fs: seq<string>)
    requires 1 <= |fs|
    ensures |fs[|fs| - 1]| <= |Joined(o, fs)|
    decreases |fs|
  {
    if |fs| > 1 {
      JoinFieldsLast(o, fs[1..]);
    }
  }

  /** A row that is not the last: the second pass stores it at the character after its line break. */
  lemma MiddleRowRun(dsv: string, o: Options, st: (nat, Fill) -> Result<Fill>, p: nat, rs: seq<seq<string>>, f: Fill)
    requires RowsAt(dsv, o, p, rs) && 2 <= |rs|
    requires Passes(dsv, o, st) && Cuts(dsv, o, st) && Breaks(dsv, o, |rs[0]|, st)
    requires f.lastDelimiter == p && f.columnCount == 0 && f.row == Nulls(|rs[0]|) && f.rowCount <= |f.rows|
    ensures RowsAt(dsv, o, NextRow(o, p, rs), rs[1..]) && |rs[1]| == |rs[0]|
    ensures Reaches(st, |dsv|, p + 1, f, NextRow(o, p, rs) + 1, Stores(o, |rs[0]|, NextRow(o, p, rs), f, Texts(rs[0])))
  {
    var fs := rs[0];
    var e := RowEnd(o, p, rs);
    var q := NextRow(o, p, rs);
    RowFacts(dsv, o, p, rs);
    assert fs[0..] == fs;
    PartialFirst(fs, |fs|);
    FieldsRun(dsv, o, st, fs, 0, p, e, p + 1, f);
    var g := Begun(f, e, fs);
    QuietSkip(dsv, o, st, e, q, g);
    PartialFull(fs);
    assert g.row[|fs| - 1 := Text(dsv[g.lastDelimiter..q - |o.lineBreak|])] == Texts(fs);
    assert Stores(o, |fs|, q, g, Texts(fs)) == Stores(o, |fs|, q, f, Texts(fs));
    assert StepAt(q, g);
    assert Reaches(st, |dsv|, q, g, q + 1, Stores(o, |fs|, q, f, Texts(fs)));
  }

  /** The last row: the second pass stores it at the last character and ends. */
  lemma LastRowRun(dsv: string, o: Options, st: (nat, Fill) -> Result<Fill>, p: nat, rs: seq<seq<string>>, f: Fill)
    requires RowsAt(dsv, o, p, rs) && |rs| == 1
    requires Passes(dsv, o, st) && Cuts(dsv, o, st) && Ends(dsv, o, st)
    requires f.lastDelimiter == p && f.columnCount == 0 && f.row == Nulls(|rs[0]|) && f.rowCount < |f.rows|
    ensures var r := SecondPass(st, |dsv|, p + 1, f);
            && r.Ok? && r.value.rows == f.rows[f.rowCount := Texts(rs[0])]
            && r.value.rowCount == f.rowCount + 1 && r.value.headers == f.headers
  {
    var fs := rs[0];
    var e := RowEnd(o, p, rs);
    RowFacts(dsv, o, p, rs);
    assert fs[0..] == fs;
    PartialFirst(fs, |fs|);
    FieldsRun(dsv, o, st, fs, 0, p, e, p + 1, f);
    var g := Begun(f, e, fs);
    QuietSkip(dsv, o, st, e, |dsv| - 1, g);
    PartialFull(fs);
    assert g.row[|fs| - 1 := Text(dsv[g.lastDelimiter..|dsv| - |o.lineBreak|])] == Texts(fs);
    assert StepAt(|dsv| - 1, g);
    assert Reaches(st, |dsv|, |dsv| - 1, g, |dsv|, Ended(g, Texts(fs)));
  }

  /** `r` holds what `f` held and the rows `rs`, the first as the headers when they are still to come. */
  predicate Collected(o: Options, f: Fill, rs: seq<seq<string>>, r: Fill)
    requires 1 <= |rs| && f.rowCount <= |f.rows|
  {
    && r.rowCount <= |r.rows|
    && r.rows[..r.rowCount] == f.rows[..f.rowCount] + Stored(o, f.headersFilled, rs)
    && r.headers == HeadersAfter(o, f, rs)
  }

  /** Storing the last row collects it. */
  lemma EndCollects(o: Options, f: Fill, rs: seq<seq<string>>, r: Fill)
    requires |rs| == 1 && f.rowCount < |f.rows| && (f.headersFilled || !o.hasHeaders)
    requires r.rows == f.rows[f.rowCount := Texts(rs[0])] && r.rowCount == f.rowCount + 1 && r.headers == f.headers
    ensures Collected(o, f, rs, r)
  {
    assert r.rows[..r.rowCount] == f.rows[..f.rowCount] + [Texts(rs[0])];
    assert TextRows(rs) == [Texts(rs[0])];
  }

  /** The rows written from `p` are the first one followed by the rest. */
  lemma TextRowsCons(rs: seq<seq<string>>)
    requires 1 <= |rs|
    ensures TextRows(rs) == [Texts(rs[0])] + TextRows(rs[1..])
  {
  }

  /** Storing the first row as the headers, then collecting the rest, collects them all. */
  lemma HeaderCollects(o: Options, cols: nat, q: nat, f: Fill, rs: seq<seq<string>>, r: Fill)
    requires 2 <= |rs| && f.rowCount <= |f.rows| && o.hasHeaders && !f.headersFilled
    requires var h := Stores(o, cols, q, f, Texts(rs[0])); Collected(o, h, rs[1..], r)
    ensures Collected(o, f, rs, r)
  {
    var rows := ExpandRowAllocation(f.rows, f.rowCount);
    assert rows[..f.rowCount] == f.rows[..f.rowCount];
  }

  /** A row stored into the grown array follows the rows stored before it. */
  lemma ExpandStore(rows: seq<seq<Cell>>, rowCount: nat, row: seq<Cell>)
    requires rowCount <= |rows|
    ensures var e := ExpandRowAllocation(rows, rowCount);
            rowCount < |e| && e[rowCount := row][..rowCount + 1] == rows[..rowCount] + [row]
  {
    var e := ExpandRowAllocation(rows, rowCount);
    assert e[..rowCount] == e[..|rows|][..rowCount];
  }

  /** Rows collected after one more row follow that row. */
  lemma RowsAfterRow(o: Options, f: Fill, h: Fill, rs: seq<seq<string>>, r: Fill)
    requires 2 <= |rs| && f.rowCount <= |f.rows| && h.rowCount <= |h.rows| && !(o.hasHeaders && !f.headersFilled)
    requires h.rows[..h.rowCount] == f.rows[..f.rowCount] + [Texts(rs[0])]
    requires h.headersFilled == f.headersFilled
    requires Collected(o, h, rs[1..], r)
    ensures r.rows[..r.rowCount] == f.rows[..f.rowCount] + Stored(o, f.headersFilled, rs)
  {
    assert Stored(o, h.headersFilled, rs[1..]) == TextRows(rs[1..]);
    assert Stored(o, f.headersFilled, rs) == TextRows(rs);
    TextRowsCons(rs);
    Reassociate(r.rows[..r.rowCount], f.rows[..f.rowCount], [Texts(rs[0])], TextRows(rs[1..]));
  }

  /** Concatenation regroups. */
  lemma Reassociate<T>(x: seq<T>, a: seq<T>, b: seq<T>, c: seq<T>)
    requires x == (a + b) + c
    ensures x == a + (b + c)
  {
  }

  /** Any state that holds one more row than `f`, and the same headers, collects what it goes on to collect after that row. */
  lemma CollectsAfterRow(o: Options, f: Fill, h: Fill, rs: seq<seq<string>>, r: Fill)
    requires 2 <= |rs| && f.rowCount <= |f.rows| && h.rowCount <= |h.rows| && !(o.hasHeaders && !f.headersFilled)
    requires h.rows[..h.rowCount] == f.rows[..f.rowCount] + [Texts(rs[0])]
    requires h.headersFilled == f.headersFilled && h.headers == f.headers
    requires Collected(o, h, rs[1..], r)
    ensures Collected(o, f, rs, r)
  {
    RowsAfterRow(o, f, h, rs, r);
  }

  /** Storing the first row as a row, then collecting the rest, collects them all. */
  lemma RowCollects(o: Options, cols: nat, q: nat, f: Fill, rs: seq<seq<string>>, r: Fill)
    requires 2 <= |rs| && f.rowCount <= |f.rows| && !(o.hasHeaders && !f.headersFilled)
    requires var h := Stores(o, cols, q, f, Texts(rs[0])); Collected(o, h, rs[1..], r)
    ensures Collected(o, f, rs, r)
  {
    var h := Stores(o, cols, q, f, Texts(rs[0]));
    ExpandStore(f.rows, f.rowCount, Texts(rs[0]));
    CollectsAfterRow(o, f, h, rs, r);
  }

  /** Storing a row, then collecting the rest, collects them all. */
  lemma StoreCollects(o: Options, cols: nat, q: nat, f: Fill, rs: seq<seq<string>>, r: Fill)
    requires 2 <= |rs| && f.rowCount <= |f.rows|
    requires var h := Stores(o, cols, q, f, Texts(rs[0])); Collected(o, h, rs[1..], r)
    ensures Collected(o, f, rs, r)
  {
    if o.hasHeaders && !f.headersFilled {
      HeaderCollects(o, cols, q, f, rs, r);
    } else {
      RowCollects(o, cols, q, f, rs, r);
    }
  }

  /**
   * From the start of a row, with that row's first character read, the
   * second pass stores the remaining rows in order, the first of them as
   * the headers when there are headers and none were stored yet.
   */
  lemma {:induction false} RowsRun(dsv: string, o: Options, st: (nat, Fill) -> Result<Fill>, p: nat,
                                   rs: seq<seq<string>>, f: Fill)
    requires RowsAt(dsv, o, p, rs) && Scans(dsv, o, |rs[0]|, st)
    requires f.lastDelimiter == p && f.columnCount == 0 && f.row == Nulls(|rs[0]|) && f.rowCount <= |f.rows|
    requires |rs| == 1 ==> f.rowCount < |f.rows| && (f.headersFilled || !o.hasHeaders)
    ensures SecondPass(st, |dsv|, p + 1, f).Ok? && Collected(o, f, rs, SecondPass(st, |dsv|, p + 1, f).value)
    decreases |rs|
  {
    if |rs| == 1 {
      LastRowRun(dsv, o, st, p, rs, f);
      EndCollects(o, f, rs, SecondPass(st, |dsv|, p + 1, f).value);
    } else {
      MiddleRowRun(dsv, o, st, p, rs, f);
      var q := NextRow(o, p, rs);
      var h := Stores(o, |rs[0]|, q, f, Texts(rs[0]));
      RowsRun(dsv, o, st, q, rs[1..], h);
      StoreCollects(o, |rs[0]|, q, f, rs, SecondPass(st, |dsv|, q + 1, h).value);
    }
  }

  /** A written row and its line break hold one delimiter fewer than the row has fields. */
  lemma RowDelimiters(o: Options, fs: seq<string>)
    requires PlainOptions(o) && 1 <= |fs| && forall t :: 0 <= t < |fs| ==> PlainField(o, fs[t])
    ensures CountOf(Joined(o, fs) + o.lineBreak, o.delimiter) == |fs| - 1
  {
    JoinFieldsDelimiters(o, fs);
    CountOfAbsent(o.lineBreak, o.delimiter);
    CountOfAppend(Joined(o, fs), o.lineBreak, o.delimiter);
  }

  /** The second row's first character is the first one just after a line break. */
  lemma FirstLineEnds(dsv: string, o: Options, rs: seq<seq<string>>)
    requires RowsAt(dsv, o, 0, rs) && 2 <= |rs|
    ensures NextRow(o, 0, rs) < |dsv| && ClosesFirstLine(dsv, o, NextRow(o, 0, rs))
  {
    RowFacts(dsv, o, 0, rs);
  }

  /** Before the second row no escape is opened and no line break ends, and the text there is the first row. */
  lemma FirstLinePlain(dsv: string, o: Options, rs: seq<seq<string>>)
    requires RowsAt(dsv, o, 0, rs)
    ensures NextRow(o, 0, rs) <= |dsv| && Unescaped(dsv, o, NextRow(o, 0, rs))
    ensures forall j :: 0 <= j < NextRow(o, 0, rs) && j < |dsv| ==> !CheckLineFeed(dsv, o.lineBreak, j)
    ensures dsv[..NextRow(o, 0, rs)] == Joined(o, rs[0]) + o.lineBreak
  {
    var lb := o.lineBreak;
    var J := Joined(o, rs[0]);
    var e := RowEnd(o, 0, rs);
    var q := NextRow(o, 0, rs);
    RowLayout(dsv, o, 0, rs);
    assert dsv[..q] == J + lb by {
      assert dsv[..q] == dsv[0..e] + dsv[e..q];
    }
    forall j | 0 <= j < q
      ensures !OpensEscape(o, dsv[j])
    {
      if j < e {
        CharsAt(dsv, 0, J, j);
      } else {
        CharsAt(dsv, e, lb, j);
      }
    }
    forall j | 0 <= j < q && j < |dsv|
      ensures !CheckLineFeed(dsv, lb, j)
    {
      if 1 <= j <= e {
        CharsAt(dsv, 0, J, j - 1);
        NoLineBreakBefore(dsv, lb, j, j - 1);
      } else if e < j {
        CharsAt(dsv, 0, J, e - 1);
        NoLineBreakBefore(dsv, lb, j, e - 1);
      }
    }
  }

  /** On rendered text the first pass stops at the second row's first character, knowing the row width. */
  lemma FirstPassOnRendered(o: Options, rs: seq<seq<string>>)
    requires PlainOptions(o) && Writable(o, rs) && 2 <= |rs|
    ensures CountColumns(Written(o, rs), o, 0, 0, false) == Some(Shape(|rs[0]|, NextRow(o, 0, rs)))
  {
    var dsv := Written(o, rs);
    var q := NextRow(o, 0, rs);
    assert RowsAt(dsv, o, 0, rs) by {
      assert dsv[0..] == dsv;
    }
    FirstLineEnds(dsv, o, rs);
    FirstLinePlain(dsv, o, rs);
    assert FirstPassAt(dsv, o, 0, 0, false) by {
      assert dsv[..0] == [];
    }
    FirstPassMissesOnlyEscaped(dsv, o, 0, 0, false);
    FirstPassStopsAtFirstLine(dsv, o, 0, 0, false);
    RowDelimiters(o, rs[0]);
  }

  /**
   * A single written row gives an empty table: its only line break ends
   * the text, so the first pass finds no character after it and the
   * second pass never runs.
   */
  lemma SplitDropsSingleRow(o: Options, fs: seq<string>)
    requires PlainOptions(o) && Writable(o, [fs])
    ensures Split(Written(o, [fs]), o) == Ok(Table([], []))
  {
    var dsv := Written(o, [fs]);
    var lb := o.lineBreak;
    var J := Joined(o, fs);
    assert dsv == J + lb by {
      assert [fs][1..] == [];
      assert dsv == J + lb + Render([], o.delimiter, lb);
    }
    JoinFieldsChars(o, fs);
    assert FirstPassAt(dsv, o, 0, 0, false) by {
      assert dsv[..0] == [];
    }
    FirstPassStopsAtFirstLine(dsv, o, 0, 0, false);
    assert CountColumns(dsv, o, 0, 0, false).None?;
  }

  /**
   * `DsvData` reads rendered rows back: with headers, the first row is the
   * headers and the others the rows; without, the headers are null cells,
   * `Nulls(|rs[0]|)`, one per column, and every row is a row.
   */
  lemma SplitReadsRendered(o: Options, rs: seq<seq<string>>)
    requires PlainOptions(o) && Writable(o, rs) && 2 <= |rs|
    ensures Split(Written(o, rs), o)
              == Ok(if o.hasHeaders then Table(Texts(rs[0]), TextRows(rs[1..]))
                    else Table(Nulls(|rs[0]|), TextRows(rs)))
  {
    var dsv := Written(o, rs);
    var cols := |rs[0]|;
    FirstPassOnRendered(o, rs);
    var f := Fresh(o, cols);
    assert f.rows == [];
    assert dsv[0..] == dsv;
    var st := Steps(dsv, o, cols, true);
    StepsScan(dsv, o, cols);
    RowsRun(dsv, o, st, 0, rs, f);
    var r := SecondPass(st, |dsv|, 1, f);
    assert Run(dsv, o, cols, true, 1, f) == r;
    assert r.value.rows[..r.value.rowCount] == Stored(o, false, rs) by {
      assert f.rows[..f.rowCount] == [];
    }
  }
}
