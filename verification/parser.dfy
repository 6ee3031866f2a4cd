/**
 * The `DsvParser` constructor of DsvParser.cs: start a reader, and while
 * `MoveNext()` finds a field, read the row it begins with `ReadLine()`.
 * With headers the first row becomes the columns and every later row is
 * kept; without, every row is kept. An exception ends the parse.
 *
 * The source loop need not end: on an input of one character other than
 * the delimiter the reader never runs out of fields. The model bounds the
 * loop by a fuel argument and reports `Diverges` when it runs dry; the
 * lemmas show which inputs diverge for every fuel and that the fuel given
 * by `Parse` suffices for all others.
 */
module DsvParser {
  import opened Outcomes
  import opened DsvReader
  import opened DsvReaderLine
  import opened DsvReaderFields

  /** What constructing a `DsvParser` ends in. */
  datatype Outcome =
    | Parsed(columns: seq<Field>, rows: seq<seq<Field>>)
    | Raised(error: Failure)
    | Diverges

  /** One round of the loop: `MoveNext()`, then `ReadLine()` if it found a field. */
  datatype Round = Failed(error: Failure) | Exhausted | Row(line: Line)

  function NextRound(dsv: string, o: Options, s: Scanner): Round
  {
    match MoveNext(dsv, o, s)
    case Err(e) => Failed(e)
    case Ok(m) =>
      if !m.more then Exhausted
      else
        match ReadLine(dsv, o, m.next)
        case Err(e) => Failed(e)
        case Ok(line) => Row(line)
  }

  /** The reader's rounds on `dsv`, as a function of the reader state. */
  function Rounds(dsv: string, o: Options): Scanner -> Round
  {
    s => NextRound(dsv, o, s)
  }

  /** The `while (reader.MoveNext())` loop over rounds `step`, run for at most `fuel` rounds. */
  function Loop(step: Scanner -> Round, s: Scanner, fuel: nat, firstPass: bool,
                columns: seq<Field>, rows: seq<seq<Field>>): Outcome
    decreases fuel
  {
    if fuel == 0 then Diverges
    else
      match step(s)
      case Failed(e) => Raised(e)
      case Exhausted => Parsed(columns, rows)
      case Row(line) =>
        if firstPass then Loop(step, line.next, fuel - 1, false, line.fields, rows)
        else Loop(step, line.next, fuel - 1, false, columns, rows + [line.fields])
  }

  /** `new DsvParser(dsv, options)`: no columns and no rows until the loop fills them. */
  function Parse(dsv: string, o: Options): Outcome
  {
    Loop(Rounds(dsv, o), Start, |dsv| + 2, o.hasHeaders, [], [])
  }

  /** The rows the reader hands out, one per round, header or not. */
  datatype Lines = Read(lines: seq<seq<Field>>) | ReadFailed(error: Failure) | ReadForever

  /** Every row the rounds `step` yield from `s` on, within `fuel` rounds. */
  function AllLines(step: Scanner -> Round, s: Scanner, fuel: nat): Lines
    decreases fuel
  {
    if fuel == 0 then ReadForever
    else
      match step(s)
      case Failed(e) => ReadFailed(e)
      case Exhausted => Read([])
      case Row(line) =>
        match AllLines(step, line.next, fuel - 1)
        case Read(rest) => Read([line.fields] + rest)
        case other => other
  }

  /**
   * How the loop files the rows read: on the first pass the first of them
   * replaces the columns, and all others are appended to the rows in order.
   * A failure or a dry run of the reader is the loop's.
   */
  function Filed(read: Lines, firstPass: bool, columns: seq<Field>, rows: seq<seq<Field>>): Outcome
  {
    match read
    case Read(ls) =>
      if firstPass && |ls| > 0 then Parsed(ls[0], rows + ls[1..]) else Parsed(columns, rows + ls)
    case ReadFailed(e) => Raised(e)
    case ReadForever => Diverges
  }

  /** Past the first pass, the loop appends every row read to the rows. */
  lemma {:induction false} LoopAppendsLines(step: Scanner -> Round, s: Scanner, fuel: nat,
                                            columns: seq<Field>, rows: seq<seq<Field>>)
    ensures Loop(step, s, fuel, false, columns, rows) == Filed(AllLines(step, s, fuel), false, columns, rows)
    decreases fuel
  {
    if fuel > 0 && step(s).Row? {
      var line := step(s).line;
      LoopAppendsLines(step, line.next, fuel - 1, columns, rows + [line.fields]);
      var rest := AllLines(step, line.next, fuel - 1);
      if rest.Read? {
        assert rows + [line.fields] + rest.lines == rows + ([line.fields] + rest.lines);
      }
    }
  }

  /** The loop keeps the rows the reader hands out, the first as columns on the first pass. */
  lemma LoopKeepsLines(step: Scanner -> Round, s: Scanner, fuel: nat, firstPass: bool,
                       columns: seq<Field>, rows: seq<seq<Field>>)
    ensures Loop(step, s, fuel, firstPass, columns, rows) == Filed(AllLines(step, s, fuel), firstPass, columns, rows)
  {
    if !firstPass {
      LoopAppendsLines(step, s, fuel, columns, rows);
    } else if fuel > 0 && step(s).Row? {
      var line := step(s).line;
      LoopAppendsLines(step, line.next, fuel - 1, line.fields, rows);
      var rest := AllLines(step, line.next, fuel - 1);
      if rest.Read? {
        assert ([line.fields] + rest.lines)[1..] == rest.lines;
      }
    }
  }

  /**
   * What a parse yields: with headers the first row read is the columns
   * and the others the rows; without, no columns and every row read.
   */
  lemma ParseSplitsHeader(dsv: string, o: Options)
    ensures Parse(dsv, o) == Filed(AllLines(Rounds(dsv, o), Start, |dsv| + 2), o.hasHeaders, [], [])
  {
    LoopKeepsLines(Rounds(dsv, o), Start, |dsv| + 2, o.hasHeaders, [], []);
  }

  /** Past the first pass the loop ends, given fuel to last until every round moved the cursor past the end. */
  lemma {:induction false} LoopEnds(step: Scanner -> Round, bound: nat, s: Scanner, fuel: nat, firstPass: bool,
                                    columns: seq<Field>, rows: seq<seq<Field>>)
    requires forall t: Scanner :: 1 <= t.index && step(t).Row? ==> t.index < step(t).line.next.index && t.index + 2 <= bound
    requires 1 <= s.index && 1 <= fuel && bound + 1 <= fuel + s.index
    ensures Loop(step, s, fuel, firstPass, columns, rows) != Diverges
    decreases fuel
  {
    if step(s).Row? {
      var line := step(s).line;
      if firstPass {
        LoopEnds(step, bound, line.next, fuel - 1, false, line.fields, rows);
      } else {
        LoopEnds(step, bound, line.next, fuel - 1, false, columns, rows + [line.fields]);
      }
    }
  }

  /** A loop that ends does so whatever fuel beyond what it needed it is given. */
  lemma {:induction false} LoopFuelSuffices(step: Scanner -> Round, s: Scanner, fuel: nat, more: nat, firstPass: bool,
                                            columns: seq<Field>, rows: seq<seq<Field>>)
    requires Loop(step, s, fuel, firstPass, columns, rows) != Diverges
    ensures Loop(step, s, fuel + more, firstPass, columns, rows) == Loop(step, s, fuel, firstPass, columns, rows)
    decreases fuel
  {
    if step(s).Row? {
      var line := step(s).line;
      if firstPass {
        LoopFuelSuffices(step, line.next, fuel - 1, more, false, line.fields, rows);
      } else {
        LoopFuelSuffices(step, line.next, fuel - 1, more, false, columns, rows + [line.fields]);
      }
    }
  }

  /** Reader states on the cursor's first character with nothing quoted and the column count open. */
  predicate Looping(t: Scanner)
  {
    t.index == 0 && t.lastDelimiter == 0 && !t.escaping && !t.columnsFilled
  }

  /** Rounds that keep the reader in a `Looping` state never run dry: the loop runs out of fuel. */
  lemma {:induction false} LoopNeverEnds(step: Scanner -> Round, s: Scanner, fuel: nat, firstPass: bool,
                                         columns: seq<Field>, rows: seq<seq<Field>>)
    requires forall t: Scanner :: Looping(t) ==> step(t).Row? && Looping(step(t).line.next)
    requires Looping(s)
    ensures Loop(step, s, fuel, firstPass, columns, rows) == Diverges
    decreases fuel
  {
    if fuel > 0 {
      var line := step(s).line;
      if firstPass {
        LoopNeverEnds(step, line.next, fuel - 1, false, line.fields, rows);
      } else {
        LoopNeverEnds(step, line.next, fuel - 1, false, columns, rows + [line.fields]);
      }
    }
  }

  /** The input on which the reader hands out its only character as a new row forever. */
  predicate Endless(dsv: string, o: Options)
  {
    |dsv| == 1 && dsv[0] != o.delimiter
  }

  /**
   * On the endless input every round reads a row of two fields, each the
   * one character, and leaves the reader in the state it began in.
   */
  lemma EndlessRound(dsv: string, o: Options, s: Scanner)
    requires Endless(dsv, o) && Looping(s)
    ensures var r := NextRound(dsv, o, s);
            && r.Row? && Looping(r.line.next) && |r.line.fields| == 2
            && FieldFits(dsv, r.line.fields[0]) && FieldText(dsv, o.escapeChar, r.line.fields[0]) == dsv
            && FieldFits(dsv, r.line.fields[1]) && FieldText(dsv, o.escapeChar, r.line.fields[1]) == dsv
  {
    SingleCharacterRepeats(dsv, o, s);
    var n := MoveNext(dsv, o, s).value.next;
    SingleCharacterRepeats(dsv, o, n);
    var n2 := MoveNext(dsv, o, n).value.next;
    var none: Option<nat> := None;
    assert n2.rowCount == n.rowCount + 1;
    assert Collect(dsv, o, n2, n.rowCount, none, [n.nextValue]) == Ok(Line([n.nextValue] + [n2.nextValue], n2));
    var empty: seq<Field> := [];
    assert empty + [n.nextValue] == [n.nextValue];
    assert [n.nextValue] + [n2.nextValue] == [n.nextValue, n2.nextValue];
    assert Collect(dsv, o, n, n.rowCount, none, empty) == Ok(Line([n.nextValue, n2.nextValue], n2));
    assert ReadLine(dsv, o, n) == Ok(Line([n.nextValue, n2.nextValue], n2));
  }

  /** A round from a state past the first character moves the cursor, and only while two characters remain. */
  lemma RoundAdvances(dsv: string, o: Options, t: Scanner)
    ensures var r := NextRound(dsv, o, t);
            1 <= t.index && r.Row? ==> t.index < r.line.next.index && t.index + 2 <= |dsv|
  {
  }

  /** Except on the endless input, a first round that reads a row moves the cursor off the first character. */
  lemma RoundLeavesStart(dsv: string, o: Options)
    requires !Endless(dsv, o)
    ensures var r := NextRound(dsv, o, Start);
            r.Row? ==> 1 <= r.line.next.index
  {
    var m := MoveNext(dsv, o, Start);
    if m.Ok? && m.value.more && m.value.next.index == 0 {
      ScanFacts(dsv, o, Prepare(Start));
      if dsv[0] == o.delimiter {
        LeadingDelimiterFails(dsv, o);
      }
    }
  }

  /** An input that starts with the delimiter makes the parser raise on the first row. */
  lemma LeadingDelimiterRaises(dsv: string, o: Options)
    requires 1 <= |dsv| && dsv[0] == o.delimiter
    ensures Parse(dsv, o) == Raised(SliceOutOfRange)
  {
    LeadingDelimiterFails(dsv, o);
    var n := MoveNext(dsv, o, Start).value.next;
    assert ReadLine(dsv, o, n) == Err(SliceOutOfRange);
    assert NextRound(dsv, o, Start) == Failed(SliceOutOfRange);
  }

  /** On the endless input the loop runs out of fuel, however much it is given. */
  lemma EndlessDiverges(dsv: string, o: Options, fuel: nat)
    requires Endless(dsv, o)
    ensures Loop(Rounds(dsv, o), Start, fuel, o.hasHeaders, [], []) == Diverges
  {
    var step := Rounds(dsv, o);
    forall t: Scanner | Looping(t)
      ensures step(t).Row? && Looping(step(t).line.next)
    {
      EndlessRound(dsv, o, t);
    }
    LoopNeverEnds(step, Start, fuel, o.hasHeaders, [], []);
  }

  /** A loop whose first round leaves the first character ends, given two rounds more than the input is long. */
  lemma LoopEndsFromStart(step: Scanner -> Round, bound: nat, s: Scanner, fuel: nat, firstPass: bool,
                          columns: seq<Field>, rows: seq<seq<Field>>)
    requires forall t: Scanner :: 1 <= t.index && step(t).Row? ==> t.index < step(t).line.next.index && t.index + 2 <= bound
    requires step(s).Row? ==> 1 <= step(s).line.next.index
    requires bound + 2 <= fuel
    ensures Loop(step, s, fuel, firstPass, columns, rows) != Diverges
  {
    if step(s).Row? {
      var line := step(s).line;
      if firstPass {
        LoopEnds(step, bound, line.next, fuel - 1, false, line.fields, rows);
      } else {
        LoopEnds(step, bound, line.next, fuel - 1, false, columns, rows + [line.fields]);
      }
    }
  }

  /** On every other input the parse ends within the fuel it is given. */
  lemma OthersEnd(dsv: string, o: Options)
    requires !Endless(dsv, o)
    ensures Parse(dsv, o) != Diverges
  {
    var step := Rounds(dsv, o);
    forall t: Scanner | 1 <= t.index && step(t).Row?
      ensures t.index < step(t).line.next.index && t.index + 2 <= |dsv|
    {
      RoundAdvances(dsv, o, t);
    }
    RoundLeavesStart(dsv, o);
    LoopEndsFromStart(step, |dsv|, Start, |dsv| + 2, o.hasHeaders, [], []);
  }

  /** The parse fails to end exactly on the endless input. */
  lemma ParseDivergesOnlyWhenEndless(dsv: string, o: Options)
    ensures Parse(dsv, o) == Diverges <==> Endless(dsv, o)
  {
    if Endless(dsv, o) {
      EndlessDiverges(dsv, o, |dsv| + 2);
    } else {
      OthersEnd(dsv, o);
    }
  }

  /** The fuel `Parse` gives the loop is enough: any more gives the same outcome. */
  lemma ParseFuelSuffices(dsv: string, o: Options, fuel: nat)
    requires |dsv| + 2 <= fuel
    ensures Loop(Rounds(dsv, o), Start, fuel, o.hasHeaders, [], []) == Parse(dsv, o)
  {
    hide Loop, NextRound;
    if Endless(dsv, o) {
      EndlessDiverges(dsv, o, fuel);
      EndlessDiverges(dsv, o, |dsv| + 2);
    } else {
      OthersEnd(dsv, o);
      LoopFuelSuffices(Rounds(dsv, o), Start, |dsv| + 2, fuel - (|dsv| + 2), o.hasHeaders, [], []);
    }
  }
}
