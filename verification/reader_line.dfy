/**
 * `ReadLine()` of DsvReader.cs: hand out the current value and keep pulling
 * fields with `MoveNext` while the row counter still has the value it had
 * on entry. Once the column count is fixed the fields go into an array of
 * exactly that many slots; before that they go into an array that starts
 * with four slots, doubles when full, and is cut to the number of fields.
 */
module DsvReaderLine {
  import opened Outcomes
  import opened DsvReader

  /** A row handed out by `ReadLine`, and the reader state after it. */
  datatype Line = Line(fields: seq<Field>, next: Scanner)

  /** `n` slots that were never written: null memories. */
  function Unset(n: nat): (r: seq<Field>)
    ensures |r| == n && forall i :: 0 <= i < n ==> r[i] == NoValue
  {
    if n == 0 then [] else Unset(n - 1) + [NoValue]
  }

  /**
   * The `do { arr[col++] = nextValue; } while (_rowCount == startRow && MoveNext());`
   * loop, with `acc` the slots written so far. On the filled path `room` is
   * the fixed array length, and writing past it raises.
   */
  function Collect(dsv: string, o: Options, s: Scanner, startRow: nat, room: Option<nat>, acc: seq<Field>): Result<Line>
    requires startRow <= s.rowCount <= startRow + 1
    decreases 2 * Rank(dsv, s) + (if s.rowCount == startRow then 1 else 0)
  {
    if room.Some? && room.value <= |acc| then Err(IndexOutOfRange)
    else
      var stored := acc + [s.nextValue];
      if s.rowCount != startRow then Ok(Line(stored, s))
      else
        match MoveNext(dsv, o, s)
        case Err(err) => Err(err)
        case Ok(m) =>
          if m.more then Collect(dsv, o, m.next, startRow, room, stored)
          else Ok(Line(stored, m.next))
  }

  /** One round of the loop: store the current value, then stop or pull the next field. */
  lemma CollectStep(dsv: string, o: Options, s: Scanner, startRow: nat, room: Option<nat>, acc: seq<Field>)
    requires startRow <= s.rowCount <= startRow + 1
    requires !(room.Some? && room.value <= |acc|)
    ensures var r := Collect(dsv, o, s, startRow, room, acc);
            var stored := acc + [s.nextValue];
            var m := MoveNext(dsv, o, s);
            && (s.rowCount != startRow ==> r == Ok(Line(stored, s)))
            && (s.rowCount == startRow && m.Err? ==> r == Err(m.error))
            && (s.rowCount == startRow && m.Ok? && !m.value.more ==> r == Ok(Line(stored, m.value.next)))
            && (s.rowCount == startRow && m.Ok? && m.value.more ==> r == Collect(dsv, o, m.value.next, startRow, room, stored))
  {
  }

  /**
   * The slots written before are kept, the current value goes into the next
   * one, and on the filled path no more slots are used than the array has.
   */
  lemma {:induction false} CollectKeepsSlots(dsv: string, o: Options, s: Scanner, startRow: nat, room: Option<nat>, acc: seq<Field>)
    requires startRow <= s.rowCount <= startRow + 1
    ensures var r := Collect(dsv, o, s, startRow, room, acc);
            && (r.Ok? ==> && |acc| < |r.value.fields|
                          && r.value.fields[..|acc|] == acc
                          && r.value.fields[|acc|] == s.nextValue
                          && (room.Some? ==> |r.value.fields| <= room.value))
            && (room.Some? && room.value <= |acc| ==> r == Err(IndexOutOfRange))
    decreases 2 * Rank(dsv, s) + (if s.rowCount == startRow then 1 else 0)
  {
    if !(room.Some? && room.value <= |acc|) && s.rowCount == startRow {
      var stored := acc + [s.nextValue];
      var m := MoveNext(dsv, o, s);
      if m.Ok? && m.value.more {
        CollectKeepsSlots(dsv, o, m.value.next, startRow, room, stored);
        var f := Collect(dsv, o, m.value.next, startRow, room, stored);
        if f.Ok? {
          assert f.value.fields[..|acc|] == f.value.fields[..|stored|][..|acc|];
        }
      }
    }
  }

  /**
   * The loop stops once the row counter has moved on, or once the input is
   * exhausted; the cursor never moves back.
   */
  lemma {:induction false} CollectStopsAtRowEnd(dsv: string, o: Options, s: Scanner, startRow: nat, room: Option<nat>, acc: seq<Field>)
    requires startRow <= s.rowCount <= startRow + 1
    ensures var r := Collect(dsv, o, s, startRow, room, acc);
            r.Ok? ==> && s.index <= r.value.next.index
                      && r.value.next.rowCount <= startRow + 1
                      && (r.value.next.rowCount == startRow + 1 || |dsv| <= r.value.next.index)
    decreases 2 * Rank(dsv, s) + (if s.rowCount == startRow then 1 else 0)
  {
    if !(room.Some? && room.value <= |acc|) && s.rowCount == startRow {
      var m := MoveNext(dsv, o, s);
      if m.Ok? && m.value.more {
        CollectStopsAtRowEnd(dsv, o, m.value.next, startRow, room, acc + [s.nextValue]);
      }
    }
  }

  /**
   * Reference for the loop: the result of `k` further `MoveNext` calls from
   * `s`, each made only if the one before it yielded a field.
   */
  function Pulls(dsv: string, o: Options, s: Scanner, k: nat): Result<Moved>
    decreases k
  {
    if k == 0 then Ok(Moved(true, s))
    else
      match MoveNext(dsv, o, s)
      case Err(err) => Err(err)
      case Ok(m) => if m.more then Pulls(dsv, o, m.next, k - 1) else Ok(m)
  }

  /** The value held after `k` pulls, if each of them yielded a field. */
  function PulledValue(dsv: string, o: Options, s: Scanner, k: nat): Option<Field>
  {
    match Pulls(dsv, o, s, k)
    case Ok(m) => if m.more then Some(m.next.nextValue) else None
    case Err(_) => None
  }

  /** The row counter after `k` pulls, if none of them raised. */
  function PulledRow(dsv: string, o: Options, s: Scanner, k: nat): Option<nat>
  {
    match Pulls(dsv, o, s, k)
    case Ok(m) => Some(m.next.rowCount)
    case Err(_) => None
  }

  /** After a first pull that yields, the remaining pulls start from its state. */
  lemma PullsAfterFirst(dsv: string, o: Options, s: Scanner, k: nat)
    requires 0 < k && MoveNext(dsv, o, s).Ok? && MoveNext(dsv, o, s).value.more
    ensures Pulls(dsv, o, s, k) == Pulls(dsv, o, MoveNext(dsv, o, s).value.next, k - 1)
  {
  }

  /** One more pull in front of `k` pulls changes neither the value nor the row they end with. */
  lemma PulledAfterFirst(dsv: string, o: Options, s: Scanner, k: nat)
    requires MoveNext(dsv, o, s).Ok? && MoveNext(dsv, o, s).value.more
    ensures PulledValue(dsv, o, s, k + 1) == PulledValue(dsv, o, MoveNext(dsv, o, s).value.next, k)
    ensures PulledRow(dsv, o, s, k + 1) == PulledRow(dsv, o, MoveNext(dsv, o, s).value.next, k)
  {
    PullsAfterFirst(dsv, o, s, k + 1);
  }

  /** Values held after pulls from the next state are held one pull later from this one. */
  lemma PulledValuesAfterFirst(dsv: string, o: Options, s: Scanner, f: seq<Field>, base: nat)
    requires MoveNext(dsv, o, s).Ok? && MoveNext(dsv, o, s).value.more
    requires forall k :: base + 1 <= k < |f| ==> PulledValue(dsv, o, MoveNext(dsv, o, s).value.next, k - (base + 1)) == Some(f[k])
    ensures forall k :: base + 1 <= k < |f| ==> PulledValue(dsv, o, s, k - base) == Some(f[k])
  {
    forall k | base + 1 <= k < |f|
      ensures PulledValue(dsv, o, s, k - base) == Some(f[k])
    {
      PulledAfterFirst(dsv, o, s, k - (base + 1));
    }
  }

  /** The value current on entry is the one held after no pull at all. */
  lemma PulledNothing(dsv: string, o: Options, s: Scanner)
    ensures PulledValue(dsv, o, s, 0) == Some(s.nextValue)
  {
  }

  /** Slots filled after a first pull that yields hold what the pulls from `s` hold. */
  lemma HoldsPullsAfterMove(dsv: string, o: Options, s: Scanner, acc: seq<Field>, fields: seq<Field>)
    requires MoveNext(dsv, o, s).Ok? && MoveNext(dsv, o, s).value.more
    requires |acc| < |fields| && fields[|acc|] == s.nextValue
    requires forall k :: |acc| + 1 <= k < |fields| ==> PulledValue(dsv, o, MoveNext(dsv, o, s).value.next, k - (|acc| + 1)) == Some(fields[k])
    ensures forall k :: |acc| <= k < |fields| ==> PulledValue(dsv, o, s, k - |acc|) == Some(fields[k])
  {
    PulledValuesAfterFirst(dsv, o, s, fields, |acc|);
    PulledNothing(dsv, o, s);
  }

  /**
   * The slots the loop writes hold, in order, the value current on entry and
   * the value after each further pull.
   */
  lemma {:induction false} CollectHoldsPulls(dsv: string, o: Options, s: Scanner, startRow: nat, room: Option<nat>, acc: seq<Field>)
    requires startRow <= s.rowCount <= startRow + 1
    ensures var r := Collect(dsv, o, s, startRow, room, acc);
            r.Ok? ==> forall k :: |acc| <= k < |r.value.fields| ==> PulledValue(dsv, o, s, k - |acc|) == Some(r.value.fields[k])
    decreases 2 * Rank(dsv, s) + (if s.rowCount == startRow then 1 else 0)
  {
    CollectKeepsSlots(dsv, o, s, startRow, room, acc);
    var r := Collect(dsv, o, s, startRow, room, acc);
    if r.Ok? {
      var stored := acc + [s.nextValue];
      if s.rowCount == startRow && MoveNext(dsv, o, s).value.more {
        var m := MoveNext(dsv, o, s).value;
        assert r == Collect(dsv, o, m.next, startRow, room, stored);
        CollectHoldsPulls(dsv, o, m.next, startRow, room, stored);
        HoldsPullsAfterMove(dsv, o, s, acc, r.value.fields);
      } else {
        assert r.value.fields == stored;
        PulledNothing(dsv, o, s);
      }
    }
  }

  /** Every pull but the last one the loop makes leaves the row counter at its starting value. */
  lemma {:induction false} CollectStaysInRow(dsv: string, o: Options, s: Scanner, startRow: nat, room: Option<nat>, acc: seq<Field>)
    requires startRow <= s.rowCount <= startRow + 1
    ensures var r := Collect(dsv, o, s, startRow, room, acc);
            r.Ok? ==> forall j :: 0 <= j < |r.value.fields| - |acc| - 1 ==> PulledRow(dsv, o, s, j) == Some(startRow)
    decreases 2 * Rank(dsv, s) + (if s.rowCount == startRow then 1 else 0)
  {
    CollectKeepsSlots(dsv, o, s, startRow, room, acc);
    var r := Collect(dsv, o, s, startRow, room, acc);
    if r.Ok? && s.rowCount == startRow {
      var m := MoveNext(dsv, o, s);
      if m.value.more {
        var stored := acc + [s.nextValue];
        assert r == Collect(dsv, o, m.value.next, startRow, room, stored);
        CollectStaysInRow(dsv, o, m.value.next, startRow, room, stored);
        assert PulledRow(dsv, o, s, 0) == Some(startRow);
        forall j | 0 < j < |r.value.fields| - |acc| - 1
          ensures PulledRow(dsv, o, s, j) == Some(startRow)
        {
          PulledAfterFirst(dsv, o, s, j - 1);
        }
      }
    }
  }

  /**
   * Where the loop stops, in terms of pulls. With `n` slots filled, either
   * the `n - 1`-th pull moved the row counter and the loop stops right
   * there, or it left the counter alone and the `n`-th pull found no field;
   * the reader is left in the state the deciding pull produced.
   */
  lemma {:induction false} CollectEndsWithPulls(dsv: string, o: Options, s: Scanner, startRow: nat, room: Option<nat>, acc: seq<Field>)
    requires startRow <= s.rowCount <= startRow + 1
    ensures var r := Collect(dsv, o, s, startRow, room, acc);
            r.Ok? ==> var n := |r.value.fields| - |acc|;
                      && 1 <= n
                      && (|| (PulledRow(dsv, o, s, n - 1) == Some(startRow + 1) && Pulls(dsv, o, s, n - 1) == Ok(Moved(true, r.value.next)))
                          || (PulledRow(dsv, o, s, n - 1) == Some(startRow) && Pulls(dsv, o, s, n) == Ok(Moved(false, r.value.next))))
    decreases 2 * Rank(dsv, s) + (if s.rowCount == startRow then 1 else 0)
  {
    hide Collect;
    CollectKeepsSlots(dsv, o, s, startRow, room, acc);
    var r := Collect(dsv, o, s, startRow, room, acc);
    if r.Ok? {
      CollectStep(dsv, o, s, startRow, room, acc);
      if s.rowCount == startRow && MoveNext(dsv, o, s).value.more {
        var m := MoveNext(dsv, o, s);
        var stored := acc + [s.nextValue];
        CollectEndsWithPulls(dsv, o, m.value.next, startRow, room, stored);
        CollectKeepsSlots(dsv, o, m.value.next, startRow, room, stored);
        var n := |r.value.fields| - |acc|;
        PulledAfterFirst(dsv, o, s, n - 2);
        PullsAfterFirst(dsv, o, s, n - 1);
        PullsAfterFirst(dsv, o, s, n);
      }
    }
  }

  /**
   * Reference for a row read from `s` with `n` fields found: slot `j < n`
   * holds the value after `j` pulls, every pull before the last leaves the
   * row counter alone, and the row ends where the row counter moved or where
   * no field was left. On the filled path the row has `columnCount` slots and
   * the ones past `n` are unset; otherwise it has exactly `n`.
   */
  predicate ReadsRow(dsv: string, o: Options, s: Scanner, line: Line, n: nat)
  {
    && 1 <= n <= |line.fields|
    && |line.fields| == (if s.columnsFilled then s.columnCount else n)
    && (forall j :: 0 <= j < n ==> PulledValue(dsv, o, s, j) == Some(line.fields[j]))
    && (forall j :: n <= j < |line.fields| ==> line.fields[j] == NoValue)
    && (forall j :: 0 <= j < n - 1 ==> PulledRow(dsv, o, s, j) == Some(s.rowCount))
    && (|| (PulledRow(dsv, o, s, n - 1) == Some(s.rowCount + 1) && Pulls(dsv, o, s, n - 1) == Ok(Moved(true, line.next)))
        || (PulledRow(dsv, o, s, n - 1) == Some(s.rowCount) && Pulls(dsv, o, s, n) == Ok(Moved(false, line.next))))
  }

  /** At most one row and field count meet `ReadsRow` from a given state. */
  lemma ReadsRowUnique(dsv: string, o: Options, s: Scanner, a: Line, na: nat, b: Line, nb: nat)
    requires ReadsRow(dsv, o, s, a, na) && ReadsRow(dsv, o, s, b, nb)
    ensures na == nb && a == b
  {
    // A value after `min(na, nb)` pulls rules out the shorter count's ending.
    var _ := PulledValue(dsv, o, s, na);
    var _ := PulledValue(dsv, o, s, nb);
    forall j | 0 <= j < |a.fields|
      ensures a.fields[j] == b.fields[j]
    {
      if j < na {
        assert PulledValue(dsv, o, s, j) == Some(a.fields[j]);
      }
    }
  }

  /**
   * `ReadLine()`: the fields of the row the current value begins, as
   * `ReadsRow` describes them.
   */
  function ReadLine(dsv: string, o: Options, s: Scanner): (r: Result<Line>)
    ensures r.Ok? ==> && 1 <= |r.value.fields|
                      && r.value.fields[0] == s.nextValue
                      && s.index <= r.value.next.index
                      && r.value.next.rowCount <= s.rowCount + 1
                      && (r.value.next.rowCount == s.rowCount + 1 || |dsv| <= r.value.next.index)
    ensures r.Ok? && s.columnsFilled ==> |r.value.fields| == s.columnCount
    ensures r.Ok? ==> exists n :: ReadsRow(dsv, o, s, r.value, n)
    ensures (exists line, n :: ReadsRow(dsv, o, s, line, n)) ==> r.Ok?
  {
    var room := if s.columnsFilled then Some(s.columnCount) else None;
    CollectKeepsSlots(dsv, o, s, s.rowCount, room, []);
    CollectStopsAtRowEnd(dsv, o, s, s.rowCount, room, []);
    CollectReadsRow(dsv, o, s);
    RowCollects(dsv, o, s);
    if s.columnsFilled then
      var line :- Collect(dsv, o, s, s.rowCount, Some(s.columnCount), []);
      Ok(Line(line.fields + Unset(s.columnCount - |line.fields|), line.next))
    else
      Collect(dsv, o, s, s.rowCount, None, [])
  }

  /** Slots of a row from its first one on hold the values after that many pulls. */
  lemma CollectFromStartHoldsPulls(dsv: string, o: Options, s: Scanner, room: Option<nat>)
    ensures var c := Collect(dsv, o, s, s.rowCount, room, []);
            c.Ok? ==> forall j :: 0 <= j < |c.value.fields| ==> PulledValue(dsv, o, s, j) == Some(c.value.fields[j])
  {
    var none: seq<Field> := [];
    CollectHoldsPulls(dsv, o, s, s.rowCount, room, none);
    var c := Collect(dsv, o, s, s.rowCount, room, none);
    if c.Ok? {
      forall j | 0 <= j < |c.value.fields|
        ensures PulledValue(dsv, o, s, j) == Some(c.value.fields[j])
      {
        assert PulledValue(dsv, o, s, j - |none|) == Some(c.value.fields[j]);
      }
    }
  }

  /** Slots appended as padding are empty. */
  lemma PaddingUnset(fields: seq<Field>, n: nat)
    ensures forall k :: |fields| <= k < |fields| + n ==> (fields + Unset(n))[k] == NoValue
  {
    forall k | |fields| <= k < |fields| + n
      ensures (fields + Unset(n))[k] == NoValue
    {
      assert (fields + Unset(n))[k] == Unset(n)[k - |fields|];
    }
  }

  /**
   * The loop's slots, padded with unset ones on the filled path, form the
   * row `ReadsRow` describes, with as many fields found as the loop filled.
   */
  lemma CollectReadsRow(dsv: string, o: Options, s: Scanner)
    ensures var room := if s.columnsFilled then Some(s.columnCount) else None;
            var c := Collect(dsv, o, s, s.rowCount, room, []);
            c.Ok? ==> var n := |c.value.fields|;
                      && (s.columnsFilled ==> n <= s.columnCount)
                      && ReadsRow(dsv, o, s, if s.columnsFilled then Line(c.value.fields + Unset(s.columnCount - n), c.value.next) else c.value, n)
  {
    var room := if s.columnsFilled then Some(s.columnCount) else None;
    var none: seq<Field> := [];
    CollectFromStartHoldsPulls(dsv, o, s, room);
    CollectKeepsSlots(dsv, o, s, s.rowCount, room, none);
    CollectStaysInRow(dsv, o, s, s.rowCount, room, none);
    CollectEndsWithPulls(dsv, o, s, s.rowCount, room, none);
    var c := Collect(dsv, o, s, s.rowCount, room, none);
    if c.Ok? && s.columnsFilled {
      var n := |c.value.fields|;
      PaddingUnset(c.value.fields, s.columnCount - n);
      assert (c.value.fields + Unset(s.columnCount - n))[..n] == c.value.fields;
    }
  }

  /**
   * The loop succeeds when the next `n` pulls find fields, all but the last
   * stay in the row, and the last either moves the row counter or is
   * followed by a pull that finds nothing, provided `n` more slots fit.
   */
  lemma {:induction false} CollectSucceeds(dsv: string, o: Options, s: Scanner, startRow: nat, room: Option<nat>, acc: seq<Field>, n: nat)
    requires startRow <= s.rowCount <= startRow + 1
    requires 1 <= n && (room.Some? ==> |acc| + n <= room.value)
    requires forall j :: 0 <= j < n ==> PulledValue(dsv, o, s, j).Some?
    requires forall j :: 0 <= j < n - 1 ==> PulledRow(dsv, o, s, j) == Some(startRow)
    requires || PulledRow(dsv, o, s, n - 1) == Some(startRow + 1)
             || (PulledRow(dsv, o, s, n - 1) == Some(startRow) && Pulls(dsv, o, s, n).Ok? && !Pulls(dsv, o, s, n).value.more)
    ensures Collect(dsv, o, s, startRow, room, acc).Ok?
    decreases n
  {
    assert PulledRow(dsv, o, s, 0) == Some(s.rowCount);
    CollectStep(dsv, o, s, startRow, room, acc);
    if 1 < n {
      assert PulledValue(dsv, o, s, 1).Some?;
      var m := MoveNext(dsv, o, s).value;
      forall j | 0 <= j < n - 1
        ensures PulledValue(dsv, o, m.next, j).Some?
      {
        PulledAfterFirst(dsv, o, s, j);
      }
      forall j | 0 <= j < n - 2
        ensures PulledRow(dsv, o, m.next, j) == Some(startRow)
      {
        PulledAfterFirst(dsv, o, s, j);
      }
      PulledAfterFirst(dsv, o, s, 0);
      PulledAfterFirst(dsv, o, s, n - 2);
      PullsAfterFirst(dsv, o, s, n);
      CollectSucceeds(dsv, o, m.next, startRow, room, acc + [s.nextValue], n - 1);
    }
  }

  /** A row fitting `ReadsRow` makes the loop succeed. */
  lemma RowCollects(dsv: string, o: Options, s: Scanner)
    ensures var room := if s.columnsFilled then Some(s.columnCount) else None;
            (exists line, n :: ReadsRow(dsv, o, s, line, n)) ==> Collect(dsv, o, s, s.rowCount, room, []).Ok?
  {
    if line: Line, n: nat :| ReadsRow(dsv, o, s, line, n) {
      var room := if s.columnsFilled then Some(s.columnCount) else None;
      forall j | 0 <= j < n
        ensures PulledValue(dsv, o, s, j).Some?
      {
        assert PulledValue(dsv, o, s, j) == Some(line.fields[j]);
      }
      CollectSucceeds(dsv, o, s, s.rowCount, room, [], n);
    }
  }

  /** A row fitting `ReadsRow` is exactly what `ReadLine` returns. */
  lemma ReadsRowIsRead(dsv: string, o: Options, s: Scanner, line: Line, n: nat)
    requires ReadsRow(dsv, o, s, line, n)
    ensures ReadLine(dsv, o, s) == Ok(line)
  {
    ReadLineHoldsPulls(dsv, o, s, line, n);
  }

  /**
   * Each slot of a row holds the value after that many pulls from the
   * current state, except that on the filled path the slots after the last
   * field of the row are left empty; and `ReadsRow` admits no other row.
   */
  lemma ReadLineHoldsPulls(dsv: string, o: Options, s: Scanner, line: Line, n: nat)
    ensures var r := ReadLine(dsv, o, s);
            r.Ok? ==> forall j :: 0 <= j < |r.value.fields| ==>
                        || PulledValue(dsv, o, s, j) == Some(r.value.fields[j])
                        || (s.columnsFilled && forall k :: j <= k < |r.value.fields| ==> r.value.fields[k] == NoValue)
    ensures var r := ReadLine(dsv, o, s);
            r.Ok? && ReadsRow(dsv, o, s, line, n) ==> r.value == line
  {
    var r := ReadLine(dsv, o, s);
    if r.Ok? {
      var m :| ReadsRow(dsv, o, s, r.value, m);
      if ReadsRow(dsv, o, s, line, n) {
        ReadsRowUnique(dsv, o, s, r.value, m, line, n);
      }
    }
  }
}
