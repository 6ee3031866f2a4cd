/**
 * `ReadLine()` as DsvReader.cs writes it, over arrays: a fixed array of
 * `ColumnCount` slots once the column count is known, and otherwise an
 * array of four slots that doubles when full and is resized to the number
 * of fields at the end. Each method computes what `DsvReaderLine.ReadLine`
 * defines.
 */
module DsvReaderLineArrays {
  import opened Outcomes
  import opened DsvReader
  import opened DsvReaderLine

  /** `Array.Resize(ref a, n)`: a new array of `n` slots holding the old ones that fit, the rest empty. */
  method Resize(a: array<Field>, n: nat) returns (b: array<Field>)
    ensures fresh(b) && b.Length == n
    ensures forall i :: 0 <= i < n ==> b[i] == (if i < a.Length then a[i] else NoValue)
  {
    b := new Field[n](_ => NoValue);
    var i := 0;
    while i < n && i < a.Length
      invariant 0 <= i <= n
      invariant forall j :: 0 <= j < n ==> b[j] == (if j < i && j < a.Length then a[j] else NoValue)
    {
      b[i] := a[i];
      i := i + 1;
    }
  }

  /** The filled path: a fixed array of `ColumnCount` slots; a row with more fields raises. */
  method ReadLineFilled(dsv: string, o: Options, s: Scanner) returns (r: Result<Line>)
    requires s.columnsFilled
    ensures r == ReadLine(dsv, o, s)
  {
    var arr := new Field[s.columnCount](_ => NoValue);
    var col := 0;
    var startRow := s.rowCount;
    var cur := s;
    while true
      invariant startRow <= cur.rowCount <= startRow + 1
      invariant 0 <= col <= arr.Length == s.columnCount
      invariant forall i :: col <= i < arr.Length ==> arr[i] == NoValue
      invariant Collect(dsv, o, cur, startRow, Some(arr.Length), arr[..col]) == Collect(dsv, o, s, startRow, Some(s.columnCount), [])
      decreases 2 * Rank(dsv, cur) + (if cur.rowCount == startRow then 1 else 0)
    {
      if col >= arr.Length {
        return Err(IndexOutOfRange);
      }
      ghost var before := arr[..col];
      CollectStep(dsv, o, cur, startRow, Some(arr.Length), before);
      arr[col] := cur.nextValue;
      col := col + 1;
      assert arr[..col] == before + [cur.nextValue];
      if cur.rowCount != startRow {
        r := Ok(Line(arr[..], cur));
        PaddedRow(arr, col);
        return;
      }
      var m := MoveNext(dsv, o, cur);
      if m.Err? {
        return Err(m.error);
      }
      if !m.value.more {
        r := Ok(Line(arr[..], m.value.next));
        PaddedRow(arr, col);
        return;
      }
      cur := m.value.next;
    }
  }

  /** A fixed array whose slots from `col` on were never written is its written part padded with empty slots. */
  lemma PaddedRow(arr: array<Field>, col: nat)
    requires col <= arr.Length
    requires forall i :: col <= i < arr.Length ==> arr[i] == NoValue
    ensures arr[..] == arr[..col] + Unset(arr.Length - col)
  {
    var u := Unset(arr.Length - col);
    assert forall i :: 0 <= i < arr.Length ==> arr[..][i] == (arr[..col] + u)[i];
  }

  /** Capacities the growing array passes through: four, doubled any number of times. */
  predicate Doubled(n: nat)
    decreases n
  {
    n == 4 || (n > 4 && n % 2 == 0 && Doubled(n / 2))
  }

  /** Doubling a capacity the array passes through gives another. */
  lemma DoubledTwice(n: nat)
    requires Doubled(n)
    ensures Doubled(2 * n)
  {
    assert 2 * n > 4 && (2 * n) % 2 == 0 && (2 * n) / 2 == n;
  }

  /** Stores `v` in slot `col`, first doubling the array when it is full. */
  method Append(a: array<Field>, col: nat, v: Field) returns (b: array<Field>)
    requires 0 < a.Length && col <= a.Length
    modifies a
    ensures fresh(b) || b == a
    ensures b.Length == (if col < a.Length then a.Length else 2 * a.Length)
    ensures col < b.Length && b[..col + 1] == old(a[..col]) + [v]
  {
    b := a;
    if col == a.Length {
      b := Resize(a, 2 * a.Length);
      assert b[..col] == a[..col];
    }
    b[col] := v;
  }

  /**
   * The header path: an array of four slots that doubles whenever it is
   * full, cut to the number of fields at the end.
   */
  method ReadLineGrowing(dsv: string, o: Options, s: Scanner) returns (r: Result<Line>, capacity: nat)
    requires !s.columnsFilled
    ensures r == ReadLine(dsv, o, s)
    ensures Doubled(capacity) && (r.Ok? ==> |r.value.fields| <= capacity && (capacity == 4 || capacity < 2 * |r.value.fields|))
  {
    assert ReadLine(dsv, o, s) == Collect(dsv, o, s, s.rowCount, None, []);
    var length := 4;
    var arg := new Field[length](_ => NoValue);
    var col := 0;
    var startRow := s.rowCount;
    var cur := s;
    while true
      invariant startRow <= cur.rowCount <= startRow + 1
      invariant fresh(arg) && arg.Length == length && Doubled(length)
      invariant 0 <= col <= length && (length == 4 || length < 2 * col)
      invariant Collect(dsv, o, cur, startRow, None, arg[..col]) == Collect(dsv, o, s, startRow, None, [])
      decreases 2 * Rank(dsv, cur) + (if cur.rowCount == startRow then 1 else 0)
    {
      CollectStep(dsv, o, cur, startRow, None, arg[..col]);
      if col == length {
        DoubledTwice(length);
      }
      arg := Append(arg, col, cur.nextValue);
      length := arg.Length;
      col := col + 1;
      var done := cur.rowCount != startRow;
      var next := cur;
      if !done {
        var m := MoveNext(dsv, o, cur);
        if m.Err? {
          return Err(m.error), length;
        }
        done := !m.value.more;
        next := m.value.next;
      }
      if done {
        capacity := length;
        var fields := arg[..col];
        if length != col {
          arg := Resize(arg, col);
        }
        assert arg[..] == fields;
        return Ok(Line(arg[..], next)), capacity;
      }
      cur := next;
    }
  }

  /** `ReadLine()`: the filled or the growing path, by whether the column count is known. */
  method ReadLineArrays(dsv: string, o: Options, s: Scanner) returns (r: Result<Line>)
    ensures r == ReadLine(dsv, o, s)
  {
    if s.columnsFilled {
      r := ReadLineFilled(dsv, o, s);
    } else {
      var capacity;
      r, capacity := ReadLineGrowing(dsv, o, s);
    }
  }
}
