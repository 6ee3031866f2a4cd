# DsvParser core in Dafny

A model of the parsing core of Beffyman.DsvParser, a C# library for
delimiter-separated text (CSV, TSV, PSV). The model has three parts.

- **`DsvReader`** is the pull-based scanner. A `Scanner` value holds the
  reader's private state:
  - the cursor and the start of the current field;
  - the four quoting flags;
  - the row and column counters;
  - the current value.

  `MoveNext` is one call of `MoveToNext`. It scans forward from the cursor
  one character at a time (`Examine`), and does one of three things: it
  yields a field, it reports the end of the input, or it raises. A field
  is a slice of the input. When the field held doubled escape characters,
  it is an "owned" copy: the slice with each pair collapsed (`Unescape`).

  `ReadLine` pulls fields until the row counter moves. The predicate
  `DsvReaderLine.ReadsRow` states this in terms of `MoveNext` pulls, and is
  the reference the row is proved against. `ReadLine` is given twice:
  - as a function (`DsvReaderLine.ReadLine`);
  - as the two array algorithms of the source (`DsvReaderLineArrays`): a
    fixed array of `ColumnCount` slots, and an array of four slots that
    doubles.
- **`DsvParser`** is the driver: while `MoveNext()` finds a field, it reads
  a row. The first row becomes the columns when there are headers.
- **`DsvData`** is the older two-pass splitter:
  - it matches a configurable line-break string;
  - it counts the columns in a first pass;
  - it grows its row buffer by doubling;
  - it splits on every delimiter in a second pass.

Every exception the source can raise is an `Err` with a `Failure` that
names its cause:
- `InvalidEscapedEscapeChar` and `InvalidRowColumn` are the two
  `FormatException`s;
- `SliceOutOfRange` and `IndexOutOfRange` are the runtime exceptions that
  a slice or an index raises;
- `NegativeArraySize` is the `OverflowException` raised when an array of
  negative length is allocated.

Where the code's tests expect something the code does not do, the model
follows the code:
- **Line breaks.** `CheckLineFeed` (DsvReader.cs:359-368) accepts any two
  characters from {'\r', '\n'}. A lone '\n' is not a line break, so
  `"a,b\nc,d"` is one row (`LoneLineFeedIsNoBreak`). The tests join lines
  with `Environment.NewLine`, which is a lone '\n' on Unix-like systems.
- **Blank lines.** The test `MultipleLinesBetweenData`
  (DsvReaderTests.cs:412-446) expects `Data1` after a blank line. It reads
  with headers and two columns, so the data row starts in column 1, not in
  column 2. DsvReader.cs:301-303 therefore skips the line-break test. The
  delimiter close at DsvReader.cs:189-210 then yields `"\r\nData1"` and
  nothing raises (`ShortRowIgnoresLineBreak`). A blank line raises
  `SliceOutOfRange` only where line breaks are honoured: without headers,
  on the header row, or in a data row with all its columns
  (`BlankLineFails`).

Other behaviours of the code worth knowing:
- **Too many fields.** A data row with more fields than the header row
  raises a `FormatException` (DsvReader.cs:191-196, and the test
  `MalformedData_ExtraColumns`). The model calls this `InvalidRowColumn`.
- **No column lock without headers.** Without headers the column count is
  never fixed (DsvReader.cs:333-337 runs only with headers), so rows of any
  width pass.
- **Negative known counts.** A negative `KnownRows` or `KnownColumns`
  makes `DsvData` allocate an array of negative length (DsvData.cs:101,
  105-106). That raises before any pass (`NegativeArraySize`,
  `DsvData.SplitRejectsNegativeCounts`).
- **One-character input.** An input of one character other than the
  delimiter makes the reader return the same field forever. `DsvParser`
  never finishes on it (`DsvParser.EndlessDiverges`). On every other input
  the parse ends (`DsvParser.OthersEnd`).
- **Leading delimiter.** An input that starts with the delimiter yields
  an empty field. The next call then re-scans index 0 and slices a
  negative length (`DsvReaderFields.LeadingDelimiterFails`).
- **Quoted field at the end.** A quoted field that is last in the input
  and followed by a final line break keeps its quotes
  (`DsvReaderFields.QuotedLastFieldKeepsQuotes`).
- **Empty quoted field.** An empty quoted field `""` before a delimiter
  leaves an escape pending. The next field is then rejected if it starts
  with an ordinary character
  (`DsvReaderFields.QuotedFieldBeforeDelimiter`,
  `DsvReaderFields.PendingEscapeRejectsNextField`). Before a line-break
  character, `""` or a quoted field ending in the escape character raises
  `InvalidEscapedEscapeChar`. Its closing quote follows an escape character
  and only marks an escaped escape character, which the line-break
  character then rejects (`DsvReaderFields.QuotedBeforeLineBreakRaises`).
- **`DsvData` needs a second row.** It only finds the column count at a
  character after the first line break. A single written row therefore
  gives an empty table (`DsvDataRender.SplitDropsSingleRow`).

## Model

| member | source | states |
|---|---|---|
| Unescape.CollapseDouble | src/Beffyman.DsvParser/DsvReader.cs:209-213 | Collapsing escape pairs undoes doubling every escape character: `Collapse(Double(s)) == s` for every string |
| Unescape.CollapseLength | src/Beffyman.DsvParser/DsvReader.cs:209-213 | The collapsed text is shorter by exactly the number of pairs replaced, and at most half the text consists of pairs |
| Unescape.CollapseWithoutEscape | src/Beffyman.DsvParser/DsvReader.cs:209-213 | Text without the escape character is left unchanged by the collapse |
| Unescape.CollapseKeepsOtherChars | src/Beffyman.DsvParser/DsvReader.cs:209-213 | The collapse only removes escape characters: the other characters survive, in order |
| DsvReader.CheckLineFeed | src/Beffyman.DsvParser/DsvReader.cs:359-368 | Within the input, true exactly when the two characters before `i` are both '\r' or '\n'. It raises exactly when it would read past the end |
| DsvReaderProperties.TakeFieldHolds | src/Beffyman.DsvParser/DsvReader.cs:199-213 | A field cut from the input holds the characters of its slice. When the field saw a doubled escape, those characters are collapsed. A slice starting or ending outside the input raises the slice error |
| DsvReader.DelimiterCloseFacts | src/Beffyman.DsvParser/DsvReader.cs:189-225 | A field closed at a delimiter lies between the field start and the delimiter. The next field starts after the delimiter, and the column advances by one. The column count grows only while it is not fixed |
| DsvReader.FinalizeFacts | src/Beffyman.DsvParser/DsvReader.cs:227-265 | A field closed at the last character lies before it and ends the row. The row counter rises by one and the column count is unchanged |
| DsvReader.EscapeFacts | src/Beffyman.DsvParser/DsvReader.cs:266-293 | An escape character changes only the four quoting flags. A pending escape appears only while quoting |
| DsvReader.LineFeedCloseFacts | src/Beffyman.DsvParser/DsvReader.cs:308-349 | A field closed at a line break lies before the break and ends the row. It requests a new row on the next read. On the header row it fixes the column count at one more than the fields before |
| DsvReader.ExamineFacts | src/Beffyman.DsvParser/DsvReader.cs:185-353 | One examined character either touches only the quoting flags, or yields a field with the bookkeeping of a delimiter close or of a row close |
| DsvReader.ScanFacts | src/Beffyman.DsvParser/DsvReader.cs:185-355 | The loop only moves forward. Running off the end changes only the cursor and the quoting flags. Yielding gives a field inside the input, closed by a delimiter or by a row end |
| DsvReader.MoveNext | src/Beffyman.DsvParser/DsvReader.cs:157-356 | The cursor never moves back, and moves forward past the first call. `false` means the input is exhausted, with the row counter unchanged and no value. `true` means a field was yielded and the row counter rose by at most one: it stays put exactly when a delimiter closed the field |
| DsvReaderProperties.CheckLineFeedAcceptsPairs | src/Beffyman.DsvParser/DsvReader.cs:359-368 | The line-break test is true exactly when the two characters before `i` are one of the four pairs of '\r' and '\n' |
| DsvReaderProperties.LoneLineFeedIsNoBreak | src/Beffyman.DsvParser/DsvReader.cs:359-368 | A '\n' that does not follow '\r' or '\n' is not a line break |
| DsvReaderProperties.ForwardCheckOverrun | src/Beffyman.DsvParser/DsvReader.cs:276-278 | The forward check after an escape character reads past the end exactly when that escape character is second to last and the last character is '\r' or '\n' |
| DsvReaderProperties.StartSatisfiesInv | src/Beffyman.DsvParser/DsvReader.cs:71-94 | A new reader satisfies the invariant kept between calls. A lone escape is pending only inside quotes. Columns are never fixed without headers. On the header row, the column and the column count agree. Once fixed, the column never passes the count. The field start is at most one past the cursor |
| DsvReaderProperties.PrepareKeepsInv | src/Beffyman.DsvParser/DsvReader.cs:170-183 | The prelude of each call keeps the invariant |
| DsvReaderProperties.ExamineKeepsInv | src/Beffyman.DsvParser/DsvReader.cs:185-353 | Examining one character keeps the invariant |
| DsvReaderProperties.ScanKeepsInv | src/Beffyman.DsvParser/DsvReader.cs:185-355 | The whole loop keeps the invariant |
| DsvReaderProperties.MoveNextKeepsInv | src/Beffyman.DsvParser/DsvReader.cs:157-356 | Every call keeps the invariant |
| DsvReaderProperties.DataRowWithinColumnCount | src/Beffyman.DsvParser/DsvReader.cs:189-225 | Once the column count is fixed, it stays fixed, and the column never passes it |
| DsvReaderProperties.ColumnRestartsAfterRowEnd | src/Beffyman.DsvParser/DsvReader.cs:174-178 | After a row ended at a line break, the next field is in column 1 if it ends the row, and column 2 otherwise |
| DsvReaderProperties.FalseIsFinal | src/Beffyman.DsvParser/DsvReader.cs:180-355 | After a call returns false, the next call returns false again with the row counter unchanged, so the reader stays exhausted |
| DsvReaderProperties.HeaderRunCountsColumns | src/Beffyman.DsvParser/DsvReader.cs:218-221 | On the header row, each delimiter close adds one to the column count and leaves the row unchanged |
| DsvReaderProperties.HeaderFixesColumnCount | src/Beffyman.DsvParser/DsvReader.cs:332-337 | With headers, the line break that ends the header row fixes the column count at the delimiters before it plus one |
| DsvReaderProperties.MalformedEscapeExactly | src/Beffyman.DsvParser/DsvReader.cs:294-299 | The malformed-escape error arises exactly for an ordinary character, not the last, while a lone escape is pending |
| DsvReaderProperties.TooManyColumnsExactly | src/Beffyman.DsvParser/DsvReader.cs:191-196 | The too-many-columns error arises exactly at a closing delimiter once the column count is fixed and the row already has all its columns |
| DsvReaderProperties.IndexOverrunExactly | src/Beffyman.DsvParser/DsvReader.cs:276-280 | The index error arises exactly when the forward check after an escape character reads past the end |
| DsvReaderProperties.ShortRowIgnoresLineBreak | src/Beffyman.DsvParser/DsvReader.cs:301-307 | With headers, a line break inside a data row that lacks columns is passed over as text |
| DsvReaderProperties.ReadNextLeavesScanAlone | src/Beffyman.DsvParser/DsvReader.cs:102-107 | `ReadNext` hands out the current value and clears it, and it does not change what the next call yields |
| DsvReaderFields.PlainFieldBeforeDelimiter | src/Beffyman.DsvParser/DsvReader.cs:189-225 | Unquoted text up to a delimiter is yielded exactly as written and stays in the same row |
| DsvReaderFields.PlainFieldBeforeLineBreak | src/Beffyman.DsvParser/DsvReader.cs:308-349 | Unquoted text up to a honoured line break is yielded without the break and ends the row |
| DsvReaderFields.PlainLastField | src/Beffyman.DsvParser/DsvReader.cs:227-265 | Unquoted text running to the end of the input is yielded whole and ends the row |
| DsvReaderFields.PlainLastFieldBeforeLineBreak | src/Beffyman.DsvParser/DsvReader.cs:244-247 | Unquoted text followed by a final line break is yielded without the break |
| DsvReaderFields.EndAfterLastField | src/Beffyman.DsvParser/DsvReader.cs:180-355 | After the last character has ended the last row, the next call reports the end |
| DsvReaderFields.QuotedFieldBeforeDelimiter | src/Beffyman.DsvParser/DsvReader.cs:189-293 | A quoted field `"w"` (with its inner escape characters doubled) before a delimiter yields exactly `w`. An escape stays pending exactly when `w` is empty or ends in the escape character |
| DsvReaderFields.QuotedFieldBeforeLineBreak | src/Beffyman.DsvParser/DsvReader.cs:308-330 | Where line breaks are honoured, a non-empty quoted field that does not end in the escape character and comes before a line break yields its unquoted, collapsed text and ends the row |
| DsvReaderFields.QuotedBeforeLineBreakRaises | src/Beffyman.DsvParser/DsvReader.cs:272-299 | A quoted field that is empty or ends in the escape character, followed by a line-break character, raises `InvalidEscapedEscapeChar` |
| DsvReaderFields.QuotedLastField | src/Beffyman.DsvParser/DsvReader.cs:230-241 | A quoted field that closes at the last character yields its unquoted, collapsed text |
| DsvReaderFields.QuotedLastFieldKeepsQuotes | src/Beffyman.DsvParser/DsvReader.cs:227-251 | A quoted field followed by a final line break is yielded with both quotes kept |
| DsvReaderFields.PendingEscapeRejectsNextField | src/Beffyman.DsvParser/DsvReader.cs:294-299 | Quoting flags carried over a delimiter make the next field raise if it starts with an ordinary character |
| DsvReaderFields.BlankLineFails | src/Beffyman.DsvParser/DsvReader.cs:308-323 | Where line breaks are honoured, a field that starts right after a line break and opens with another line-break character raises the slice error |
| DsvReaderFields.LeadingDelimiterFails | src/Beffyman.DsvParser/DsvReader.cs:180-207 | An input starting with the delimiter yields an empty first field, then raises the slice error |
| DsvReaderFields.SingleCharacterRepeats | src/Beffyman.DsvParser/DsvReader.cs:180-265 | On a one-character input, each call yields the whole input as a new row and leaves the cursor where it was |
| DsvReaderLine.CollectKeepsSlots | src/Beffyman.DsvParser/DsvReader.cs:115-121 | The loop keeps the slots already filled and stores the current value next. It never fills more slots than the array has, and raises the index error when it would |
| DsvReaderLine.CollectStopsAtRowEnd | src/Beffyman.DsvParser/DsvReader.cs:117-121 | The loop stops once the row counter has moved by one, or at the end of the input |
| DsvReaderLine.CollectHoldsPulls | src/Beffyman.DsvParser/DsvReader.cs:117-121 | The k-th slot the loop fills holds the value current after k pulls |
| DsvReaderLine.CollectStaysInRow | src/Beffyman.DsvParser/DsvReader.cs:117-121 | Every pull but the last leaves the row counter at its starting value |
| DsvReaderLine.CollectEndsWithPulls | src/Beffyman.DsvParser/DsvReader.cs:117-121 | With n slots filled, either pull n-1 moved the row counter and the reader stays there, or it did not and pull n found no field and the reader is left where that pull left it |
| DsvReaderLine.ReadsRowUnique | src/Beffyman.DsvParser/DsvReader.cs:117-121 | From a given state at most one row and one field count fit the reference `ReadsRow`: the first field found outside the row, or the first pull that finds nothing, fixes where the row ends |
| DsvReaderLine.CollectReadsRow | src/Beffyman.DsvParser/DsvReader.cs:113-121 | The loop's slots, padded with unset slots up to `ColumnCount` once that is fixed, form the row `ReadsRow` describes |
| DsvReaderLine.CollectSucceeds | src/Beffyman.DsvParser/DsvReader.cs:111-121 | The loop returns a row when the pulls find fields that stay in the row up to one that moves the row counter or is followed by a pull finding nothing, and those fields fit the array |
| DsvReaderLine.ReadLine | src/Beffyman.DsvParser/DsvReader.cs:109-154 | A row has at least one field, starting with the current value. It leaves the reader at the next row or at the end. Once the column count is fixed, it has exactly that many slots. For some n, slots 0..n-1 hold the values after 0..n-1 pulls, and the slots after them are unset. Every pull before pull n-1 stays in the row. The reader ends where pull n-1 moved the row counter, or where pull n found no field. Conversely, whenever some row fits `ReadsRow`, `ReadLine` does not raise |
| DsvReaderLine.ReadLineHoldsPulls | src/Beffyman.DsvParser/DsvReader.cs:109-154 | When `ReadLine` returns a row, each slot holds the value after that many pulls, except for an unset tail padding a short row when the column count is fixed, and no other row fits `ReadsRow` |
| DsvReaderLine.ReadsRowIsRead | src/Beffyman.DsvParser/DsvReader.cs:109-154 | Any row that fits `ReadsRow` is exactly what `ReadLine` returns. With `ReadLine`'s own contract this makes `ReadsRow` an exact description of it |
| DsvReaderLineArrays.Resize | src/Beffyman.DsvParser/DsvReader.cs:139 | The resized array keeps the old slots that fit and leaves the rest empty |
| DsvReaderLineArrays.Append | src/Beffyman.DsvParser/DsvReader.cs:135-142 | Storing into a full array doubles it first, and the stored slots are the old ones plus the new value |
| DsvReaderLineArrays.ReadLineFilled | src/Beffyman.DsvParser/DsvReader.cs:111-124 | The fixed-array loop computes the row `ReadLine` defines |
| DsvReaderLineArrays.ReadLineGrowing | src/Beffyman.DsvParser/DsvReader.cs:125-153 | The doubling loop computes the row `ReadLine` defines. Its capacity is 4 doubled some number of times, and less than twice the field count once past 4 |
| DsvReaderLineArrays.ReadLineArrays | src/Beffyman.DsvParser/DsvReader.cs:109-154 | Both paths together compute `ReadLine` |
| DsvParser.LoopAppendsLines | src/Beffyman.DsvParser/DsvParser.cs:69-80 | Past the first pass, the loop appends every row read to the rows, in order |
| DsvParser.LoopKeepsLines | src/Beffyman.DsvParser/DsvParser.cs:69-80 | The loop keeps every row the reader hands out, taking the first as columns on the first pass. A reader failure is the loop's failure |
| DsvParser.ParseSplitsHeader | src/Beffyman.DsvParser/DsvParser.cs:63-83 | With headers the first row is the columns and the rest are the rows. Without headers the columns are empty and every row is kept. A raise leaves no partial result |
| DsvParser.LoopEnds | src/Beffyman.DsvParser/DsvParser.cs:69-80 | A loop whose rounds each move the cursor ends within the fuel bound |
| DsvParser.LoopFuelSuffices | src/Beffyman.DsvParser/DsvParser.cs:69-80 | A loop that ends gives the same outcome with any more fuel |
| DsvParser.LoopNeverEnds | src/Beffyman.DsvParser/DsvParser.cs:69-80 | Rounds that keep returning to the first character never let the loop end |
| DsvParser.EndlessRound | src/Beffyman.DsvParser/DsvParser.cs:69-80 | On a one-character input, each round reads a row of two fields, both the whole input, and returns to the first character |
| DsvParser.RoundAdvances | src/Beffyman.DsvParser/DsvParser.cs:69-80 | A round that reads a row from past the first character moves the cursor, and only while two characters remain |
| DsvParser.RoundLeavesStart | src/Beffyman.DsvParser/DsvParser.cs:69-80 | Except on the endless input, a first round that reads a row moves the cursor off the first character |
| DsvParser.EndlessDiverges | src/Beffyman.DsvParser/DsvParser.cs:69-80 | On the endless input the loop never ends, whatever the fuel |
| DsvParser.LoopEndsFromStart | src/Beffyman.DsvParser/DsvParser.cs:69-80 | A loop whose first round leaves the first character ends, given two rounds more than the input is long |
| DsvParser.LeadingDelimiterRaises | src/Beffyman.DsvParser/DsvParser.cs:63-83 | An input starting with the delimiter makes construction raise the slice error |
| DsvParser.OthersEnd | src/Beffyman.DsvParser/DsvParser.cs:63-83 | Every input except the endless one parses to an end: rows, or an exception |
| DsvParser.ParseDivergesOnlyWhenEndless | src/Beffyman.DsvParser/DsvParser.cs:63-83 | Construction fails to end exactly on a one-character input other than the delimiter |
| DsvParser.ParseFuelSuffices | src/Beffyman.DsvParser/DsvParser.cs:63-83 | Any fuel of at least the input length plus two gives the parse's outcome |
| DsvData.MatchesFromAll | src/Beffyman.DsvParser/DsvData.cs:243-244 | The character-by-character comparison holds exactly when every remaining character of the line break matches |
| DsvData.CheckLineFeed | src/Beffyman.DsvParser/DsvData.cs:236-248 | True exactly when the line break ends just before `i`, that is, `i` is at least its length and the text before `i` ends with it |
| DsvData.FirstPassSteps | src/Beffyman.DsvParser/DsvData.cs:116-153 | Each character of the first pass counts a delimiter only while nothing is quoted, and an escape character switches quoting on for good |
| DsvData.FirstPassStopsAtFirstLine | src/Beffyman.DsvParser/DsvData.cs:116-153 | The first pass stops at the first unquoted character after a line break. It sets the columns to the delimiters before that character plus one |
| DsvData.FirstPassMissesOnlyEscaped | src/Beffyman.DsvParser/DsvData.cs:116-153 | The first pass finds no column count only when every place that would close the first line comes after an escape character |
| DsvData.ExpandRowAllocation | src/Beffyman.DsvParser/DsvData.cs:220-234 | When at most one free slot is left, the array grows to `max(2·length, 4)`, which leaves room for the next row; otherwise it is returned unchanged. The old rows stay as a prefix, with empty slots after them |
| DsvData.StepKeepsShape | src/Beffyman.DsvParser/DsvData.cs:154-204 | One character of the second pass keeps every row at the column count and never stores a row past the array |
| DsvData.RunWithKeepsShape | src/Beffyman.DsvParser/DsvData.cs:154-205 | A loop whose every step keeps the shape keeps it to the end |
| DsvData.RunKeepsShape | src/Beffyman.DsvParser/DsvData.cs:154-205 | The whole second pass keeps every row at the column count |
| DsvData.SplitRowsMatchHeaders | src/Beffyman.DsvParser/DsvData.cs:56-218 | Every row of a split table is as wide as the headers, and the headers have the known column count when one is given |
| DsvData.SplitRejectsNegativeCounts | src/Beffyman.DsvParser/DsvData.cs:97-107 | `DsvData` raises the negative-allocation error exactly when a known row or column count is negative; no pass raises it |
| DsvDataRender.FirstPassOnRendered | src/Beffyman.DsvParser/DsvData.cs:116-153 | On written rows, the first pass finds the width of the first row and stops at the first character of the second row |
| DsvDataRender.SplitDropsSingleRow | src/Beffyman.DsvParser/DsvData.cs:113-153 | A single written row splits to an empty table |
| DsvDataRender.FieldsRun | src/Beffyman.DsvParser/DsvData.cs:157-163 | The second pass cuts the fields of a written row at its delimiters, each cell holding the text between them |
| DsvDataRender.MiddleRowRun | src/Beffyman.DsvParser/DsvData.cs:171-202 | A row followed by another is stored whole at its line break, with the break trimmed from its last field |
| DsvDataRender.LastRowRun | src/Beffyman.DsvParser/DsvData.cs:164-170 | The last row is stored whole at the last character, with the final line break trimmed |
| DsvDataRender.RowsRun | src/Beffyman.DsvParser/DsvData.cs:154-204 | From a row start, the second pass stores the remaining written rows in order, the first as the headers when they are still to come |
| DsvDataRender.SplitReadsRendered | src/Beffyman.DsvParser/DsvData.cs:56-218 | Splitting written rows gives them back. With headers, the first row is the headers and the others the rows. Without headers, the headers are null cells and every row is a row |

## Left out

- Decoding bytes through an `Encoding`, and the constructors from `string`, `char[]` and `ReadOnlyMemory`: these are foreign calls or copies, so the model starts from a `string`.
- `Span` and `Memory` mechanics: a borrowed field is its `(start, length)` slice. An owned field, built by `Replace`, is represented by the slice it came from, and `FieldText` gives its characters.
- 32-bit `int` limits on lengths and counters: counters are `nat`, and inputs long enough to overflow are not modelled.
- Array identity: rows and the `DsvData` row buffer are sequence values. Aliasing between returned rows is not modelled.
- `GenericDsvParser`, `DsvParserTypeMapping` and `DsvParserMapperDelegate`: they call user callbacks and reader members that are not in this `DsvReader`.
- `NewLineType` and `DsvOptions` beyond the option fields the parsers read: they are configuration only. The preset options are constants.
- DsvParser.Loop: the `while` loop is bounded by a fuel argument. A loop that runs out of fuel is reported as `Diverges`, and the lemmas show this happens, for any fuel, exactly on the endless one-character input.
- DsvDataRender.SplitReadsRendered: proved only for text written from plain fields (no delimiter, escape character or line-break character inside a field), with no known column or row count, at least two rows, all rows as wide as the first, a non-empty first field in every row, and a line break free of the delimiter and the escape character. Quoted text in `DsvData` is not characterised.
- DsvData.SplitRowsMatchHeaders: states the shape of a split table for every input, but not its contents. Contents are stated for written rows only.
- Byte-order-mark skipping and whitespace trimming: the code has no such step, so neither is modelled.
