/** The comparison of a file with memory in scripts/bincompare.py, its 16-column grid and its bad-character list. */
module BinCompare {
  import opened Options
  import opened HexText
  import opened Sequences
  import BytearrayTable

  const COLUMNS := 16
  const MINIMUM := 8
  const PADDING := "--"

  /** What the comparison loop leaves behind; `table` holds a file cell and a memory cell for each byte. */
  datatype Comparison = Comparison(table: seq<(string, string)>, badchars: string, corrupted: int)

  datatype Row = Row(caption: string, cells: seq<string>, source: string)

  datatype Outcome =
    | TooShort
    | Unreachable
    | IndexError
    | Report(rows: seq<Row>, corruptedAfter: Option<int>, badchars: Option<string>)

  predicate Differs(file: seq<Byte>, memory: seq<Byte>, i: nat)
    requires i < |file| && i < |memory|
  {
    file[i] != memory[i]
  }

  /** The table after the first n bytes. */
  function TableOf(file: seq<Byte>, memory: seq<Byte>, n: nat): (table: seq<(string, string)>)
    requires n <= |file| && n <= |memory|
    ensures |table| == n
    ensures forall i :: 0 <= i < n ==>
                          table[i] == (ByteHex(file[i]), if Differs(file, memory, i) then ByteHex(memory[i]) else "  ")
  {
    if n == 0 then []
    else
      TableOf(file, memory, n - 1)
      + [(ByteHex(file[n - 1]), if Differs(file, memory, n - 1) then ByteHex(memory[n - 1]) else "  ")]
  }

  function BadBytes(file: seq<Byte>, memory: seq<Byte>, n: nat): seq<Byte>
    requires n <= |file| && n <= |memory|
  {
    if n == 0 then []
    else if Differs(file, memory, n - 1) then BadBytes(file, memory, n - 1) + [file[n - 1]]
    else BadBytes(file, memory, n - 1)
  }

  function CorruptedAfter(file: seq<Byte>, memory: seq<Byte>, n: nat): int
    requires n <= |file| && n <= |memory|
  {
    if n == 0 || !Differs(file, memory, n - 1) then -1
    else if CorruptedAfter(file, memory, n - 1) == -1 then n - 1
    else CorruptedAfter(file, memory, n - 1)
  }

  function JoinHex(bytes: seq<Byte>): string {
    if bytes == [] then ""
    else if |bytes| == 1 then ByteHex(bytes[0])
    else JoinHex(bytes[..|bytes| - 1]) + ", " + ByteHex(bytes[|bytes| - 1])
  }

  lemma JoinHexSnoc(bytes: seq<Byte>, b: Byte)
    ensures JoinHex(bytes + [b]) == if bytes == [] then ByteHex(b) else JoinHex(bytes) + ", " + ByteHex(b)
    ensures bytes != [] ==> |JoinHex(bytes)| > 0
  {
    SnocFront(bytes, b);
  }

  /**
    * The comparison loop. The source pads a short memory only from one byte past its end, so a memory that is
    * shorter than the file always ends in an index error before that branch.
    */
  method Compare(file: seq<Byte>, memory: seq<Byte>) returns (result: Option<Comparison>)
    ensures result == if |memory| < |file| then None
                      else Some(Comparison(TableOf(file, memory, |file|), JoinHex(BadBytes(file, memory, |file|)),
                                           CorruptedAfter(file, memory, |file|)))
  {
    var table: seq<(string, string)> := [];
    var badchars := "";
    var corrupted := -1;
    for cnt := 0 to |file|
      invariant cnt <= |memory|
      invariant table == TableOf(file, memory, cnt)
      invariant badchars == JoinHex(BadBytes(file, memory, cnt))
      invariant corrupted == CorruptedAfter(file, memory, cnt)
    {
      var hexchar := ByteHex(file[cnt]);
      if cnt > |memory| {
        table := table + [(hexchar, "--")];
        corrupted := -1;
      } else if cnt == |memory| {
        return None;
      } else if file[cnt] == memory[cnt] {
        table := table + [(hexchar, "  ")];
        corrupted := -1;
      } else {
        table := table + [(hexchar, ByteHex(memory[cnt]))];
        JoinHexSnoc(BadBytes(file, memory, cnt), file[cnt]);
        if |badchars| == 0 {
          badchars := hexchar;
        } else {
          badchars := badchars + ", " + hexchar;
        }
        if corrupted == -1 {
          corrupted := cnt;
        }
      }
    }
    return Some(Comparison(table, badchars, corrupted));
  }

  // ---------- what the comparison says ----------

  /** The reported offset starts the longest run of differing bytes that reaches the end of the file. */
  lemma {:induction false} CorruptionIsFinalRun(file: seq<Byte>, memory: seq<Byte>, n: nat)
    requires n <= |file| && n <= |memory|
    ensures var c := CorruptedAfter(file, memory, n);
            && (c == -1 <==> n == 0 || file[n - 1] == memory[n - 1])
            && (c != -1 ==> 0 <= c < n && (forall i :: c <= i < n ==> file[i] != memory[i])
                            && (c > 0 ==> file[c - 1] == memory[c - 1]))
  {
    if n > 0 { CorruptionIsFinalRun(file, memory, n - 1); }
  }

  /** The offsets of the differing bytes, in order. */
  ghost function Positions(file: seq<Byte>, memory: seq<Byte>, n: nat): (at: seq<nat>)
    requires n <= |file| && n <= |memory|
    ensures forall k :: 0 <= k < |at| ==> at[k] < n && Differs(file, memory, at[k])
    ensures forall j, k :: 0 <= j < k < |at| ==> at[j] < at[k]
    ensures forall i :: 0 <= i < n && Differs(file, memory, i) ==> i in at
  {
    if n == 0 then []
    else Positions(file, memory, n - 1) + if Differs(file, memory, n - 1) then [n - 1] else []
  }

  lemma {:induction false} BadBytesInOrder(file: seq<Byte>, memory: seq<Byte>, n: nat)
    requires n <= |file| && n <= |memory|
    ensures Selects(BadBytes(file, memory, n), file, Positions(file, memory, n))
  {
    if n > 0 {
      var bad, at := BadBytes(file, memory, n - 1), Positions(file, memory, n - 1);
      BadBytesInOrder(file, memory, n - 1);
      if Differs(file, memory, n - 1) {
        assert Selects(bad + [file[n - 1]], file, at + [n - 1]);
      } else {
        assert at + [] == at;
      }
    }
  }

  /** `bytes` are the file's bytes at the offsets `at`. */
  ghost predicate Selects(bytes: seq<Byte>, file: seq<Byte>, at: seq<nat>) {
    |bytes| == |at| && forall k :: 0 <= k < |at| ==> at[k] < |file| && bytes[k] == file[at[k]]
  }

  // ---------- the grid ----------

  function PrintLine(data: seq<string>): (cells: seq<string>)
    requires |data| <= COLUMNS
    ensures |cells| == COLUMNS && data <= cells
    ensures forall i :: |data| <= i < COLUMNS ==> cells[i] == PADDING
  {
    data + seq(COLUMNS - |data|, _ => PADDING)
  }

  /** Python's "{:02x}".format(n). */
  function Offset(n: nat): (s: string)
    ensures AllHex(s) && HexValue(s) == n
  {
    if n < 16 then
      var s := "0" + [DigitChar(n)];
      assert s[..1] == "0" && "0"[..0] == "";
      s
    else HexDigits(n)
  }

  function Column(table: seq<(string, string)>, file: bool): (cells: seq<string>)
    ensures |cells| == |table|
    ensures forall i :: 0 <= i < |table| ==> cells[i] == if file then table[i].0 else table[i].1
  {
    seq(|table|, i requires 0 <= i < |table| => if file then table[i].0 else table[i].1)
  }

  /** The 16 entries from `line` on, or as many as there are. */
  function Part(table: seq<(string, string)>, line: nat): (part: seq<(string, string)>)
    requires line <= |table|
    ensures |part| <= COLUMNS
  {
    table[line..if line + COLUMNS <= |table| then line + COLUMNS else |table|]
  }

  function RowPair(table: seq<(string, string)>, line: nat): seq<Row>
    requires line <= |table|
  {
    [Row(Offset(line), PrintLine(Column(Part(table, line), true)), "file"),
     Row("  ", PrintLine(Column(Part(table, line), false)), "memory")]
  }

  /** The rows from offset `line` on, two for each 16 bytes. */
  function Grid(table: seq<(string, string)>, line: nat): seq<Row>
    decreases |table| - line
  {
    if line >= |table| then [] else RowPair(table, line) + Grid(table, line + COLUMNS)
  }

  method PrintGrid(table: seq<(string, string)>) returns (rows: seq<Row>)
    ensures rows == Grid(table, 0)
  {
    rows := [];
    var line := 0;
    while line < |table|
      invariant rows + Grid(table, line) == Grid(table, 0)
      decreases |table| - line
    {
      var pdata1, pdata2 := SplitPart(table, line);
      var pair := [Row(Offset(line), PrintLine(pdata1), "file"), Row("  ", PrintLine(pdata2), "memory")];
      AppendAssociates(rows, pair, Grid(table, line + COLUMNS));
      rows := rows + pair;
      line := line + COLUMNS;
    }
  }

  /** The inner loop, which fills the two lists of one line. */
  method SplitPart(table: seq<(string, string)>, line: nat) returns (pdata1: seq<string>, pdata2: seq<string>)
    requires line < |table|
    ensures pdata1 == Column(Part(table, line), true) && pdata2 == Column(Part(table, line), false)
  {
    pdata1, pdata2 := [], [];
    ghost var part := Part(table, line);
    for i := line to line + COLUMNS
      invariant |pdata1| == |pdata2| == if i < |table| then i - line else |part|
      invariant forall k :: 0 <= k < |pdata1| ==> pdata1[k] == part[k].0 && pdata2[k] == part[k].1
    {
      if i < |table| {
        pdata1 := pdata1 + [table[i].0];
        pdata2 := pdata2 + [table[i].1];
      }
    }
  }

  /** The whole command, from the file's bytes and the memory that could be read. */
  method DoInvoke(file: seq<Byte>, memory: Option<seq<Byte>>) returns (outcome: Outcome)
    ensures outcome == OutcomeOf(file, memory) && IsOutcome(file, memory, outcome)
  {
    OutcomeIsOutcome(file, memory);
    if |file| < MINIMUM { return TooShort; }
    if memory.None? { return Unreachable; }
    var compared := Compare(file, memory.value);
    if compared.None? { return IndexError; }
    var rows := PrintGrid(compared.value.table);
    return Report(rows, if compared.value.corrupted > -1 then Some(compared.value.corrupted) else None,
                  if compared.value.badchars == "" then None else Some(compared.value.badchars));
  }

  function OutcomeOf(file: seq<Byte>, memory: Option<seq<Byte>>): Outcome {
    if |file| < MINIMUM then TooShort
    else if memory.None? then Unreachable
    else if |memory.value| < |file| then IndexError
    else
      var corrupted := CorruptedAfter(file, memory.value, |file|);
      var badchars := JoinHex(BadBytes(file, memory.value, |file|));
      Report(Grid(TableOf(file, memory.value, |file|), 0), if corrupted > -1 then Some(corrupted) else None,
             if badchars == "" then None else Some(badchars))
  }

  // ---------- reading the grid back ----------

  function Unpadded(cells: seq<string>): seq<string> {
    if cells == [] then []
    else (if cells[0] == PADDING then [] else [cells[0]]) + Unpadded(cells[1..])
  }

  /** All the cells printed for one source, in order, without the padding. */
  function CellsOf(rows: seq<Row>, source: string): seq<string> {
    if rows == [] then []
    else (if rows[0].source == source then Unpadded(rows[0].cells) else []) + CellsOf(rows[1..], source)
  }

  lemma {:induction false} UnpaddedLine(data: seq<string>, padding: nat)
    requires PADDING !in data
    ensures Unpadded(data + seq(padding, _ => PADDING)) == data
  {
    var cells := data + seq(padding, _ => PADDING);
    if data != [] {
      assert cells[1..] == data[1..] + seq(padding, _ => PADDING);
      UnpaddedLine(data[1..], padding);
      HeadTail(data);
    } else if padding > 0 {
      assert cells[1..] == data + seq(padding - 1, _ => PADDING);
      UnpaddedLine(data, padding - 1);
    }
  }

  lemma {:induction false} GridColumns(table: seq<(string, string)>, line: nat, file: bool)
    requires PADDING !in Column(table, file)
    ensures CellsOf(Grid(table, line), Source(file)) == if line < |table| then Column(table, file)[line..] else []
    decreases |table| - line
  {
    if line < |table| {
      var rest := Grid(table, line + COLUMNS);
      GridColumns(table, line + COLUMNS, file);
      TwoRows(RowPair(table, line)[0], RowPair(table, line)[1], rest, file);
      assert RowPair(table, line) + rest == [RowPair(table, line)[0], RowPair(table, line)[1]] + rest;
      PartPrintsUnpadded(table, line, file);
      RestOfColumn(table, line, file);
    }
  }

  /** The cells of one line are a slice of the column, and no padding. */
  lemma PartIsSlice(table: seq<(string, string)>, line: nat, file: bool)
    requires line < |table|
    ensures var data, cells := Column(Part(table, line), file), Column(table, file);
            |data| <= COLUMNS && line + |data| <= |cells| && data == cells[line..line + |data|]
  {
    var data, cells := Column(Part(table, line), file), Column(table, file);
    assert forall k :: 0 <= k < |data| ==> data[k] == cells[line + k];
  }

  lemma PartPrintsUnpadded(table: seq<(string, string)>, line: nat, file: bool)
    requires line < |table| && PADDING !in Column(table, file)
    ensures Unpadded(PrintLine(Column(Part(table, line), file))) == Column(Part(table, line), file)
  {
    var data, cells := Column(Part(table, line), file), Column(table, file);
    PartIsSlice(table, line, file);
    assert forall k :: 0 <= k < |data| ==> data[k] in cells;
    UnpaddedLine(data, COLUMNS - |data|);
  }

  lemma RestOfColumn(table: seq<(string, string)>, line: nat, file: bool)
    requires line < |table|
    ensures var data, cells := Column(Part(table, line), file), Column(table, file);
            cells[line..] == data + if line + COLUMNS < |table| then cells[line + COLUMNS..] else []
  {
    PartIsSlice(table, line, file);
  }

  function Source(file: bool): string {
    if file then "file" else "memory"
  }

  lemma TwoRows(first: Row, second: Row, rest: seq<Row>, file: bool)
    requires first.source == Source(true) && second.source == Source(false)
    ensures CellsOf([first, second] + rest, Source(file))
         == Unpadded(if file then first.cells else second.cells) + CellsOf(rest, Source(file))
  {
    var rows := [first, second] + rest;
    assert rows[1..] == [second] + rest && rows[1..][1..] == rest;
    assert Source(true)[0] != Source(false)[0];
  }

  lemma {:induction false} GridSize(table: seq<(string, string)>, line: nat)
    requires line < |table| + COLUMNS
    ensures |Grid(table, line)| == 2 * ((|table| - line + COLUMNS - 1) / COLUMNS)
    decreases |table| - line
  {
    if line < |table| {
      GridSize(table, line + COLUMNS);
      OneMoreLine(|table| - line);
    }
  }

  lemma OneMoreLine(left: nat)
    ensures (left + COLUMNS - 1) / COLUMNS == (left - 1) / COLUMNS + 1
  {
  }

  /** The grid has two rows for each 16 bytes, and without the padding its cells are the table again. */
  lemma GridRoundTrip(file: seq<Byte>, memory: seq<Byte>)
    requires |file| <= |memory|
    ensures var table := TableOf(file, memory, |file|);
            var rows := Grid(table, 0);
            && |rows| == 2 * ((|file| + COLUMNS - 1) / COLUMNS)
            && CellsOf(rows, "file") == Column(table, true)
            && CellsOf(rows, "memory") == Column(table, false)
  {
    var table := TableOf(file, memory, |file|);
    assert PADDING[0] == '-';
    assert forall b: Byte :: IsHexDigit(ByteHex(b)[0]);
    assert PADDING !in Column(table, true) && PADDING !in Column(table, false) by {
      assert "  "[0] != PADDING[0];
    }
    GridSize(table, 0);
    GridColumns(table, 0, true);
    GridColumns(table, 0, false);
  }

  /** Every 16 bytes give a file row captioned with their offset and a memory row, of 16 cells each. */
  lemma {:induction false} GridRows(table: seq<(string, string)>, line: nat, k: nat)
    requires line < |table| + COLUMNS && 2 * k < |Grid(table, line)|
    ensures var rows := Grid(table, line);
            && 2 * k + 1 < |rows|
            && rows[2 * k].source == "file" && HexValuesTo(rows[2 * k].caption, line + k * COLUMNS)
            && rows[2 * k + 1].source == "memory" && rows[2 * k + 1].caption == "  "
            && |rows[2 * k].cells| == COLUMNS && |rows[2 * k + 1].cells| == COLUMNS
    decreases |table| - line
  {
    GridSize(table, line);
    if k > 0 {
      GridRows(table, line + COLUMNS, k - 1);
      var rest := Grid(table, line + COLUMNS);
      assert Grid(table, line)[2 * k] == rest[2 * (k - 1)] && Grid(table, line)[2 * k + 1] == rest[2 * (k - 1) + 1];
    }
  }

  predicate HexValuesTo(s: string, n: nat) {
    AllHex(s) && HexValue(s) == n
  }

  // ---------- feeding the bad characters back to the bytearray command ----------

  lemma {:induction false} CleanJoinHex(bytes: seq<Byte>)
    ensures BytearrayTable.CleanHex(JoinHex(bytes)) == HexBytes(bytes)
  {
    if |bytes| == 1 {
      BytearrayTable.CleanHexKeepsHex(ByteHex(bytes[0]));
      assert HexBytes(bytes) == ByteHex(bytes[0]);
    } else if |bytes| > 1 {
      var front, last := bytes[..|bytes| - 1], bytes[|bytes| - 1];
      CleanJoinHex(front);
      BytearrayTable.CleanHexConcat(JoinHex(front) + ", ", ByteHex(last));
      BytearrayTable.CleanHexConcat(JoinHex(front), ", ");
      BytearrayTable.CleanHexKeepsHex(ByteHex(last));
      assert BytearrayTable.CleanHex(", ") == "";
      HexBytesConcat(front, [last]);
      assert HexBytes([last]) == ByteHex(last);
      assert bytes == front + [last];
    }
  }

  ghost predicate DiffersSomewhere(file: seq<Byte>, memory: seq<Byte>, b: Byte)
    requires |file| <= |memory|
  {
    exists i :: 0 <= i < |file| && file[i] == b && Differs(file, memory, i)
  }

  lemma BadBytesAreTheDiffering(file: seq<Byte>, memory: seq<Byte>, b: Byte)
    requires |file| <= |memory|
    ensures b in BadBytes(file, memory, |file|) <==> DiffersSomewhere(file, memory, b)
  {
    var bad, at := BadBytes(file, memory, |file|), Positions(file, memory, |file|);
    BadBytesInOrder(file, memory, |file|);
    if i :| 0 <= i < |file| && file[i] == b && Differs(file, memory, i) {
      var k :| 0 <= k < |at| && at[k] == i;
      assert bad[k] == b;
    }
    if b in bad {
      var k :| 0 <= k < |bad| && bad[k] == b;
      assert file[at[k]] == b && Differs(file, memory, at[k]);
    }
  }

  /** Giving the printed bad characters to `bytearray -b` excludes exactly the bytes that differed in memory. */
  lemma BadCharactersRoundTrip(file: seq<Byte>, memory: seq<Byte>, b: Byte)
    requires |file| <= |memory|
    ensures var next := BytearrayTable.Run(JoinHex(BadBytes(file, memory, |file|)));
            next.Some? && (b !in next.value.0 <==> DiffersSomewhere(file, memory, b))
  {
    var bad := BadBytes(file, memory, |file|);
    CleanJoinHex(bad);
    PairBytesOfHexBytes(bad);
    BadBytesAreTheDiffering(file, memory, b);
  }

  // ---------- what the command promises ----------

  /** Every outcome, by its condition, and the whole report. */
  ghost predicate IsOutcome(file: seq<Byte>, memory: Option<seq<Byte>>, outcome: Outcome) {
    match outcome
    case TooShort => |file| < 8
    case Unreachable => |file| >= 8 && memory.None?
    case IndexError => |file| >= 8 && memory.Some? && |memory.value| < |file|
    case Report(rows, corruptedAfter, badchars) =>
      && |file| >= 8 && memory.Some? && |memory.value| >= |file|
      && IsGrid(file, memory.value, rows)
      && IsCorruption(file, memory.value, corruptedAfter)
      && AreBadCharacters(file, memory.value, badchars)
  }

  /** The offset from which on all bytes differ, and before which one matches; none when the last byte matches. */
  predicate IsCorruption(file: seq<Byte>, memory: seq<Byte>, after: Option<int>)
    requires 0 < |file| <= |memory|
  {
    match after
    case None => file[|file| - 1] == memory[|file| - 1]
    case Some(c) => 0 <= c < |file| && (forall i :: c <= i < |file| ==> file[i] != memory[i])
                    && (c > 0 ==> file[c - 1] == memory[c - 1])
  }

  /** The file's bytes where the two differ, in order, two digits each and separated by commas; none if none differ. */
  ghost predicate AreBadCharacters(file: seq<Byte>, memory: seq<Byte>, badchars: Option<string>)
    requires |file| <= |memory|
  {
    exists at: seq<nat> :: AreDifferences(file, memory, at)
                           && match badchars
                              case None => at == []
                              case Some(text) => at != [] && IsHexList(text, file, at)
  }

  ghost predicate AreDifferences(file: seq<Byte>, memory: seq<Byte>, at: seq<nat>)
    requires |file| <= |memory|
  {
    && (forall j, k :: 0 <= j < k < |at| ==> at[j] < at[k])
    && (forall k :: 0 <= k < |at| ==> at[k] < |file| && file[at[k]] != memory[at[k]])
    && forall i :: 0 <= i < |file| && file[i] != memory[i] ==> i in at
  }

  predicate IsHexList(text: string, file: seq<Byte>, at: seq<nat>)
    requires forall k :: 0 <= k < |at| ==> at[k] < |file|
  {
    && |text| == 4 * |at| - 2
    && forall k :: 0 <= k < |at| ==> IsListed(text, file[at[k]], k)
  }

  predicate IsListed(text: string, b: Byte, k: nat) {
    && 4 * k + 2 <= |text| && IsByteText(text[4 * k..4 * k + 2], b)
    && (k > 0 ==> text[4 * k - 2..4 * k] == ", ")
  }

  /** Two rows for each 16 bytes. */
  predicate IsGrid(file: seq<Byte>, memory: seq<Byte>, rows: seq<Row>)
    requires |file| <= |memory|
  {
    |rows| == 2 * ((|file| + 15) / 16) && forall k :: 0 <= k < (|file| + 15) / 16 ==> IsRowPair(file, memory, rows, k)
  }

  predicate IsRowPair(file: seq<Byte>, memory: seq<Byte>, rows: seq<Row>, k: nat)
    requires |file| <= |memory|
  {
    2 * k + 1 < |rows| && IsFileRow(file, memory, rows[2 * k], rows[2 * k + 1], 16 * k)
  }

  /** The file's row and the memory's row for the 16 bytes from the offset `line` on. */
  predicate IsFileRow(file: seq<Byte>, memory: seq<Byte>, one: Row, two: Row, line: nat)
    requires |file| <= |memory|
  {
    && one.source == "file" && IsNumberText(one.caption, line, 2) && |one.cells| == 16
    && two.source == "memory" && two.caption == "  " && |two.cells| == 16
    && forall i :: 0 <= i < 16 ==> IsCellPair(file, memory, one.cells[i], two.cells[i], line + i)
  }

  /** The byte of the file, and that of the memory where it differs; padding behind the end. */
  predicate IsCellPair(file: seq<Byte>, memory: seq<Byte>, one: string, two: string, at: nat)
    requires |file| <= |memory|
  {
    if at >= |file| then one == "--" && two == "--"
    else IsByteText(one, file[at]) && if file[at] == memory[at] then two == "  " else IsByteText(two, memory[at])
  }

  lemma {:induction false} OffsetIs(n: nat)
    ensures IsNumberText(Offset(n), n, 2)
  {
    HexDigitsIs(n);
    if n < 16 {
      AlphabetAt(n);
    } else {
      HexDigitsIs(n / 16);
      assert HexDigits(n) == HexDigits(n / 16) + [DigitChar(n % 16)];
    }
  }

  /** What holds of the two rows printed for each offset holds of the pairs of the grid. */
  lemma {:induction false} GridAt(table: seq<(string, string)>, line: nat, k: nat, good: (Row, Row, nat) -> bool)
    requires line + 16 * k < |table|
    requires forall at: nat :: at < |table| ==> good(RowPair(table, at)[0], RowPair(table, at)[1], at)
    ensures var rows := Grid(table, line);
            2 * k + 1 < |rows| && good(rows[2 * k], rows[2 * k + 1], line + 16 * k)
    decreases k
  {
    if k > 0 {
      GridAt(table, line + COLUMNS, k - 1, good);
      PairBehind(RowPair(table, line), Grid(table, line + COLUMNS), k);
    } else {
      assert good(RowPair(table, line)[0], RowPair(table, line)[1], line);
    }
  }

  lemma PairBehind(pair: seq<Row>, rest: seq<Row>, k: nat)
    requires |pair| == 2 && 0 < k && 2 * k - 1 < |rest|
    ensures (pair + rest)[2 * k] == rest[2 * (k - 1)] && (pair + rest)[2 * k + 1] == rest[2 * (k - 1) + 1]
  {
  }

  lemma CellAt(table: seq<(string, string)>, line: nat, i: nat, file: bool)
    requires line < |table| && i < 16
    ensures PrintLine(Column(Part(table, line), file))[i]
         == if line + i >= |table| then "--" else if file then table[line + i].0 else table[line + i].1
  {
    var data := Column(Part(table, line), file);
    assert |data| == if line + 16 <= |table| then 16 else |table| - line;
  }

  lemma GridIsGrid(file: seq<Byte>, memory: seq<Byte>, table: seq<(string, string)>, rows: seq<Row>)
    requires |file| <= |memory| && table == TableOf(file, memory, |file|) && rows == Grid(table, 0)
    ensures IsGrid(file, memory, rows)
  {
    var good := (one: Row, two: Row, at: nat) => IsFileRow(file, memory, one, two, at);
    GridSize(table, 0);
    forall at: nat | at < |table| ensures good(RowPair(table, at)[0], RowPair(table, at)[1], at) {
      RowsArePair(file, memory, table, at);
    }
    forall k: nat | k < (|file| + 15) / 16 ensures IsRowPair(file, memory, rows, k) {
      GridAt(table, 0, k, good);
    }
  }

  /** The rows printed for an offset are those that describe the bytes there. */
  lemma RowsArePair(file: seq<Byte>, memory: seq<Byte>, table: seq<(string, string)>, line: nat)
    requires |file| <= |memory| && table == TableOf(file, memory, |file|) && line < |table|
    ensures IsFileRow(file, memory, RowPair(table, line)[0], RowPair(table, line)[1], line)
  {
    OffsetIs(line);
    forall i: nat | i < 16
      ensures IsCellPair(file, memory, RowPair(table, line)[0].cells[i], RowPair(table, line)[1].cells[i], line + i)
    {
      CellAt(table, line, i, true);
      CellAt(table, line, i, false);
      if line + i < |file| {
        ByteHexIs(file[line + i]);
        ByteHexIs(memory[line + i]);
      }
    }
  }

  lemma {:induction false} JoinIsList(bytes: seq<Byte>, k: nat)
    requires bytes != []
    ensures |JoinHex(bytes)| == 4 * |bytes| - 2
    ensures k < |bytes| ==> IsListed(JoinHex(bytes), bytes[k], k)
    decreases |bytes|
  {
    var n := |bytes| - 1;
    ByteHexIs(bytes[n]);
    if n == 0 {
      assert JoinHex(bytes)[0..2] == ByteHex(bytes[0]);
    } else {
      var front, last := JoinHex(bytes[..n]), ByteHex(bytes[n]);
      JoinIsList(bytes[..n], if k < n then k else 0);
      assert JoinHex(bytes) == front + ", " + last;
      if k < n { ListedBefore(front, ", " + last, bytes[k], k); }
      if k == n { ListedLast(front, last, bytes[n], n); }
      AppendAssociates(front, ", ", last);
    }
  }

  lemma ListedBefore(text: string, more: string, b: Byte, k: nat)
    requires IsListed(text, b, k)
    ensures IsListed(text + more, b, k)
  {
    assert (text + more)[4 * k..4 * k + 2] == text[4 * k..4 * k + 2];
    if k > 0 { assert (text + more)[4 * k - 2..4 * k] == text[4 * k - 2..4 * k]; }
  }

  lemma ListedLast(front: string, last: string, b: Byte, n: nat)
    requires n > 0 && |front| == 4 * n - 2 && IsByteText(last, b)
    ensures IsListed(front + ", " + last, b, n)
  {
    var text := front + ", " + last;
    assert text[4 * n..4 * n + 2] == last && text[4 * n - 2..4 * n] == ", ";
  }

  lemma BadAreBadCharacters(file: seq<Byte>, memory: seq<Byte>)
    requires |file| <= |memory|
    ensures var badchars := JoinHex(BadBytes(file, memory, |file|));
            AreBadCharacters(file, memory, if badchars == "" then None else Some(badchars))
  {
    var bad, at := BadBytes(file, memory, |file|), Positions(file, memory, |file|);
    BadBytesInOrder(file, memory, |file|);
    assert AreDifferences(file, memory, at);
    if bad != [] { JoinIsHexList(bad, file, at); }
  }

  lemma JoinIsHexList(bytes: seq<Byte>, file: seq<Byte>, at: seq<nat>)
    requires bytes != [] && Selects(bytes, file, at)
    ensures IsHexList(JoinHex(bytes), file, at) && JoinHex(bytes) != ""
  {
    JoinIsList(bytes, 0);
    forall k: nat | k < |at| ensures IsListed(JoinHex(bytes), file[at[k]], k) { JoinIsList(bytes, k); }
  }

  /** The command's outcome is the one that is promised. */
  lemma OutcomeIsOutcome(file: seq<Byte>, memory: Option<seq<Byte>>)
    ensures IsOutcome(file, memory, OutcomeOf(file, memory))
  {
    if |file| >= 8 && memory.Some? && |memory.value| >= |file| {
      var table := TableOf(file, memory.value, |file|);
      GridIsGrid(file, memory.value, table, Grid(table, 0));
      CorruptionIsFinalRun(file, memory.value, |file|);
      BadAreBadCharacters(file, memory.value);
    }
  }
}
