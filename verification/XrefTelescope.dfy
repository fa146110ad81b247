/** The recursive cross-reference search of scripts/xref-telescope.py and the tree it draws. */
module XrefTelescope {
  import opened Options
  import opened HexText
  import opened Sequences

  datatype Hit = Hit(addr: nat, text: string)

  datatype Section = Section(start: int, end: int, readable: bool, path: string)

  /** The debugged process: its maps, and GEF's own services as functions. */
  datatype Process = Process(
    maps: seq<Section>,
    bigEndian: bool,
    isHex: string -> bool,
    search: (string, int, int) -> seq<Hit>,
    pathAt: nat -> string,
    permissionAt: nat -> string)

  datatype Tree = Node(caption: string, kids: seq<Tree>)

  // ---------- the search pattern ----------

  function Slice(s: string, i: nat): string
    requires i <= |s|
  {
    s[i..if i + 2 <= |s| then i + 2 else |s|]
  }

  function BigEndianPieces(p: string, i: nat): (pieces: seq<string>)
    decreases |p| - i
  {
    if i >= |p| then [] else [Slice(p, i)] + BigEndianPieces(p, i + 2)
  }

  function LittleEndianPieces(p: string, i: int): seq<string>
    requires i <= |p|
    decreases i
  {
    if i <= 0 then [] else [Slice(p, i)] + LittleEndianPieces(p, i - 2)
  }

  function Pieces(p: string, bigEndian: bool): seq<string> {
    if bigEndian then BigEndianPieces(p, 2) else LittleEndianPieces(p, |p| - 2)
  }

  const ESCAPE := "\\\\x"

  function JoinEscaped(pieces: seq<string>): string {
    if pieces == [] then "" else ESCAPE + pieces[0] + JoinEscaped(pieces[1..])
  }

  /** What is handed to the memory search for a pattern given by the user or by an address. */
  function SearchText(proc: Process, pattern: string): string {
    if proc.isHex(pattern) then JoinEscaped(Pieces(pattern, proc.bigEndian)) else pattern
  }

  predicate IsHexLiteral(p: string) {
    |p| > 2 && p[..2] == "0x" && AllHex(p[2..])
  }

  lemma {:induction false} BigEndianPieceAt(p: string, i: nat, k: nat)
    requires i + 2 * k < |p|
    ensures k < |BigEndianPieces(p, i)| && BigEndianPieces(p, i)[k] == Slice(p, i + 2 * k)
    decreases k
  {
    if k > 0 { BigEndianPieceAt(p, i + 2, k - 1); }
  }

  lemma {:induction false} BigEndianCount(p: string, i: nat)
    requires i <= |p| + 1
    ensures |BigEndianPieces(p, i)| == (|p| + 1 - i) / 2
    decreases |p| - i
  {
    if i < |p| { BigEndianCount(p, i + 2); }
  }

  lemma {:induction false} LittleEndianPieceAt(p: string, i: int, k: nat)
    requires -1 <= i <= |p|
    ensures |LittleEndianPieces(p, i)| == (i + 1) / 2
    ensures k < (i + 1) / 2 ==> LittleEndianPieces(p, i)[k] == Slice(p, i - 2 * k)
    decreases i
  {
    if i > 0 { LittleEndianPieceAt(p, i - 2, if k > 0 then k - 1 else 0); }
  }

  /** The pieces of an even-digit literal are its digit pairs, from either end. */
  lemma PieceIsPair(p: string, bigEndian: bool, k: nat)
    requires |p| > 2 && |p| % 2 == 0
    ensures |Pieces(p, bigEndian)| == |p| / 2 - 1
    ensures k < |p| / 2 - 1 ==>
              Pieces(p, bigEndian)[k] == Slice(p, 2 + 2 * if bigEndian then k else |p| / 2 - 2 - k)
  {
    if bigEndian {
      BigEndianCount(p, 2);
      if k < |p| / 2 - 1 { BigEndianPieceAt(p, 2, k); }
    } else {
      LittleEndianPieceAt(p, |p| - 2, k);
    }
  }

  /** The two byte orders are each other's reverse exactly when the literal has an even number of digits. */
  lemma ByteOrdersMirror(p: string)
    requires IsHexLiteral(p)
    ensures Pieces(p, false) == Reversed(Pieces(p, true)) <==> |p| % 2 == 0
  {
    if |p| % 2 == 0 { EvenMirrors(p); } else { OddDiffers(p); }
  }

  lemma EvenMirrors(p: string)
    requires IsHexLiteral(p) && |p| % 2 == 0
    ensures Pieces(p, false) == Reversed(Pieces(p, true))
  {
    var little, big := Pieces(p, false), Pieces(p, true);
    PieceIsPair(p, true, 0);
    PieceIsPair(p, false, 0);
    forall k | 0 <= k < |little| ensures little[k] == big[|big| - 1 - k] {
      PieceIsPair(p, false, k);
      PieceIsPair(p, true, |big| - 1 - k);
    }
  }

  lemma OddDiffers(p: string)
    requires IsHexLiteral(p) && |p| % 2 == 1
    ensures Pieces(p, false) != Reversed(Pieces(p, true))
  {
    var little, big := Pieces(p, false), Pieces(p, true);
    BigEndianCount(p, 2);
    LittleEndianPieceAt(p, |p| - 2, 0);
    BigEndianPieceAt(p, 2, |big| - 1);
    assert |Reversed(big)[0]| == 1;
    assert little[0] == Slice(p, |p| - 2);
  }

  /** The bytes denoted by an escaped search text, two digits after each escape; None for any other text. */
  function EscapedBytes(text: string): Option<seq<Byte>> {
    if text == "" then Some([])
    else if |text| >= 5 && text[..3] == "\\\\x" && AllHex(text[3..5]) then
      match EscapedBytes(text[5..])
      case Some(rest) => Some([PairValue(text[3], text[4])] + rest)
      case None => None
    else None
  }

  function PieceByte(piece: string): Byte
    requires |piece| == 2 && AllHex(piece)
  {
    PairValue(piece[0], piece[1])
  }

  function NumberMsbFirst(bytes: seq<Byte>): nat {
    if bytes == [] then 0 else 256 * NumberMsbFirst(bytes[..|bytes| - 1]) + bytes[|bytes| - 1]
  }

  function NumberLsbFirst(bytes: seq<Byte>): nat {
    if bytes == [] then 0 else bytes[0] + 256 * NumberLsbFirst(bytes[1..])
  }

  function PieceBytes(pieces: seq<string>): (bytes: seq<Byte>)
    requires forall k :: 0 <= k < |pieces| ==> |pieces[k]| == 2 && AllHex(pieces[k])
    ensures |bytes| == |pieces|
    ensures forall k :: 0 <= k < |pieces| ==> bytes[k] == PieceByte(pieces[k])
  {
    if pieces == [] then [] else [PieceByte(pieces[0])] + PieceBytes(pieces[1..])
  }

  lemma {:induction false} EscapedPieces(pieces: seq<string>)
    requires forall k :: 0 <= k < |pieces| ==> |pieces[k]| == 2 && AllHex(pieces[k])
    ensures EscapedBytes(JoinEscaped(pieces)) == Some(PieceBytes(pieces))
  {
    if pieces != [] {
      EscapedPieces(pieces[1..]);
      EscapedStep(pieces[0], JoinEscaped(pieces[1..]));
    }
  }

  lemma EscapedStep(piece: string, rest: string)
    requires |piece| == 2 && AllHex(piece) && EscapedBytes(rest).Some?
    ensures EscapedBytes(ESCAPE + piece + rest) == Some([PieceByte(piece)] + EscapedBytes(rest).value)
  {
    var text := ESCAPE + piece + rest;
    assert text[..3] == ESCAPE;
    assert text[3..5] == piece && text[3] == piece[0] && text[4] == piece[1];
    assert text[5..] == rest;
  }

  lemma {:induction false} PairsWriteNumber(s: string)
    requires |s| % 2 == 0 && AllHex(s)
    ensures NumberMsbFirst(PairBytes(s)) == HexValue(s)
  {
    if s != "" {
      var front, last := s[..|s| - 2], PairValue(s[|s| - 2], s[|s| - 1]);
      PairsWriteNumber(front);
      LastPair(s);
      AppendPair(s);
      AppendByte(PairBytes(front), last);
    }
  }

  lemma AppendPair(s: string)
    requires |s| >= 2 && |s| % 2 == 0 && AllHex(s)
    ensures PairBytes(s) == PairBytes(s[..|s| - 2]) + [PairValue(s[|s| - 2], s[|s| - 1])]
  {
    var last := s[|s| - 2..];
    assert s == s[..|s| - 2] + last;
    PairBytesConcat(s[..|s| - 2], last);
    assert PairBytes(last) == [PairValue(last[0], last[1])];
  }

  lemma AppendByte(bytes: seq<Byte>, b: Byte)
    ensures NumberMsbFirst(bytes + [b]) == 256 * NumberMsbFirst(bytes) + b
  {
    SnocFront(bytes, b);
  }

  lemma LastPair(s: string)
    requires |s| >= 2 && AllHex(s)
    ensures HexValue(s) == 256 * HexValue(s[..|s| - 2]) + PairValue(s[|s| - 2], s[|s| - 1])
  {
    var most := s[..|s| - 1];
    assert most[..|most| - 1] == s[..|s| - 2];
  }

  lemma {:induction false} ReversalKeepsNumber(bytes: seq<Byte>)
    ensures NumberLsbFirst(Reversed(bytes)) == NumberMsbFirst(bytes)
  {
    if bytes != [] {
      var n := |bytes| - 1;
      ReversalKeepsNumber(bytes[..n]);
      assert Reversed(bytes)[1..] == Reversed(bytes[..n]);
    }
  }

  lemma PieceAt(p: string, bigEndian: bool, k: nat)
    requires IsHexLiteral(p) && |p| % 2 == 0 && k < |p| / 2 - 1
    ensures |Pieces(p, bigEndian)| == |p| / 2 - 1
    ensures Spells(Pieces(p, bigEndian)[k], PairBytes(p[2..])[if bigEndian then k else |p| / 2 - 2 - k])
  {
    PieceIsPair(p, bigEndian, k);
    SliceSpells(p, if bigEndian then k else |p| / 2 - 2 - k);
  }

  lemma SliceSpells(p: string, k: nat)
    requires IsHexLiteral(p) && |p| % 2 == 0 && k < |p| / 2 - 1
    ensures Spells(Slice(p, 2 + 2 * k), PairBytes(p[2..])[k])
  {
    var digits := p[2..];
    assert Slice(p, 2 + 2 * k) == [digits[2 * k], digits[2 * k + 1]];
  }

  /** Searching for an even-digit literal looks for the bytes of that number in the target's own order. */
  lemma SearchTextMeansNumber(proc: Process, p: string)
    requires IsHexLiteral(p) && |p| % 2 == 0 && proc.isHex(p)
    ensures var bytes := EscapedBytes(SearchText(proc, p));
            bytes.Some? && 2 * |bytes.value| == |p| - 2
            && HexValue(p[2..]) == if proc.bigEndian then NumberMsbFirst(bytes.value) else NumberLsbFirst(bytes.value)
  {
    var pieces := Pieces(p, proc.bigEndian);
    var written := PairBytes(p[2..]);
    PiecesSpell(p, proc.bigEndian);
    EscapedPieces(pieces);
    PairsWriteNumber(p[2..]);
    ReversalKeepsNumber(written);
  }

  lemma PiecesSpell(p: string, bigEndian: bool)
    requires IsHexLiteral(p) && |p| % 2 == 0
    ensures var pieces := Pieces(p, bigEndian);
            && (forall k :: 0 <= k < |pieces| ==> |pieces[k]| == 2 && AllHex(pieces[k]))
            && PieceBytes(pieces) == if bigEndian then PairBytes(p[2..]) else Reversed(PairBytes(p[2..]))
  {
    var pieces, written := Pieces(p, bigEndian), PairBytes(p[2..]);
    assert |pieces| == |written| by { PieceAt(p, bigEndian, 0); }
    forall k | 0 <= k < |pieces| ensures Spells(pieces[k], written[if bigEndian then k else |written| - 1 - k]) {
      PieceAt(p, bigEndian, k);
    }
    SpelledBytes(pieces, written, bigEndian);
  }

  predicate Spells(piece: string, b: Byte) {
    |piece| == 2 && AllHex(piece) && PieceByte(piece) == b
  }

  lemma SpelledBytes(pieces: seq<string>, written: seq<Byte>, forward: bool)
    requires |pieces| == |written|
    requires forall k :: 0 <= k < |pieces| ==> Spells(pieces[k], written[if forward then k else |written| - 1 - k])
    ensures forall k :: 0 <= k < |pieces| ==> |pieces[k]| == 2 && AllHex(pieces[k])
    ensures PieceBytes(pieces) == if forward then written else Reversed(written)
  {
  }

  // ---------- the hits ----------

  predicate Searched(section: Section) {
    section.readable && section.path != "[vvar]"
  }

  function SectionHits(proc: Process, maps: seq<Section>, text: string): seq<Hit> {
    if maps == [] then []
    else
      (if Searched(maps[0]) then proc.search(text, maps[0].start, maps[0].end - 1) else [])
      + SectionHits(proc, maps[1..], text)
  }

  function Hits(proc: Process, pattern: string): seq<Hit> {
    SectionHits(proc, proc.maps, SearchText(proc, pattern))
  }

  function Caption(proc: Process, hit: Hit): string {
    " " + Hex(hit.addr) + " " + proc.pathAt(hit.addr) + " " + proc.permissionAt(hit.addr) + " \"" + hit.text + "\""
  }

  /** The tree that the search finds: below each hit, the hits for its address. */
  function HitForest(proc: Process, pattern: string, depth: int): seq<Tree>
    decreases depth, 1, 0
  {
    if depth <= 0 then [] else Grow(proc, Hits(proc, pattern), depth)
  }

  function Grow(proc: Process, hits: seq<Hit>, depth: int): (forest: seq<Tree>)
    requires depth > 0
    ensures |forest| == |hits|
    decreases depth, 0, |hits|
  {
    if hits == [] then []
    else [Node(Caption(proc, hits[0]), HitForest(proc, Hex(hits[0].addr), depth - 1))] + Grow(proc, hits[1..], depth)
  }

  /** A hit is found exactly in a readable section other than [vvar]. */
  lemma {:induction false} HitsComeFromSearched(proc: Process, maps: seq<Section>, text: string, hit: Hit)
    ensures hit in SectionHits(proc, maps, text) <==>
            exists k :: 0 <= k < |maps| && FoundIn(proc, maps[k], text, hit)
  {
    if maps != [] {
      HitsComeFromSearched(proc, maps[1..], text, hit);
      if k :| 0 <= k < |maps| && FoundIn(proc, maps[k], text, hit) {
        assert k > 0 ==> FoundIn(proc, maps[1..][k - 1], text, hit);
      }
      if k :| 0 <= k < |maps[1..]| && FoundIn(proc, maps[1..][k], text, hit) {
        assert FoundIn(proc, maps[k + 1], text, hit);
      }
      assert FoundIn(proc, maps[0], text, hit) ==> 0 < |maps|;
    }
  }

  predicate FoundIn(proc: Process, section: Section, text: string, hit: Hit) {
    Searched(section) && hit in proc.search(text, section.start, section.end - 1)
  }

  /** Each node stands for one hit, in order, and below it stands the search for the hit's address. */
  lemma {:induction false} GrownNode(proc: Process, hits: seq<Hit>, depth: int, i: nat)
    requires depth > 0 && i < |hits|
    ensures Grow(proc, hits, depth)[i] == Node(Caption(proc, hits[i]), HitForest(proc, Hex(hits[i].addr), depth - 1))
    decreases |hits|
  {
    if i > 0 { GrownNode(proc, hits[1..], depth, i - 1); }
  }

  // ---------- the drawing ----------

  function Connector(more: bool): string {
    if more then " ├──" else " └──"
  }

  function Column(more: bool): string {
    if more then " │  " else "    "
  }

  /** The lines of a forest whose ancestors have already written `heading`. */
  function Render(forest: seq<Tree>, heading: string): (lines: seq<string>)
    decreases forest
  {
    if forest == [] then []
    else
      var more := |forest| > 1;
      [heading + Connector(more) + forest[0].caption]
      + Render(forest[0].kids, heading + Column(more))
      + Render(forest[1..], heading)
  }

  function Transcript(proc: Process, pattern: string, depth: int, heading: string): seq<string> {
    if depth <= 0 then []
    else (if heading == "" then [" ."] else []) + Render(HitForest(proc, pattern, depth), heading)
  }

  /** A hit's own line and all the lines below it. */
  function RenderedHit(proc: Process, hit: Hit, more: bool, depth: int, heading: string): seq<string> {
    [heading + Connector(more) + Caption(proc, hit)]
    + Render(HitForest(proc, Hex(hit.addr), depth - 1), heading + Column(more))
  }

  lemma RenderGrown(proc: Process, hits: seq<Hit>, more: bool, depth: int, heading: string)
    requires hits != [] && depth > 0 && more == (|hits| > 1)
    ensures Render(Grow(proc, hits, depth), heading)
         == RenderedHit(proc, hits[0], more, depth, heading) + Render(Grow(proc, hits[1..], depth), heading)
  {
    assert Grow(proc, hits, depth)[1..] == Grow(proc, hits[1..], depth);
  }

  lemma RootlessTranscript(proc: Process, pattern: string, depth: int, heading: string)
    requires heading != ""
    ensures Transcript(proc, pattern, depth, heading) == Render(HitForest(proc, pattern, depth), heading)
  {
  }

  /** The loop over the memory maps. */
  method Search(proc: Process, text: string) returns (locs: seq<Hit>)
    ensures locs == SectionHits(proc, proc.maps, text)
  {
    locs := [];
    for s := 0 to |proc.maps|
      invariant locs + SectionHits(proc, proc.maps[s..], text) == SectionHits(proc, proc.maps, text)
    {
      var section := proc.maps[s];
      var found := if Searched(section) then proc.search(text, section.start, section.end - 1) else [];
      assert proc.maps[s..][0] == section && proc.maps[s..][1..] == proc.maps[s + 1..];
      AppendAssociates(locs, found, SectionHits(proc, proc.maps[s + 1..], text));
      locs := locs + found;
    }
  }

  /** The recursive search; `lines` is what it prints. */
  method Telescope(proc: Process, pattern: string, depth: int, heading: string) returns (lines: seq<string>)
    ensures lines == Transcript(proc, pattern, depth, heading)
    decreases depth, 1
  {
    lines := [];
    if depth <= 0 { return; }
    var locs := Search(proc, SearchText(proc, pattern));
    if heading == "" {
      lines := [" ."];
    }
    var below := PrintHits(proc, locs, depth, heading);
    lines := lines + below;
  }

  /** The printing loop, with the recursive call for each hit. */
  method PrintHits(proc: Process, locs: seq<Hit>, depth: int, heading: string) returns (lines: seq<string>)
    requires depth > 0
    ensures lines == Render(Grow(proc, locs, depth), heading)
    decreases depth, 0
  {
    lines := [];
    ghost var whole := Render(Grow(proc, locs, depth), heading);
    assert locs[0..] == locs;
    for i := 0 to |locs|
      invariant lines + StillToPrint(proc, locs, i, depth, heading) == whole
    {
      var more := i != |locs| - 1;
      var line := heading + Connector(more) + Caption(proc, locs[i]);
      var below := Telescope(proc, Hex(locs[i].addr), depth - 1, heading + Column(more));
      HitPrinted(proc, locs, i, depth, heading, lines, below);
      lines := lines + ([line] + below);
    }
    assert StillToPrint(proc, locs, |locs|, depth, heading) == [];
  }

  ghost function StillToPrint(proc: Process, locs: seq<Hit>, i: nat, depth: int, heading: string): seq<string>
    requires depth > 0 && i <= |locs|
  {
    Render(Grow(proc, locs[i..], depth), heading)
  }

  lemma HitPrinted(proc: Process, locs: seq<Hit>, i: nat, depth: int, heading: string,
                   lines: seq<string>, below: seq<string>)
    requires depth > 0 && i < |locs|
    requires below == Transcript(proc, Hex(locs[i].addr), depth - 1, heading + Column(i != |locs| - 1))
    ensures lines + StillToPrint(proc, locs, i, depth, heading)
         == lines + ([heading + Connector(i != |locs| - 1) + Caption(proc, locs[i])] + below)
            + StillToPrint(proc, locs, i + 1, depth, heading)
  {
    var more := i != |locs| - 1;
    NextHit(proc, locs, i, more, depth, heading);
    RootlessTranscript(proc, Hex(locs[i].addr), depth - 1, heading + Column(more));
    AppendAssociates(lines, RenderedHit(proc, locs[i], more, depth, heading),
                     StillToPrint(proc, locs, i + 1, depth, heading));
  }

  lemma NextHit(proc: Process, locs: seq<Hit>, i: nat, more: bool, depth: int, heading: string)
    requires depth > 0 && i < |locs| && more == (i != |locs| - 1)
    ensures StillToPrint(proc, locs, i, depth, heading)
         == RenderedHit(proc, locs[i], more, depth, heading) + StillToPrint(proc, locs, i + 1, depth, heading)
  {
    assert locs[i..][0] == locs[i] && locs[i..][1..] == locs[i + 1..];
    RenderGrown(proc, locs[i..], more, depth, heading);
  }

  // ---------- reading the drawing back ----------

  /** One printed line: for each column whether it is open (a bar, or a tee in the last column), and its caption. */
  datatype Row = Row(columns: seq<bool>, caption: string)

  function ReadLine(line: string): Option<Row> {
    if |line| < 4 then None
    else
      match ReadCell(line[..4])
      case None => None
      case Some(Cell(true, more)) => Some(Row([more], line[4..]))
      case Some(Cell(false, more)) =>
        match ReadLine(line[4..])
        case Some(row) => Some(Row([more] + row.columns, row.caption))
        case None => None
  }

  /** Four characters of a line: a connector, which is the line's own last column, or an ancestor's column. */
  datatype Cell = Cell(own: bool, more: bool)

  function ReadCell(s: string): Option<Cell>
    requires |s| == 4
  {
    if s == " ├──" then Some(Cell(true, true))
    else if s == " └──" then Some(Cell(true, false))
    else if s == " │  " then Some(Cell(false, true))
    else if s == "    " then Some(Cell(false, false))
    else None
  }

  function ReadLines(lines: seq<string>): Option<seq<Row>> {
    if lines == [] then Some([])
    else
      match (ReadLine(lines[0]), ReadLines(lines[1..]))
      case (Some(row), Some(rows)) => Some([row] + rows)
      case _ => None
  }

  /** Collects the trees whose roots have `depth` columns before their own; it looks at indentation only. */
  function Collect(rows: seq<Row>, depth: nat): (result: (seq<Tree>, seq<Row>))
    ensures |result.1| <= |rows|
    decreases |rows|
  {
    if rows == [] || |rows[0].columns| != depth + 1 then ([], rows)
    else
      var (kids, afterKids) := Collect(rows[1..], depth + 1);
      var (siblings, rest) := Collect(afterKids, depth);
      ([Node(rows[0].caption, kids)] + siblings, rest)
  }

  function Recover(lines: seq<string>): Option<seq<Tree>> {
    match ReadLines(lines)
    case None => None
    case Some(rows) =>
      var (forest, rest) := Collect(rows, 0);
      if rest == [] then Some(forest) else None
  }

  /** Some line after line i is exactly c + 1 columns wide, and every line between the two is wider. */
  ghost predicate LaterSibling(rows: seq<Row>, i: nat, c: nat) {
    exists j :: i < j < |rows| && |rows[j].columns| == c + 1
                && forall k :: i < k < j ==> |rows[k].columns| > c + 1
  }

  ghost function Heading(columns: seq<bool>): string {
    if columns == [] then "" else Column(columns[0]) + Heading(columns[1..])
  }

  ghost function Rows(forest: seq<Tree>, columns: seq<bool>): (rows: seq<Row>)
    decreases forest
  {
    if forest == [] then []
    else
      var own := columns + [|forest| > 1];
      [Row(own, forest[0].caption)] + Rows(forest[0].kids, own) + Rows(forest[1..], columns)
  }

  lemma {:induction false} HeadingSnoc(columns: seq<bool>, more: bool)
    ensures Heading(columns + [more]) == Heading(columns) + Column(more)
  {
    if columns == [] {
      assert ([] + [more])[1..] == [];
    } else {
      ConcatTail(columns, [more]);
      AppendAssociates(Column(columns[0]), Heading(columns[1..]), Column(more));
      HeadingSnoc(columns[1..], more);
    }
  }

  lemma CellsAreReadBack(more: bool)
    ensures ReadCell(Connector(more)) == Some(Cell(true, more)) && ReadCell(Column(more)) == Some(Cell(false, more))
  {
    assert Connector(true)[1] != Connector(false)[1] && Column(true)[1] != Column(false)[1];
    assert Connector(true)[2] == Connector(false)[2] == '─' && Column(more)[2] == ' ';
  }

  /** Reads a line whose first cell is known. */
  lemma ReadFirstCell(cell: string, rest: string)
    requires |cell| == 4 && ReadCell(cell).Some?
    ensures ReadLine(cell + rest) ==
            if ReadCell(cell).value.own then Some(Row([ReadCell(cell).value.more], rest))
            else if ReadLine(rest).None? then None
            else Some(Row([ReadCell(cell).value.more] + ReadLine(rest).value.columns, ReadLine(rest).value.caption))
  {
    assert (cell + rest)[..4] == cell && (cell + rest)[4..] == rest;
  }

  lemma {:induction false} ReadLineOf(columns: seq<bool>, more: bool, caption: string)
    ensures ReadLine(Heading(columns) + (Connector(more) + caption)) == Some(Row(columns + [more], caption))
  {
    var own := Connector(more) + caption;
    if columns == [] {
      CellsAreReadBack(more);
      ReadFirstCell(Connector(more), caption);
      assert Heading(columns) + own == own && columns + [more] == [more];
    } else {
      var rest := Heading(columns[1..]) + own;
      ReadLineOf(columns[1..], more, caption);
      CellsAreReadBack(columns[0]);
      ReadFirstCell(Column(columns[0]), rest);
      AppendAssociates(Column(columns[0]), Heading(columns[1..]), own);
      HeadTail(columns);
      AppendAssociates([columns[0]], columns[1..], [more]);
    }
  }

  lemma {:induction false} ReadLinesConcat(a: seq<string>, b: seq<string>)
    requires ReadLines(a).Some? && ReadLines(b).Some?
    ensures ReadLines(a + b) == Some(ReadLines(a).value + ReadLines(b).value)
  {
    var rowsB := ReadLines(b).value;
    if a == [] {
      assert a + b == b && [] + rowsB == rowsB;
    } else {
      ConcatTail(a, b);
      ReadLinesConcat(a[1..], b);
      AppendAssociates([ReadLine(a[0]).value], ReadLines(a[1..]).value, rowsB);
    }
  }

  lemma {:induction false} ReadRendered(forest: seq<Tree>, columns: seq<bool>)
    ensures ReadLines(Render(forest, Heading(columns))) == Some(Rows(forest, columns))
    decreases forest
  {
    if forest != [] {
      var more := |forest| > 1;
      HeadingSnoc(columns, more);
      ReadOwnLine(columns, more, forest[0].caption);
      ReadRendered(forest[0].kids, columns + [more]);
      ReadRendered(forest[1..], columns);
      ReadHit(Heading(columns) + Connector(more) + forest[0].caption,
              Render(forest[0].kids, Heading(columns) + Column(more)), Render(forest[1..], Heading(columns)));
    }
  }

  lemma ReadOwnLine(columns: seq<bool>, more: bool, caption: string)
    ensures ReadLine(Heading(columns) + Connector(more) + caption) == Some(Row(columns + [more], caption))
  {
    ReadLineOf(columns, more, caption);
    AppendAssociates(Heading(columns), Connector(more), caption);
  }

  /** A hit's line, the lines below it and those of its later siblings are read one after the other. */
  lemma ReadHit(own: string, below: seq<string>, rest: seq<string>)
    requires ReadLine(own).Some? && ReadLines(below).Some? && ReadLines(rest).Some?
    ensures ReadLines([own] + below + rest)
         == Some([ReadLine(own).value] + ReadLines(below).value + ReadLines(rest).value)
  {
    assert [own][0] == own && [own][1..] == [] && ReadLines([own][1..]) == Some([]);
    assert [ReadLine(own).value] + [] == [ReadLine(own).value];
    assert ReadLines([own]) == Some([ReadLine(own).value]);
    ReadLinesConcat([own], below);
    ReadLinesConcat([own] + below, rest);
  }

  lemma {:induction false} RowsAreDeeper(forest: seq<Tree>, columns: seq<bool>)
    ensures forall i :: 0 <= i < |Rows(forest, columns)| ==> |Rows(forest, columns)[i].columns| > |columns|
    ensures forest != [] ==> Rows(forest, columns) != [] && |Rows(forest, columns)[0].columns| == |columns| + 1
    decreases forest
  {
    if forest != [] {
      RowsAreDeeper(forest[0].kids, columns + [|forest| > 1]);
      RowsAreDeeper(forest[1..], columns);
    }
  }

  lemma CollectStep(head: Row, below: seq<Row>, depth: nat)
    requires |head.columns| == depth + 1
    ensures var (kids, afterKids) := Collect(below, depth + 1);
            var (siblings, rest) := Collect(afterKids, depth);
            Collect([head] + below, depth) == ([Node(head.caption, kids)] + siblings, rest)
  {
    assert ([head] + below)[1..] == below;
  }

  lemma RowsInOrder(head: Row, kids: seq<Row>, siblings: seq<Row>, rest: seq<Row>)
    ensures [head] + kids + siblings + rest == [head] + (kids + (siblings + rest))
    ensures [head] + kids + siblings == [head] + (kids + siblings)
  {
  }

  lemma {:induction false} CollectRows(forest: seq<Tree>, columns: seq<bool>, rest: seq<Row>)
    requires rest == [] || |rest[0].columns| <= |columns|
    ensures Collect(Rows(forest, columns) + rest, |columns|) == (forest, rest)
    decreases forest
  {
    if forest == [] {
      assert Rows(forest, columns) + rest == rest;
    } else {
      var own := columns + [|forest| > 1];
      var head := Row(own, forest[0].caption);
      var kids := Rows(forest[0].kids, own);
      var siblings := Rows(forest[1..], columns);
      RowsInOrder(head, kids, siblings, rest);
      assert siblings + rest == [] || |(siblings + rest)[0].columns| <= |own| by {
        RowsAreDeeper(forest[1..], columns);
      }
      CollectRows(forest[0].kids, own, siblings + rest);
      CollectRows(forest[1..], columns, rest);
      CollectStep(head, kids + (siblings + rest), |columns|);
      assert forest == [Node(forest[0].caption, forest[0].kids)] + forest[1..];
    }
  }

  /** Every forest can be read back from the lines it is printed as. */
  lemma DrawingRoundTrip(forest: seq<Tree>)
    ensures Recover(Render(forest, "")) == Some(forest)
  {
    ReadRendered(forest, []);
    CollectRows(forest, [], []);
    assert Rows(forest, []) + [] == Rows(forest, []);
  }

  /** A whole search can be read back from what it prints: below the root line stands the tree of its hits. */
  lemma TranscriptRoundTrip(proc: Process, pattern: string, depth: int)
    ensures var lines := Transcript(proc, pattern, depth, "");
            if depth <= 0 then lines == []
            else lines != [] && lines[0] == " ." && Recover(lines[1..]) == Some(HitForest(proc, pattern, depth))
  {
    if depth > 0 {
      ConcatTail([" ."], Render(HitForest(proc, pattern, depth), ""));
      DrawingRoundTrip(HitForest(proc, pattern, depth));
      assert [" ."][1..] + Render(HitForest(proc, pattern, depth), "") == Render(HitForest(proc, pattern, depth), "");
    }
  }

  // ---------- what the command promises ----------

  /** Piece k of a hex pattern, two characters at a time from the end that the byte order starts with. */
  predicate IsEscape(part: string, pattern: string, bigEndian: bool, k: nat)
    requires 2 * k + 2 < |pattern|
  {
    part == "\\\\x" + if !bigEndian then pattern[|pattern| - 2 - 2 * k..|pattern| - 2 * k]
    else if 2 * k + 4 <= |pattern| then pattern[2 * k + 2..2 * k + 4]
    else pattern[2 * k + 2..]
  }

  /** The text is made of the pattern's pieces, each behind an escape. */
  ghost predicate IsEscaped(text: string, pattern: string, bigEndian: bool) {
    exists parts: seq<string> :: AreEscapes(parts, pattern, bigEndian) && Concatenated(parts) == text
  }

  ghost predicate AreEscapes(parts: seq<string>, pattern: string, bigEndian: bool) {
    && |parts| == (if |pattern| < 2 then 0 else (|pattern| - 1) / 2)
    && forall k :: 0 <= k < |parts| ==> IsEscape(parts[k], pattern, bigEndian, k)
  }

  /** What memory is searched for: the pattern itself, or the bytes of the number that it writes. */
  ghost predicate Asks(proc: Process, pattern: string, text: string) {
    && (!proc.isHex(pattern) ==> text == pattern)
    && (proc.isHex(pattern) ==> IsEscaped(text, pattern, proc.bigEndian))
    && (proc.isHex(pattern) && IsHexLiteral(pattern) && |pattern| % 2 == 0 ==> SpellsNumber(proc, pattern, text))
  }

  /** The bytes of the text are those of the number, in the target's order. */
  ghost predicate SpellsNumber(proc: Process, pattern: string, text: string)
    requires IsHexLiteral(pattern)
  {
    var bytes := EscapedBytes(text);
    bytes.Some? && 2 * |bytes.value| == |pattern| - 2
    && HexValue(pattern[2..]) == if proc.bigEndian then NumberMsbFirst(bytes.value) else NumberLsbFirst(bytes.value)
  }

  /** The hits are those of the readable sections other than [vvar], in the order of the maps. */
  ghost predicate Finds(proc: Process, text: string, hits: seq<Hit>) {
    exists parts: seq<seq<Hit>> :: AreHitsOf(proc, proc.maps, text, parts) && Concatenated(parts) == hits
  }

  ghost predicate AreHitsOf(proc: Process, maps: seq<Section>, text: string, parts: seq<seq<Hit>>) {
    && |parts| == |maps|
    && forall k :: 0 <= k < |maps| ==>
                     parts[k] == if maps[k].readable && maps[k].path != "[vvar]"
                     then proc.search(text, maps[k].start, maps[k].end - 1) else []
  }

  /** The forest is that of a search for the pattern: a tree for each hit, and below it the search for its address. */
  ghost predicate IsSearch(proc: Process, pattern: string, depth: int, forest: seq<Tree>)
    decreases depth, 2
  {
    if depth <= 0 then forest == []
    else exists text, hits ::
           Asks(proc, pattern, text) && Finds(proc, text, hits) && ShowHits(proc, hits, depth, forest)
  }

  ghost predicate ShowHits(proc: Process, hits: seq<Hit>, depth: int, forest: seq<Tree>)
    requires depth > 0
    decreases depth, 1
  {
    |forest| == |hits| && forall i :: 0 <= i < |hits| ==> ShowsHit(proc, hits[i], depth, forest[i])
  }

  ghost predicate ShowsHit(proc: Process, hit: Hit, depth: int, tree: Tree)
    requires depth > 0
    decreases depth, 0
  {
    exists digits ::
      && IsNumberText(digits, hit.addr, 1)
      && tree.caption == " 0x" + digits + " " + proc.pathAt(hit.addr) + " " + proc.permissionAt(hit.addr)
                         + " \"" + hit.text + "\""
      && IsSearch(proc, "0x" + digits, depth - 1, tree.kids)
  }

  /** What a search prints, read back: a root line, and below it the forest of the search. */
  ghost predicate IsTelescope(proc: Process, pattern: string, depth: int, lines: seq<string>) {
    if depth <= 0 then lines == []
    else
      && lines != [] && lines[0] == " ." && Recover(lines[1..]).Some?
      && IsSearch(proc, pattern, depth, Recover(lines[1..]).value)
  }

  function Escapes(pieces: seq<string>): (parts: seq<string>)
    ensures |parts| == |pieces| && forall k :: 0 <= k < |pieces| ==> parts[k] == ESCAPE + pieces[k]
  {
    seq(|pieces|, k requires 0 <= k < |pieces| => ESCAPE + pieces[k])
  }

  lemma {:induction false} JoinIsConcatenated(pieces: seq<string>)
    ensures JoinEscaped(pieces) == Concatenated(Escapes(pieces))
  {
    if pieces != [] {
      JoinIsConcatenated(pieces[1..]);
      assert Escapes(pieces) == [ESCAPE + pieces[0]] + Escapes(pieces[1..]);
      ConcatenatedCons(ESCAPE + pieces[0], Escapes(pieces[1..]));
    }
  }

  lemma SearchTextIsEscaped(pattern: string, bigEndian: bool)
    ensures IsEscaped(JoinEscaped(Pieces(pattern, bigEndian)), pattern, bigEndian)
  {
    var pieces := Pieces(pattern, bigEndian);
    var parts := Escapes(pieces);
    JoinIsConcatenated(pieces);
    PieceCount(pattern, bigEndian);
    forall k | 0 <= k < |parts| ensures IsEscape(parts[k], pattern, bigEndian, k) {
      PieceIsEscape(pattern, bigEndian, k);
    }
    assert AreEscapes(parts, pattern, bigEndian);
  }

  lemma PieceIsEscape(pattern: string, bigEndian: bool, k: nat)
    requires 2 * k + 2 < |pattern|
    ensures k < |Pieces(pattern, bigEndian)|
    ensures IsEscape(ESCAPE + Pieces(pattern, bigEndian)[k], pattern, bigEndian, k)
  {
    PieceCount(pattern, bigEndian);
    if bigEndian {
      BigEndianPieceAt(pattern, 2, k);
    } else {
      LittleEndianPieceAt(pattern, |pattern| - 2, k);
    }
  }

  lemma PieceCount(pattern: string, bigEndian: bool)
    ensures |Pieces(pattern, bigEndian)| == if |pattern| < 2 then 0 else (|pattern| - 1) / 2
  {
    if |pattern| >= 2 {
      if bigEndian { BigEndianCount(pattern, 2); } else { LittleEndianPieceAt(pattern, |pattern| - 2, 0); }
    }
  }

  lemma {:induction false} SectionHitsAre(proc: Process, maps: seq<Section>, text: string)
    returns (parts: seq<seq<Hit>>)
    ensures AreHitsOf(proc, maps, text, parts) && Concatenated(parts) == SectionHits(proc, maps, text)
  {
    if maps == [] {
      parts := [];
    } else {
      var more := SectionHitsAre(proc, maps[1..], text);
      var own := if Searched(maps[0]) then proc.search(text, maps[0].start, maps[0].end - 1) else [];
      parts := [own] + more;
      ConcatenatedCons(own, more);
    }
  }

  lemma {:induction false} HitForestIsSearch(proc: Process, pattern: string, depth: int)
    ensures IsSearch(proc, pattern, depth, HitForest(proc, pattern, depth))
    decreases depth, 1
  {
    if depth > 0 {
      var text, hits := SearchText(proc, pattern), Hits(proc, pattern);
      AsksForSearchText(proc, pattern);
      HitsAreFound(proc, text);
      GrownShowsHits(proc, hits, depth);
      assert ShowHits(proc, hits, depth, HitForest(proc, pattern, depth));
    }
  }

  lemma HitsAreFound(proc: Process, text: string)
    ensures Finds(proc, text, SectionHits(proc, proc.maps, text))
  {
    var parts := SectionHitsAre(proc, proc.maps, text);
  }

  lemma {:induction false} GrownShowsHits(proc: Process, hits: seq<Hit>, depth: int)
    requires depth > 0
    ensures ShowHits(proc, hits, depth, Grow(proc, hits, depth))
    decreases depth, 0
  {
    forall i | 0 <= i < |hits| ensures ShowsHit(proc, hits[i], depth, Grow(proc, hits, depth)[i]) {
      GrownNode(proc, hits, depth, i);
      HitForestIsSearch(proc, Hex(hits[i].addr), depth - 1);
      NodeShowsHit(proc, hits[i], depth);
    }
  }

  lemma NodeShowsHit(proc: Process, hit: Hit, depth: int)
    requires depth > 0
    requires IsSearch(proc, Hex(hit.addr), depth - 1, HitForest(proc, Hex(hit.addr), depth - 1))
    ensures ShowsHit(proc, hit, depth, Node(Caption(proc, hit), HitForest(proc, Hex(hit.addr), depth - 1)))
  {
    var digits := Hex(hit.addr)[2..];
    HexIs(hit.addr);
    assert Hex(hit.addr) == "0x" + digits;
    assert " " + Hex(hit.addr) == " 0x" + digits;
  }

  lemma AsksForSearchText(proc: Process, pattern: string)
    ensures Asks(proc, pattern, SearchText(proc, pattern))
  {
    if proc.isHex(pattern) {
      SearchTextIsEscaped(pattern, proc.bigEndian);
      if IsHexLiteral(pattern) && |pattern| % 2 == 0 { SearchTextMeansNumber(proc, pattern); }
    }
  }

  lemma TranscriptIsTelescope(proc: Process, pattern: string, depth: int)
    ensures IsTelescope(proc, pattern, depth, Transcript(proc, pattern, depth, ""))
  {
    TranscriptRoundTrip(proc, pattern, depth);
    HitForestIsSearch(proc, pattern, depth);
  }

  /** The command; without a usable depth it takes 3. */
  method DoInvoke(proc: Process, pattern: string, depth: Option<int>) returns (lines: seq<string>)
    ensures IsTelescope(proc, pattern, if depth.Some? then depth.value else 3, lines)
  {
    var levels := match depth case Some(n) => n case None => 3;
    TranscriptIsTelescope(proc, pattern, levels);
    lines := Telescope(proc, pattern, levels, "");
  }

  // ---------- bars and later siblings ----------

  lemma {:induction false} LaterSiblingShift(before: seq<Row>, rows: seq<Row>, i: nat, c: nat)
    requires i < |rows|
    ensures LaterSibling(before + rows, |before| + i, c) <==> LaterSibling(rows, i, c)
  {
    var all := before + rows;
    if LaterSibling(rows, i, c) {
      var j :| i < j < |rows| && |rows[j].columns| == c + 1 && forall k :: i < k < j ==> |rows[k].columns| > c + 1;
      assert |all[|before| + j].columns| == c + 1;
      forall k | |before| + i < k < |before| + j ensures |all[k].columns| > c + 1 {
        assert all[k] == rows[k - |before|];
      }
    }
    if LaterSibling(all, |before| + i, c) {
      var j :| |before| + i < j < |all| && |all[j].columns| == c + 1
               && forall k :: |before| + i < k < j ==> |all[k].columns| > c + 1;
      assert |rows[j - |before|].columns| == c + 1;
      forall k | i < k < j - |before| ensures |rows[k].columns| > c + 1 {
        assert rows[k] == all[|before| + k];
      }
    }
  }

  lemma {:induction false} LaterSiblingExtend(rows: seq<Row>, after: seq<Row>, i: nat, c: nat)
    requires i < |rows|
    requires after == [] || |after[0].columns| < c + 1
    ensures LaterSibling(rows + after, i, c) <==> LaterSibling(rows, i, c)
  {
    var all := rows + after;
    if LaterSibling(rows, i, c) {
      var j :| i < j < |rows| && |rows[j].columns| == c + 1 && forall k :: i < k < j ==> |rows[k].columns| > c + 1;
      assert |all[j].columns| == c + 1;
      assert forall k :: i < k < j ==> all[k] == rows[k];
    }
    if LaterSibling(all, i, c) {
      var j :| i < j < |all| && |all[j].columns| == c + 1 && forall k :: i < k < j ==> |all[k].columns| > c + 1;
      assert j < |rows| by {
        assert after != [] ==> all[|rows|] == after[0];
      }
      assert |rows[j].columns| == c + 1;
      assert forall k :: i < k < j ==> rows[k] == all[k];
    }
  }

  lemma {:induction false} RowsKeepColumns(forest: seq<Tree>, columns: seq<bool>, i: nat)
    requires i < |Rows(forest, columns)|
    ensures columns <= Rows(forest, columns)[i].columns
    decreases forest
  {
    var own := columns + [|forest| > 1];
    var kids := Rows(forest[0].kids, own);
    if 1 <= i <= |kids| {
      RowsKeepColumns(forest[0].kids, own, i - 1);
    } else if i > |kids| {
      RowsKeepColumns(forest[1..], columns, i - 1 - |kids|);
    }
  }

  /** In the first tree's own lines, the column at this level tells whether a sibling tree follows. */
  lemma {:induction false} OwnColumn(forest: seq<Tree>, columns: seq<bool>, i: nat)
    requires forest != []
    requires i <= |Rows(forest[0].kids, columns + [|forest| > 1])|
    ensures LaterSibling(Rows(forest, columns), i, |columns|) <==> |forest| > 1
  {
    var own := columns + [|forest| > 1];
    var kids := Rows(forest[0].kids, own);
    var rows := Rows(forest, columns);
    RowsAreDeeper(forest[0].kids, own);
    RowsAreDeeper(forest[1..], columns);
    assert rows == [Row(own, forest[0].caption)] + kids + Rows(forest[1..], columns);
    assert forall k :: 1 <= k <= |kids| ==> rows[k] == kids[k - 1];
    if |forest| > 1 {
      var j := 1 + |kids|;
      assert rows[j] == Rows(forest[1..], columns)[0];
      assert forall k :: i < k < j ==> |rows[k].columns| > |columns| + 1;
    } else {
      assert |rows| == 1 + |kids|;
    }
  }

  lemma {:induction false} ColumnsOfRows(forest: seq<Tree>, columns: seq<bool>, i: nat, c: nat)
    requires i < |Rows(forest, columns)|
    requires |columns| <= c < |Rows(forest, columns)[i].columns|
    ensures Rows(forest, columns)[i].columns[c] <==> LaterSibling(Rows(forest, columns), i, c)
    decreases forest
  {
    var own := columns + [|forest| > 1];
    var first := [Row(own, forest[0].caption)];
    var kids := Rows(forest[0].kids, own);
    var siblings := Rows(forest[1..], columns);
    var rows := Rows(forest, columns);
    RowsInOrder(first[0], kids, siblings, []);
    if i > |kids| {
      var at := i - 1 - |kids|;
      assert rows[i] == siblings[at];
      ColumnsOfRows(forest[1..], columns, at, c);
      LaterSiblingShift(first + kids, siblings, at, c);
    } else if c == |columns| {
      OwnColumn(forest, columns, i);
      if i > 0 {
        RowsKeepColumns(forest[0].kids, own, i - 1);
        assert rows[i] == kids[i - 1] && own[c] == kids[i - 1].columns[c];
      }
    } else {
      assert i > 0 && rows[i] == kids[i - 1];
      ColumnsOfRows(forest[0].kids, own, i - 1, c);
      assert siblings == [] || |siblings[0].columns| < c + 1 by {
        RowsAreDeeper(forest[1..], columns);
      }
      LaterSiblingExtend(kids, siblings, i - 1, c);
      LaterSiblingShift(first, kids + siblings, i - 1, c);
    }
  }

  /**
    * In the printed lines a tee or a bar stands in a column exactly when the node it belongs to (the line
    * itself, or its ancestor at that level) has a later sibling; an elbow or a blank exactly when it has none.
    */
  lemma ColumnsShowLaterSiblings(forest: seq<Tree>, i: nat, c: nat)
    requires i < |Render(forest, "")|
    ensures var rows := ReadLines(Render(forest, ""));
            rows.Some? && |rows.value| == |Render(forest, "")|
            && (c < |rows.value[i].columns| ==> (rows.value[i].columns[c] <==> LaterSibling(rows.value, i, c)))
  {
    ReadRendered(forest, []);
    ReadLinesLength(Render(forest, ""));
    if c < |Rows(forest, [])[i].columns| {
      ColumnsOfRows(forest, [], i, c);
    }
  }

  lemma {:induction false} ReadLinesLength(lines: seq<string>)
    requires ReadLines(lines).Some?
    ensures |ReadLines(lines).value| == |lines|
  {
    if lines != [] { ReadLinesLength(lines[1..]); }
  }

  // ---------- the size of the output ----------

  function Power(b: nat, e: nat): nat {
    if e == 0 then 1 else b * Power(b, e - 1)
  }

  /** b + b^2 + ... + b^depth, and 0 for a depth that is not positive. */
  function PowerSum(b: nat, depth: int): nat
    decreases depth
  {
    if depth <= 0 then 0 else PowerSum(b, depth - 1) + Power(b, depth)
  }

  lemma {:induction false} PowerSumHorner(b: nat, depth: int)
    requires depth > 0
    ensures PowerSum(b, depth) == b * (1 + PowerSum(b, depth - 1))
    decreases depth
  {
    if depth > 1 {
      PowerSumHorner(b, depth - 1);
      calc {
        PowerSum(b, depth);
        b * (1 + PowerSum(b, depth - 2)) + b * Power(b, depth - 1);
        b * (1 + PowerSum(b, depth - 2) + Power(b, depth - 1));
        b * (1 + PowerSum(b, depth - 1));
      }
    } else {
      assert Power(b, 1) == b * Power(b, 0);
    }
  }

  /** n times c, without multiplication. */
  function Times(n: nat, c: nat): nat {
    if n == 0 then 0 else c + Times(n - 1, c)
  }

  lemma OneMoreTime(n: nat, c: nat)
    ensures Times(n + 1, c) == c + Times(n, c)
  {
  }

  lemma {:induction false} TimesIsProduct(n: nat, c: nat)
    ensures Times(n, c) == n * c
  {
    if n > 0 { TimesIsProduct(n - 1, c); }
  }

  lemma {:induction false} TimesGrows(m: nat, n: nat, c: nat)
    requires m <= n
    ensures Times(m, c) <= Times(n, c)
    decreases n
  {
    if m < n { TimesGrows(m, n - 1, c); }
  }

  /** The nodes of a forest in which every node has b kids. */
  function FullSize(b: nat, depth: int): nat
    decreases depth
  {
    if depth <= 0 then 0 else Times(b, 1 + FullSize(b, depth - 1))
  }

  lemma {:induction false} FullSizeIsPowerSum(b: nat, depth: int)
    ensures FullSize(b, depth) == PowerSum(b, depth)
    decreases depth
  {
    if depth > 0 {
      FullSizeIsPowerSum(b, depth - 1);
      PowerSumHorner(b, depth);
      TimesIsProduct(b, 1 + FullSize(b, depth - 1));
    }
  }

  ghost predicate HitsBetween(proc: Process, low: nat, high: nat) {
    forall pattern :: low <= |Hits(proc, pattern)| <= high
  }

  /** The number of nodes, and so of lines, whatever the heading. */
  function Size(forest: seq<Tree>): nat
    decreases forest
  {
    if forest == [] then 0 else 1 + Size(forest[0].kids) + Size(forest[1..])
  }

  lemma {:induction false} RenderSize(forest: seq<Tree>, heading: string)
    ensures |Render(forest, heading)| == Size(forest)
    decreases forest
  {
    if forest != [] {
      RenderSize(forest[0].kids, heading + Column(|forest| > 1));
      RenderSize(forest[1..], heading);
    }
  }

  lemma {:induction false} ForestSize(proc: Process, pattern: string, depth: int, low: nat, high: nat)
    requires HitsBetween(proc, low, high)
    ensures FullSize(low, depth) <= Size(HitForest(proc, pattern, depth)) <= FullSize(high, depth)
    decreases depth, 1
  {
    if depth > 0 {
      AllOwnSizes(proc, depth, low, high);
      GrownWithin(proc, Hits(proc, pattern), depth, low, high);
    }
  }

  lemma {:induction false} AllOwnSizes(proc: Process, depth: int, low: nat, high: nat)
    requires HitsBetween(proc, low, high) && depth > 0
    ensures OwnSizesBetween(proc, depth, 1 + FullSize(low, depth - 1), 1 + FullSize(high, depth - 1))
    decreases depth, 0
  {
    var below, above := 1 + FullSize(low, depth - 1), 1 + FullSize(high, depth - 1);
    forall hit: Hit ensures OwnSizeBetween(proc, hit, depth, below, above) {
      ForestSize(proc, Hex(hit.addr), depth - 1, low, high);
    }
  }

  lemma GrownWithin(proc: Process, hits: seq<Hit>, depth: int, low: nat, high: nat)
    requires depth > 0 && low <= |hits| <= high
    requires OwnSizesBetween(proc, depth, 1 + FullSize(low, depth - 1), 1 + FullSize(high, depth - 1))
    ensures FullSize(low, depth) <= Size(Grow(proc, hits, depth)) <= FullSize(high, depth)
  {
    var below, above := 1 + FullSize(low, depth - 1), 1 + FullSize(high, depth - 1);
    GrownSize(proc, hits, depth, below, above);
    TimesGrows(low, |hits|, below);
    TimesGrows(|hits|, high, above);
  }

  ghost predicate OwnSizeBetween(proc: Process, hit: Hit, depth: int, below: nat, above: nat) {
    below <= 1 + Size(HitForest(proc, Hex(hit.addr), depth - 1)) <= above
  }

  ghost predicate OwnSizesBetween(proc: Process, depth: int, below: nat, above: nat) {
    forall hit :: OwnSizeBetween(proc, hit, depth, below, above)
  }

  lemma {:induction false} GrownSize(proc: Process, hits: seq<Hit>, depth: int, below: nat, above: nat)
    requires depth > 0 && OwnSizesBetween(proc, depth, below, above)
    ensures Times(|hits|, below) <= Size(Grow(proc, hits, depth)) <= Times(|hits|, above)
  {
    if hits != [] {
      GrownSize(proc, hits[1..], depth, below, above);
      SizeOfGrown(proc, hits, depth);
      OneMoreTime(|hits[1..]|, below);
      OneMoreTime(|hits[1..]|, above);
      assert OwnSizeBetween(proc, hits[0], depth, below, above);
    }
  }

  lemma SizeOfGrown(proc: Process, hits: seq<Hit>, depth: int)
    requires hits != [] && depth > 0
    ensures Size(Grow(proc, hits, depth))
         == 1 + Size(HitForest(proc, Hex(hits[0].addr), depth - 1)) + Size(Grow(proc, hits[1..], depth))
  {
    assert Grow(proc, hits, depth)[1..] == Grow(proc, hits[1..], depth);
  }

  lemma {:induction false} RenderedLinesAreNotRoots(forest: seq<Tree>, heading: string, i: nat)
    requires i < |Render(forest, heading)|
    ensures |Render(forest, heading)[i]| >= 4
    decreases forest
  {
    var more := |forest| > 1;
    var kids := Render(forest[0].kids, heading + Column(more));
    if 1 <= i <= |kids| {
      RenderedLinesAreNotRoots(forest[0].kids, heading + Column(more), i - 1);
    } else if i > |kids| {
      RenderedLinesAreNotRoots(forest[1..], heading, i - 1 - |kids|);
    }
  }

  /**
    * A search of positive depth prints one root line, first and nowhere else, and between the two geometric
    * sums of hit lines; both sums are met when every search returns the same number of hits.
    */
  lemma TranscriptSize(proc: Process, pattern: string, depth: int, low: nat, high: nat)
    requires HitsBetween(proc, low, high)
    ensures var lines := Transcript(proc, pattern, depth, "");
            if depth <= 0 then lines == []
            else 1 + PowerSum(low, depth) <= |lines| <= 1 + PowerSum(high, depth)
                 && forall i :: 0 <= i < |lines| ==> (lines[i] == " ." <==> i == 0)
  {
    if depth > 0 {
      var forest := HitForest(proc, pattern, depth);
      var lines := Transcript(proc, pattern, depth, "");
      ForestSize(proc, pattern, depth, low, high);
      FullSizeIsPowerSum(low, depth);
      FullSizeIsPowerSum(high, depth);
      RenderSize(forest, "");
      forall i | 1 <= i < |lines| ensures lines[i] != " ." {
        RenderedLinesAreNotRoots(forest, "", i - 1);
        assert lines[i] == Render(forest, "")[i - 1];
      }
    }
  }
}
