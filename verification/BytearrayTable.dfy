/** The byte table of scripts/bytearray.py: hex cleaning, range expansion, exclusion and the wrapped text dump. */
module BytearrayTable {
  import opened Options
  import opened HexText
  import opened Sequences

  // ---------- cleanHex ----------

  function CleanHex(s: string): (clean: string)
    ensures AllHex(clean)
  {
    if s == "" then ""
    else if IsHexDigit(s[0]) then [s[0]] + CleanHex(s[1..])
    else CleanHex(s[1..])
  }

  lemma {:induction false} CleanHexConcat(a: string, b: string)
    ensures CleanHex(a + b) == CleanHex(a) + CleanHex(b)
  {
    if a == "" {
      assert a + b == b;
    } else {
      ConcatTail(a, b);
      CleanHexConcat(a[1..], b);
    }
  }

  lemma {:induction false} CleanHexKeepsHex(s: string)
    requires AllHex(s)
    ensures CleanHex(s) == s
  {
    if s != "" {
      CleanHexKeepsHex(s[1..]);
      HeadTail(s);
    }
  }

  // ---------- the expansion of `..` ----------

  /** The letters that the expansion is meant for. */
  predicate HexOrDots(s: string) {
    forall i :: 0 <= i < |s| ==> IsHexDigit(s[i]) || s[i] == '.'
  }

  function PairAt(s: string, k: nat): (pair: string)
    requires 2 * k + 1 < |s|
    ensures |pair| == 2
  {
    [s[2 * k], s[2 * k + 1]]
  }

  /** A `..` with a pair on each side; only such a one is expanded, any other is dropped. */
  predicate InnerDots(s: string, k: nat)
    requires 2 * k + 1 < |s|
  {
    PairAt(s, k) == ".." && k > 0 && 2 * k + 3 < |s|
  }

  predicate HexNeighbours(s: string, k: nat)
    requires 0 < k && 2 * k + 3 < |s|
  {
    AllHex(PairAt(s, k - 1)) && AllHex(PairAt(s, k + 1))
  }

  function ValueAt(s: string, k: nat): Byte
    requires 2 * k + 1 < |s| && AllHex(PairAt(s, k))
  {
    PairValue(PairAt(s, k)[0], PairAt(s, k)[1])
  }

  /** The bytes strictly between the two, ascending. */
  function Between(low: Byte, high: Byte): (bytes: seq<Byte>)
    ensures forall b :: b in bytes <==> low < b < high
    decreases high
  {
    if low + 1 >= high then [] else Between(low, high - 1) + [high - 1]
  }

  lemma {:induction false} BetweenAscends(low: Byte, high: Byte, i: nat)
    ensures |Between(low, high)| == if high > low then high - low - 1 else 0
    ensures i < |Between(low, high)| ==> Between(low, high)[i] == low + 1 + i
    decreases high
  {
    if low + 1 < high { BetweenAscends(low, high - 1, i); }
  }

  /** What pair k turns into; None where Python's int() rejects a neighbour. */
  function ExpandPair(s: string, k: nat): Option<string>
    requires 2 * k + 1 < |s|
  {
    if PairAt(s, k) != ".." then Some(PairAt(s, k))
    else if !InnerDots(s, k) then Some("")
    else if !HexNeighbours(s, k) then None
    else Some(HexBytes(Between(ValueAt(s, k - 1), ValueAt(s, k + 1))))
  }

  /** The expansion of the first n pairs. */
  function ExpandPairs(s: string, n: nat): Option<string>
    requires 2 * n <= |s|
  {
    if n == 0 then Some("")
    else
      match (ExpandPairs(s, n - 1), ExpandPair(s, n - 1))
      case (Some(front), Some(last)) => Some(front + last)
      case _ => None
  }

  /** The whole expansion; None stands for the exception, which an odd length always raises. */
  function Expanded(s: string): Option<string> {
    if |s| % 2 == 1 then None else ExpandPairs(s, |s| / 2)
  }

  method Expand(badchars: string) returns (result: Option<string>)
    requires HexOrDots(badchars)
    ensures result == Expanded(badchars)
  {
    var bpos := 0;
    var newbadchars := "";
    while bpos < |badchars|
      invariant 0 <= bpos <= |badchars| && bpos % 2 == 0
      invariant ExpandPairs(badchars, bpos / 2) == Some(newbadchars)
    {
      ghost var k := bpos / 2;
      if bpos + 1 >= |badchars| { return None; }
      PairsAround(badchars, bpos);
      var curchar := [badchars[bpos], badchars[bpos + 1]];
      if curchar == ".." {
        if bpos > 1 && bpos <= |badchars| - 4 {
          var before := [badchars[bpos - 2], badchars[bpos - 1]];
          var after := [badchars[bpos + 2], badchars[bpos + 3]];
          if !AllHex(before) || !AllHex(after) {
            FailedPair(badchars, k, |badchars| / 2);
            return None;
          }
          var inserted := InsertBetween(PairValue(before[0], before[1]), PairValue(after[0], after[1]));
          newbadchars := newbadchars + inserted;
        } else {
          assert newbadchars + "" == newbadchars;
        }
      } else {
        newbadchars := newbadchars + curchar;
      }
      bpos := bpos + 2;
    }
    return Some(newbadchars);
  }

  lemma PairsAround(s: string, i: nat)
    requires i % 2 == 0 && i + 1 < |s|
    ensures PairAt(s, i / 2) == [s[i], s[i + 1]]
    ensures i > 1 ==> PairAt(s, i / 2 - 1) == [s[i - 2], s[i - 1]]
    ensures i + 4 <= |s| ==> PairAt(s, i / 2 + 1) == [s[i + 2], s[i + 3]]
  {
  }

  /** The inner loop of the expansion. */
  method InsertBetween(before: Byte, after: Byte) returns (inserted: string)
    ensures inserted == HexBytes(Between(before, after))
  {
    inserted := "";
    var b: int := before + 1;
    while b < after
      invariant before < b && (b <= after || (b == before + 1 && inserted == ""))
      invariant b <= after ==> inserted == HexBytes(Between(before, b))
    {
      BetweenGrows(before, b);
      inserted := inserted + ByteHex(b);
      b := b + 1;
    }
  }

  lemma BetweenGrows(low: Byte, b: Byte)
    requires low < b < 255
    ensures HexBytes(Between(low, b + 1)) == HexBytes(Between(low, b)) + ByteHex(b)
  {
    HexBytesConcat(Between(low, b), [b]);
    assert HexBytes([b]) == ByteHex(b) by { assert [b][1..] == [] && ByteHex(b) + "" == ByteHex(b); }
  }

  lemma {:induction false} FailedPair(s: string, k: nat, n: nat)
    requires k < n && 2 * n <= |s| && ExpandPair(s, k).None?
    ensures ExpandPairs(s, n).None?
  {
    if k < n - 1 { FailedPair(s, k, n - 1); }
  }

  /** The expansion succeeds exactly when the length is even and every inner `..` has two hex neighbours. */
  lemma ExpansionSucceedsIff(s: string)
    ensures Expanded(s).Some? <==>
            |s| % 2 == 0 && forall k :: 0 <= k < |s| / 2 && InnerDots(s, k) ==> HexNeighbours(s, k)
  {
    if |s| % 2 == 0 {
      if k: nat :| k < |s| / 2 && InnerDots(s, k) && !HexNeighbours(s, k) {
        FailedPair(s, k, |s| / 2);
      }
      if forall k :: 0 <= k < |s| / 2 && InnerDots(s, k) ==> HexNeighbours(s, k) {
        GoodPairs(s, |s| / 2);
      }
    }
  }

  lemma {:induction false} GoodPairs(s: string, n: nat)
    requires 2 * n <= |s|
    requires forall k :: 0 <= k < n && InnerDots(s, k) ==> HexNeighbours(s, k)
    ensures ExpandPairs(s, n).Some?
  {
    if n > 0 { GoodPairs(s, n - 1); }
  }

  predicate PairsOrDots(s: string) {
    |s| % 2 == 0 && forall k :: 0 <= k < |s| / 2 ==> AllHex(PairAt(s, k)) || PairAt(s, k) == ".."
  }

  /** Byte b is written in the text, or lies strictly between the neighbours of an inner `..`. */
  ghost predicate Denotes(s: string, n: nat, b: Byte)
    requires 2 * n <= |s|
  {
    exists k :: 0 <= k < n && DenotedAt(s, k, b)
  }

  predicate DenotedAt(s: string, k: nat, b: Byte)
    requires 2 * k + 1 < |s|
  {
    || (AllHex(PairAt(s, k)) && ValueAt(s, k) == b)
    || (InnerDots(s, k) && HexNeighbours(s, k) && ValueAt(s, k - 1) < b < ValueAt(s, k + 1))
  }

  /** The text is whole hex bytes, and has the byte among them just if it is expected there. */
  predicate Means(text: string, b: Byte, expected: bool) {
    AllHex(text) && |text| % 2 == 0 && (b in PairBytes(text) <==> expected)
  }

  lemma ExpandPairMeaning(s: string, k: nat, b: Byte)
    requires PairsOrDots(s) && 2 * k + 1 < |s| && ExpandPair(s, k).Some?
    ensures Means(ExpandPair(s, k).value, b, DenotedAt(s, k, b))
  {
    assert AllHex(PairAt(s, k)) || PairAt(s, k) == "..";
    if PairAt(s, k) != ".." {
      assert PairBytes(PairAt(s, k)) == [ValueAt(s, k)];
    } else {
      assert !IsHexDigit(PairAt(s, k)[0]);
      if InnerDots(s, k) {
        PairBytesOfHexBytes(Between(ValueAt(s, k - 1), ValueAt(s, k + 1)));
      }
    }
  }

  lemma {:induction false} ExpandPairsMeaning(s: string, n: nat, b: Byte)
    requires PairsOrDots(s) && 2 * n <= |s| && ExpandPairs(s, n).Some?
    ensures Means(ExpandPairs(s, n).value, b, Denotes(s, n, b))
  {
    if n > 0 {
      ExpandPairsMeaning(s, n - 1, b);
      ExpandPairMeaning(s, n - 1, b);
      var front, last := ExpandPairs(s, n - 1).value, ExpandPair(s, n - 1).value;
      assert ExpandPairs(s, n).value == front + last;
      TextsJoin(front, last, b, Denotes(s, n - 1, b), DenotedAt(s, n - 1, b));
      OneMoreDenoted(s, n - 1, b);
    }
  }

  lemma TextsJoin(front: string, last: string, b: Byte, inFront: bool, inLast: bool)
    requires Means(front, b, inFront) && Means(last, b, inLast)
    ensures Means(front + last, b, inFront || inLast)
  {
    PairBytesConcat(front, last);
  }

  lemma OneMoreDenoted(s: string, n: nat, b: Byte)
    requires 2 * n + 2 <= |s|
    ensures Denotes(s, n + 1, b) <==> Denotes(s, n, b) || DenotedAt(s, n, b)
  {
    if DenotedAt(s, n, b) { assert 0 <= n < n + 1; }
  }

  /** The expanded text denotes the literal bytes and the open intervals of the inner `..`, chained ones included. */
  lemma ExpansionDenotes(s: string, b: Byte)
    requires PairsOrDots(s) && Expanded(s).Some?
    ensures var text := Expanded(s).value;
            AllHex(text) && |text| % 2 == 0 && (b in PairBytes(text) <==> Denotes(s, |s| / 2, b))
  {
    ExpandPairsMeaning(s, |s| / 2, b);
  }

  /** Text without dots is its own expansion: anything that cleanHex lets through, and any earlier expansion. */
  lemma {:induction false} ExpandHex(s: string, n: nat)
    requires AllHex(s) && 2 * n <= |s|
    ensures ExpandPairs(s, n) == Some(s[..2 * n])
  {
    if n > 0 {
      ExpandHex(s, n - 1);
      assert PairAt(s, n - 1) == s[2 * n - 2..2 * n];
      assert s[..2 * n] == s[..2 * n - 2] + s[2 * n - 2..2 * n];
    }
  }

  lemma ExpansionOfCleanText(raw: string)
    ensures Expanded(CleanHex(raw)) == if |CleanHex(raw)| % 2 == 0 then Some(CleanHex(raw)) else None
  {
    var s := CleanHex(raw);
    if |s| % 2 == 0 {
      ExpandHex(s, |s| / 2);
      assert s[..2 * (|s| / 2)] == s;
    }
  }

  lemma ExpansionIsIdempotent(s: string)
    requires PairsOrDots(s) && Expanded(s).Some?
    ensures Expanded(Expanded(s).value) == Expanded(s)
  {
    ExpansionDenotes(s, 0);
    var text := Expanded(s).value;
    ExpandHex(text, |text| / 2);
    assert text[..2 * (|text| / 2)] == text;
  }

  // ---------- the table ----------

  /** The bytes below n that are not excluded, in ascending order. */
  function Kept(excluded: seq<Byte>, n: nat): (bytes: seq<Byte>)
    requires n <= 256
    ensures forall b: Byte :: b in bytes <==> b < n && b !in excluded
    ensures forall i, j :: 0 <= i < j < |bytes| ==> bytes[i] < bytes[j]
  {
    if n == 0 then []
    else
      var front := Kept(excluded, n - 1);
      assert forall i :: 0 <= i < |front| ==> front[i] in front;
      if n - 1 in excluded then front else front + [n - 1]
  }

  function Table(excluded: seq<Byte>): seq<Byte> {
    Kept(excluded, 256)
  }

  lemma {:induction false} KeptDependsOnMembers(a: seq<Byte>, b: seq<Byte>, n: nat)
    requires n <= 256
    requires forall x: Byte :: x in a <==> x in b
    ensures Kept(a, n) == Kept(b, n)
  {
    if n > 0 {
      KeptDependsOnMembers(a, b, n - 1);
      var last: Byte := n - 1;
      assert last in a <==> last in b;
    }
  }

  const BYTES_PER_LINE := 32

  function Escapes(bytes: seq<Byte>): string {
    if bytes == [] then "" else "\\x" + ByteHex(bytes[0]) + Escapes(bytes[1..])
  }

  /** The printed table: quoted lines of at most 32 bytes. */
  function Dump(bytes: seq<Byte>): string
    decreases |bytes|
  {
    if |bytes| <= BYTES_PER_LINE then "\"" + Escapes(bytes) + "\"\n"
    else "\"" + Escapes(bytes[..BYTES_PER_LINE]) + "\"\n" + Dump(bytes[BYTES_PER_LINE..])
  }

  /** The command; None stands for the exception on an odd number of digits. */
  function Run(badchars: string): Option<(seq<Byte>, string)> {
    var clean := CleanHex(badchars);
    if |clean| % 2 == 1 then None
    else
      var table := Table(PairBytes(clean));
      Some((table, Dump(table)))
  }

  method DoInvoke(badcharsOption: string) returns (result: Option<(seq<Byte>, string)>)
    ensures result == Run(badcharsOption) && IsTable(badcharsOption, result)
  {
    var badchars := CleanHex(badcharsOption);
    ExpansionOfCleanText(badcharsOption);
    var expanded := Expand(badchars);
    if expanded.None? {
      RunIsTable(badcharsOption);
      return None;
    }
    badchars := expanded.value;
    var cnt := 0;
    var excluded: seq<Byte> := [];
    while cnt < |badchars|
      invariant 0 <= cnt <= |badchars| && cnt % 2 == 0
      invariant excluded == PairBytes(badchars)[..cnt / 2]
    {
      excluded := excluded + [PairValue(badchars[cnt], badchars[cnt + 1])];
      cnt := cnt + 2;
    }
    assert excluded == PairBytes(badchars);
    var binarray: seq<Byte> := [];
    for thisval := 0 to 256
      invariant binarray == Kept(excluded, thisval)
    {
      if thisval !in excluded {
        binarray := binarray + [thisval];
      }
    }
    var output := DumpTable(binarray);
    RunIsTable(badcharsOption);
    return Some((binarray, output));
  }

  /** The output ends before byte `from`, and the open line holds the bytes from there up to byte `to`. */
  ghost predicate Dumping(table: seq<Byte>, from: nat, to: nat, output: string, line: string) {
    && from <= to <= |table|
    && line == "\"" + Escapes(table[from..to])
    && output + Dump(table[from..]) == Dump(table)
  }

  /** The loop that wraps the table into lines. */
  method DumpTable(table: seq<Byte>) returns (output: string)
    ensures output == Dump(table)
  {
    output := "";
    var cnt := 0;
    var outputline := "\"";
    var tablecnt := 0;
    DumpStarts(table);
    while tablecnt < |table|
      invariant 0 <= tablecnt <= |table| && 0 <= cnt <= BYTES_PER_LINE && cnt <= tablecnt
      invariant Dumping(table, tablecnt - cnt, tablecnt, output, outputline)
    {
      var next := "\\x" + ByteHex(table[tablecnt]);
      if cnt < BYTES_PER_LINE {
        LineGrows(table, tablecnt - cnt, tablecnt, output, outputline);
        outputline := outputline + next;
      } else {
        NextLine(table, tablecnt, output, outputline);
        outputline := outputline + "\"\n";
        cnt := 0;
        output := output + outputline;
        outputline := "\"" + next;
      }
      tablecnt := tablecnt + 1;
      cnt := cnt + 1;
    }
    LineIsLast(table, tablecnt - cnt, output, outputline);
    if cnt - 1 < BYTES_PER_LINE {
      outputline := outputline + "\"\n";
    }
    output := output + outputline;
  }

  lemma DumpStarts(table: seq<Byte>)
    ensures Dumping(table, 0, 0, "", "\"")
  {
    assert table[0..] == table && "" + Dump(table) == Dump(table);
    assert "\"" + "" == "\"";
  }

  lemma {:induction false} EscapesSnoc(bytes: seq<Byte>, b: Byte)
    ensures Escapes(bytes + [b]) == Escapes(bytes) + ("\\x" + ByteHex(b))
  {
    if bytes == [] {
      assert [b][1..] == [] && bytes + [b] == [b];
      assert "\\x" + ByteHex(b) + "" == "\\x" + ByteHex(b);
    } else {
      ConcatTail(bytes, [b]);
      EscapesSnoc(bytes[1..], b);
      AppendAssociates("\\x" + ByteHex(bytes[0]), Escapes(bytes[1..]), "\\x" + ByteHex(b));
    }
  }

  lemma LineGrows(table: seq<Byte>, from: nat, to: nat, output: string, line: string)
    requires to < |table| && Dumping(table, from, to, output, line)
    ensures Dumping(table, from, to + 1, output, line + ("\\x" + ByteHex(table[to])))
  {
    assert table[from..to + 1] == table[from..to] + [table[to]];
    EscapesSnoc(table[from..to], table[to]);
    AppendAssociates("\"", Escapes(table[from..to]), "\\x" + ByteHex(table[to]));
  }

  lemma LineIsFull(table: seq<Byte>, from: nat, output: string, line: string)
    requires from + BYTES_PER_LINE < |table| && Dumping(table, from, from + BYTES_PER_LINE, output, line)
    ensures Dumping(table, from + BYTES_PER_LINE, from + BYTES_PER_LINE, output + (line + "\"\n"), "\"")
  {
    var rest, next := table[from..], from + BYTES_PER_LINE;
    assert rest[..BYTES_PER_LINE] == table[from..next] && rest[BYTES_PER_LINE..] == table[next..];
    AppendAssociates(output, line + "\"\n", Dump(table[next..]));
    assert "\"" + "" == "\"";
  }

  lemma NextLine(table: seq<Byte>, to: nat, output: string, line: string)
    requires BYTES_PER_LINE <= to < |table| && Dumping(table, to - BYTES_PER_LINE, to, output, line)
    ensures Dumping(table, to, to + 1, output + (line + "\"\n"), "\"" + ("\\x" + ByteHex(table[to])))
  {
    LineIsFull(table, to - BYTES_PER_LINE, output, line);
    LineGrows(table, to, to, output + (line + "\"\n"), "\"");
  }

  lemma LineIsLast(table: seq<Byte>, from: nat, output: string, line: string)
    requires |table| - from <= BYTES_PER_LINE && Dumping(table, from, |table|, output, line)
    ensures output + (line + "\"\n") == Dump(table)
  {
    assert table[from..|table|] == table[from..];
    LastDumpLine(table[from..]);
  }

  lemma LastDumpLine(bytes: seq<Byte>)
    requires |bytes| <= BYTES_PER_LINE
    ensures Dump(bytes) == ("\"" + Escapes(bytes)) + "\"\n"
  {
  }

  function LineEnds(s: string): nat {
    if s == "" then 0 else (if s[0] == '\n' then 1 else 0) + LineEnds(s[1..])
  }

  lemma {:induction false} LineEndsConcat(a: string, b: string)
    ensures LineEnds(a + b) == LineEnds(a) + LineEnds(b)
  {
    if a == "" {
      assert a + b == b;
    } else {
      ConcatTail(a, b);
      LineEndsConcat(a[1..], b);
    }
  }

  lemma {:induction false} NoLineEnds(s: string)
    requires '\n' !in s
    ensures LineEnds(s) == 0
  {
    if s != "" { NoLineEnds(s[1..]); }
  }

  lemma {:induction false} EscapesHaveNoLineEnd(bytes: seq<Byte>)
    ensures '\n' !in Escapes(bytes)
  {
    if bytes != [] { EscapesHaveNoLineEnd(bytes[1..]); }
  }

  lemma OneLine(bytes: seq<Byte>)
    ensures LineEnds("\"" + Escapes(bytes) + "\"\n") == 1
  {
    EscapesHaveNoLineEnd(bytes);
    NoLineEnds("\"" + Escapes(bytes) + "\"");
    LineEndsConcat("\"" + Escapes(bytes) + "\"", "\n");
    AppendAssociates("\"" + Escapes(bytes), "\"", "\n");
    assert "\"" + "\n" == "\"\n";
    assert LineEnds("\n") == 1 + LineEnds("");
  }

  /** The dump has a line for each 32 bytes begun, and one line for an empty table. */
  lemma {:induction false} DumpLineCount(bytes: seq<Byte>)
    ensures LineEnds(Dump(bytes)) ==
            if bytes == [] then 1 else (|bytes| + BYTES_PER_LINE - 1) / BYTES_PER_LINE
    decreases |bytes|
  {
    if |bytes| <= BYTES_PER_LINE {
      OneLine(bytes);
    } else {
      var line, rest := bytes[..BYTES_PER_LINE], bytes[BYTES_PER_LINE..];
      OneLine(line);
      DumpLineCount(rest);
      LineEndsConcat("\"" + Escapes(line) + "\"\n", Dump(rest));
    }
  }

  // ---------- reading the dump back ----------

  lemma {:induction false} CleanEscapes(bytes: seq<Byte>)
    ensures CleanHex(Escapes(bytes)) == HexBytes(bytes)
  {
    if bytes != [] {
      CleanEscapes(bytes[1..]);
      CleanHexConcat("\\x" + ByteHex(bytes[0]), Escapes(bytes[1..]));
      CleanHexConcat("\\x", ByteHex(bytes[0]));
      CleanHexKeepsHex(ByteHex(bytes[0]));
      assert CleanHex("\\x") == "";
    }
  }

  lemma CleanLine(bytes: seq<Byte>)
    ensures CleanHex("\"" + Escapes(bytes) + "\"\n") == HexBytes(bytes)
  {
    CleanHexConcat("\"" + Escapes(bytes), "\"\n");
    CleanHexConcat("\"", Escapes(bytes));
    CleanEscapes(bytes);
    assert CleanHex("\"") == "" && CleanHex("\"\n") == "";
  }

  lemma {:induction false} CleanDump(bytes: seq<Byte>)
    ensures CleanHex(Dump(bytes)) == HexBytes(bytes)
    decreases |bytes|
  {
    if |bytes| <= BYTES_PER_LINE {
      CleanLine(bytes);
    } else {
      var line, rest := bytes[..BYTES_PER_LINE], bytes[BYTES_PER_LINE..];
      CleanLine(line);
      CleanDump(rest);
      CleanHexConcat("\"" + Escapes(line) + "\"\n", Dump(rest));
      HexBytesConcat(line, rest);
      assert bytes == line + rest;
    }
  }

  /** A table printed by the command and given back as bad characters excludes exactly its own bytes. */
  lemma RunOnDump(bytes: seq<Byte>)
    ensures Run(Dump(bytes)) == Some((Table(bytes), Dump(Table(bytes))))
  {
    CleanDump(bytes);
    PairBytesOfHexBytes(bytes);
  }

  /**
    * Running the command on its own printed table complements it: the second run lists exactly the bytes the
    * first one excluded, ascending and without repeats, and the third run repeats the first.
    */
  lemma ComplementInvolution(badchars: string)
    requires |CleanHex(badchars)| % 2 == 0
    ensures var excluded := PairBytes(CleanHex(badchars));
            var first := Run(badchars);
            && first.Some?
            && var second := Run(first.value.1);
            && second.Some?
            && (forall b: Byte :: b in second.value.0 <==> b in excluded)
            && (forall i, j :: 0 <= i < j < |second.value.0| ==> second.value.0[i] < second.value.0[j])
            && Run(second.value.1) == first
  {
    var excluded := PairBytes(CleanHex(badchars));
    var table := Table(excluded);
    RunOnDump(table);
    RunOnDump(Table(table));
    KeptDependsOnMembers(Table(table), excluded, 256);
  }

  // ---------- what the command promises ----------

  predicate IsHexLetter(c: char) {
    exists v | 0 <= v < 16 :: Writes(c, v)
  }

  /** The digits are all the hex digits of the text, in order. */
  ghost predicate AreDigitsOf(digits: string, text: string) {
    exists at: seq<nat> ::
      && |at| == |digits| && (forall j, k :: 0 <= j < k < |at| ==> at[j] < at[k])
      && (forall k :: 0 <= k < |at| ==> at[k] < |text| && digits[k] == text[at[k]] && IsHexLetter(digits[k]))
      && forall i :: 0 <= i < |text| && IsHexLetter(text[i]) ==> i in at
  }

  /** The byte is written by a pair of the digits. */
  ghost predicate IsWritten(digits: string, b: Byte) {
    exists k :: 0 <= 2 * k < |digits| - 1 && WritesByte(digits[2 * k], digits[2 * k + 1], b)
  }

  predicate WritesByte(high: char, low: char, b: Byte) {
    Writes(high, b / 16) && Writes(low, b % 16)
  }

  /** A quoted line of escapes for the bytes. */
  predicate IsDumpLine(line: string, bytes: seq<Byte>) {
    && |line| == 4 * |bytes| + 2 && line[0] == '"' && line[|line| - 1] == '"'
    && forall i :: 0 <= i < |bytes| ==> IsEscapeOf(line, 4 * i + 1, bytes[i])
  }

  predicate IsEscapeOf(line: string, at: nat, b: Byte) {
    at + 4 <= |line| && line[at..at + 2] == "\\x" && IsByteText(line[at + 2..at + 4], b)
  }

  /** The printed text: lines of 32 bytes, the last one of what remains, and one line at least. */
  ghost predicate IsDump(output: string, table: seq<Byte>) {
    exists lines: seq<string> :: AreDumpLines(lines, table) && Concatenated(lines) == output
  }

  ghost predicate AreDumpLines(lines: seq<string>, table: seq<Byte>)
    decreases |table|
  {
    if |table| <= 32 then |lines| == 1 && EndsLine(lines[0], table)
    else |lines| > 1 && EndsLine(lines[0], table[..32]) && AreDumpLines(lines[1..], table[32..])
  }

  predicate EndsLine(line: string, bytes: seq<Byte>) {
    line != "" && line[|line| - 1] == '\n' && IsDumpLine(line[..|line| - 1], bytes)
  }

  /** The result: an exception for an odd number of digits, else all bytes that are not written, and their dump. */
  ghost predicate IsTable(option: string, result: Option<(seq<Byte>, string)>) {
    exists digits :: AreDigitsOf(digits, option) && IsTableOf(digits, result)
  }

  ghost predicate IsTableOf(digits: string, result: Option<(seq<Byte>, string)>) {
    match result
    case None => |digits| % 2 == 1
    case Some((table, output)) => |digits| % 2 == 0 && IsRest(digits, table) && IsDump(output, table)
  }

  /** The table lists the bytes that the digits do not write, in ascending order. */
  ghost predicate IsRest(digits: string, table: seq<Byte>) {
    && (forall i, j :: 0 <= i < j < |table| ==> table[i] < table[j])
    && forall b: Byte :: b in table <==> !IsWritten(digits, b)
  }

  lemma HexLetterIsDigit(c: char)
    ensures IsHexLetter(c) <==> IsHexDigit(c)
  {
    if v :| 0 <= v < 16 && Writes(c, v) { DigitsAreWritten(c, v); }
    if IsHexDigit(c) { DigitsAreWritten(c, DigitValue(c)); }
  }

  lemma {:induction false} CleanIsDigits(s: string) returns (at: seq<nat>)
    ensures |at| == |CleanHex(s)| && forall j, k :: 0 <= j < k < |at| ==> at[j] < at[k]
    ensures forall k :: 0 <= k < |at| ==> at[k] < |s| && CleanHex(s)[k] == s[at[k]]
    ensures forall i :: 0 <= i < |s| && IsHexDigit(s[i]) ==> i in at
    decreases |s|
  {
    if s == "" {
      at := [];
    } else {
      var n := |s| - 1;
      assert s == s[..n] + [s[n]];
      CleanHexConcat(s[..n], [s[n]]);
      at := CleanIsDigits(s[..n]);
      assert [s[n]][1..] == "";
      if IsHexDigit(s[n]) { at := at + [n]; }
    }
  }

  lemma PairIsWritten(digits: string, b: Byte)
    requires AllHex(digits) && |digits| % 2 == 0
    ensures b in PairBytes(digits) <==> IsWritten(digits, b)
  {
    var bytes := PairBytes(digits);
    forall k | 0 <= k < |bytes| ensures bytes[k] == b <==> WritesByte(digits[2 * k], digits[2 * k + 1], b) {
      PairWrites(digits[2 * k], digits[2 * k + 1], b);
    }
    if b in bytes {
      var k :| 0 <= k < |bytes| && bytes[k] == b;
      assert WritesByte(digits[2 * k], digits[2 * k + 1], b);
    }
    if k :| 0 <= 2 * k < |digits| - 1 && WritesByte(digits[2 * k], digits[2 * k + 1], b) {
      assert bytes[k] == b;
    }
  }

  lemma PairWrites(high: char, low: char, b: Byte)
    requires IsHexDigit(high) && IsHexDigit(low)
    ensures PairValue(high, low) == b <==> WritesByte(high, low, b)
  {
    DigitsAreWritten(high, b / 16);
    DigitsAreWritten(low, b % 16);
  }

  lemma {:induction false} EscapesAre(bytes: seq<Byte>, i: nat)
    ensures |Escapes(bytes)| == 4 * |bytes|
    ensures i < |bytes| ==> IsEscapeOf(Escapes(bytes), 4 * i, bytes[i])
  {
    if bytes != [] {
      EscapesAre(bytes[1..], if i > 0 then i - 1 else 0);
      FirstEscape(bytes[0], Escapes(bytes[1..]));
      if 0 < i < |bytes| { EscapeBehind("\\x" + ByteHex(bytes[0]), Escapes(bytes[1..]), 4 * i - 4, bytes[i]); }
    }
  }

  lemma FirstEscape(b: Byte, rest: string)
    ensures IsEscapeOf("\\x" + ByteHex(b) + rest, 0, b)
  {
    var line := "\\x" + ByteHex(b) + rest;
    ByteHexIs(b);
    assert line[0..2] == "\\x" && line[2..4] == ByteHex(b);
  }

  lemma EscapeBehind(before: string, line: string, at: nat, b: Byte)
    requires IsEscapeOf(line, at, b)
    ensures IsEscapeOf(before + line, |before| + at, b)
  {
    var whole, to := before + line, |before| + at;
    assert whole[to..to + 2] == line[at..at + 2];
    assert whole[to + 2..to + 4] == line[at + 2..at + 4];
  }

  lemma EscapeBefore(line: string, after: string, at: nat, b: Byte)
    requires IsEscapeOf(line, at, b)
    ensures IsEscapeOf(line + after, at, b)
  {
    assert (line + after)[at..at + 2] == line[at..at + 2];
    assert (line + after)[at + 2..at + 4] == line[at + 2..at + 4];
  }

  lemma LineIsDumpLine(bytes: seq<Byte>)
    ensures EndsLine("\"" + Escapes(bytes) + "\"\n", bytes)
  {
    var line, text := "\"" + Escapes(bytes) + "\"", Escapes(bytes);
    assert "\"" + text + "\"\n" == line + "\n" && (line + "\n")[..|line|] == line;
    EscapesAre(bytes, 0);
    forall i | 0 <= i < |bytes| ensures IsEscapeOf(line, 4 * i + 1, bytes[i]) {
      EscapesAre(bytes, i);
      EscapeBehind("\"", text, 4 * i, bytes[i]);
      EscapeBefore("\"" + text, "\"", 4 * i + 1, bytes[i]);
    }
  }

  lemma {:induction false} DumpIsLines(bytes: seq<Byte>) returns (lines: seq<string>)
    ensures AreDumpLines(lines, bytes) && Concatenated(lines) == Dump(bytes)
    decreases |bytes|
  {
    if |bytes| <= BYTES_PER_LINE {
      lines := [Dump(bytes)];
      LineIsDumpLine(bytes);
      ConcatenatedCons(Dump(bytes), []);
      assert Dump(bytes) + "" == Dump(bytes);
    } else {
      var line, rest := bytes[..BYTES_PER_LINE], bytes[BYTES_PER_LINE..];
      var more := DumpIsLines(rest);
      LineIsDumpLine(line);
      lines := ["\"" + Escapes(line) + "\"\n"] + more;
      ConcatenatedCons("\"" + Escapes(line) + "\"\n", more);
      assert lines[1..] == more;
    }
  }

  lemma CleanAreDigits(option: string)
    ensures AreDigitsOf(CleanHex(option), option)
  {
    var at := CleanIsDigits(option);
    forall i | 0 <= i < |option| ensures IsHexLetter(option[i]) <==> IsHexDigit(option[i]) {
      HexLetterIsDigit(option[i]);
    }
    forall k | 0 <= k < |at| ensures IsHexLetter(CleanHex(option)[k]) {
      HexLetterIsDigit(CleanHex(option)[k]);
    }
  }

  lemma TableIsRest(digits: string)
    requires AllHex(digits) && |digits| % 2 == 0
    ensures IsRest(digits, Table(PairBytes(digits)))
  {
    forall b: Byte ensures b in PairBytes(digits) <==> IsWritten(digits, b) { PairIsWritten(digits, b); }
  }

  /** The command's result is the one that is promised. */
  lemma RunIsTable(option: string)
    ensures IsTable(option, Run(option))
  {
    var digits := CleanHex(option);
    CleanAreDigits(option);
    if |digits| % 2 == 0 {
      TableIsRest(digits);
      var lines := DumpIsLines(Table(PairBytes(digits)));
      assert IsDump(Dump(Table(PairBytes(digits))), Table(PairBytes(digits)));
    }
    assert IsTableOf(digits, Run(option));
  }
}
