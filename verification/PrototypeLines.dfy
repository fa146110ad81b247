/** The prototypes that scripts/libc_function_args/tables/generator.py finds broken over several lines. */
module PrototypeLines {
  import opened Sequences
  import opened Strings
  import opened PrototypeTable

  // ---------- what a line parses to ----------

  /** What stands before the last occurrence of a character; nothing when there is none. */
  function UpToLast(s: string, c: char): string {
    if s == "" then ""
    else if s[|s| - 1] == c then s[..|s| - 1]
    else UpToLast(s[..|s| - 1], c)
  }

  lemma {:induction false} UpToLastOf(a: string, b: string, c: char)
    requires c !in b
    ensures UpToLast(a + [c] + b, c) == a
    ensures UpToLast(b, c) == ""
  {
    var s := a + [c] + b;
    if b == "" {
      assert s[..|s| - 1] == a;
    } else {
      var front := b[..|b| - 1];
      assert s[..|s| - 1] == a + [c] + front && s[|s| - 1] == b[|b| - 1];
      UpToLastOf(a, front, c);
    }
  }

  /** A text cut at its last occurrence of a character. */
  lemma {:induction false} CutAtLast(s: string, c: char) returns (a: string, b: string)
    requires c in s
    ensures s == a + [c] + b && c !in b
  {
    var front, last := s[..|s| - 1], s[|s| - 1];
    assert s == front + [last];
    if last == c {
      a, b := front, "";
      assert a + [c] + b == a + [c];
    } else {
      var more;
      a, more := CutAtLast(front, c);
      b := more + [last];
      AppendAssociates(a + [c], more, [last]);
    }
  }

  /** The entry of a line whose first " (" stands after `head`. */
  function EntryOf(head: string, inner: string): Entry {
    Entry(Last(Split(head, " ")), StripAll(Split(inner, ",")))
  }

  lemma ParseRest(head: string, rest: string)
    requires !Occurs(head, " (")
    ensures Parse(head + " (" + rest) == EntryOf(head, UpToLast(rest, ')'))
  {
    FirstOpening(head, rest);
    AfterFirst(head, rest, " (");
    if ')' in rest {
      var a, b := CutAtLast(rest, ')');
      BeforeLast(a, b, ')');
      UpToLastOf(a, b, ')');
    } else {
      SplitNone(rest, ')');
      UpToLastOf("", rest, ')');
    }
  }

  // ---------- telling entries apart ----------

  lemma {:induction false} LStripKeepsCount(s: string, c: char)
    requires !IsSpace(c)
    ensures Count(LStrip(s), c) == Count(s, c)
  {
    if s != "" && IsSpace(s[0]) { LStripKeepsCount(s[1..], c); }
  }

  lemma {:induction false} RStripKeepsCount(s: string, c: char)
    requires !IsSpace(c)
    ensures Count(RStrip(s), c) == Count(s, c)
  {
    if s != "" && IsSpace(s[|s| - 1]) {
      var front, last := s[..|s| - 1], s[|s| - 1];
      RStripKeepsCount(front, c);
      assert s == front + [last];
      CountConcat(front, [last], c);
      CountZero([last], c);
    }
  }

  /** Splitting at commas and stripping keep every other visible character. */
  lemma {:induction false} ArgumentsKeepCount(s: string, c: char)
    requires !IsSpace(c) && c != ','
    ensures Total(StripAll(Split(s, ",")), c) == Count(s, c)
    decreases |s|
  {
    if ',' !in s {
      SplitNone(s, ',');
      OneMoreArgument(s, [], c);
      assert StripAll([]) == [];
    } else {
      var a, b := CutAtFirst(s, ',');
      SplitFirst(a, b, ',');
      ArgumentsKeepCount(b, c);
      OneMoreArgument(a, Split(b, ","), c);
      CountConcat(a + [','], b, c);
      CountConcat(a, [','], c);
      CountZero([','], c);
    }
  }

  lemma OneMoreArgument(part: string, parts: seq<string>, c: char)
    requires !IsSpace(c)
    ensures Total(StripAll([part] + parts), c) == Count(part, c) + Total(StripAll(parts), c)
  {
    StripAllCons(part, parts);
    ConcatTail([Strip(part)], StripAll(parts));
    RStripKeepsCount(part, c);
    LStripKeepsCount(RStrip(part), c);
  }

  /** Different numbers of a visible character, or of commas, make different entries. */
  lemma CountsTellApart(head: string, head': string, inner: string, inner': string, c: char)
    requires !IsSpace(c) && Count(inner, c) != Count(inner', c)
    ensures EntryOf(head, inner) != EntryOf(head', inner')
  {
    if c == ',' {
      PartsCountCommas(inner);
      PartsCountCommas(inner');
    } else {
      ArgumentsKeepCount(inner, c);
      ArgumentsKeepCount(inner', c);
    }
  }

  // ---------- the marked line and the lines after it ----------

  predicate Semicolons(s: string) {
    forall i :: 0 <= i < |s| ==> s[i] == ';'
  }

  lemma {:induction false} RStripSemicolons(s: string, tail: string)
    requires Semicolons(tail)
    ensures RStripChar(s + tail, ';') == RStripChar(s, ';')
  {
    if tail == "" {
      assert s + tail == s;
    } else {
      var front := tail[..|tail| - 1];
      assert (s + tail)[..|s + tail| - 1] == s + front;
      RStripSemicolons(s, front);
    }
  }

  /** What RStripChar removes. */
  lemma {:induction false} StrippedSemicolons(s: string) returns (tail: string)
    ensures s == RStripChar(s, ';') + tail && Semicolons(tail)
    ensures tail == "" <==> s == "" || s[|s| - 1] != ';'
  {
    if s == "" || s[|s| - 1] != ';' {
      tail := "";
    } else {
      var more := StrippedSemicolons(s[..|s| - 1]);
      tail := more + [';'];
      assert s == s[..|s| - 1] + [';'];
      AppendAssociates(RStripChar(s, ';'), more, [';']);
    }
  }

  /** The text of a prototype does not itself hold the marker, wherever its blanks are. */
  predicate Unmarked(text: string) {
    !Occurs(" " + text + " ", MARK)
  }

  /** A piece between two blanks of an unmarked text holds no marker on a line of its own. */
  lemma PieceIsUnmarked(before: string, piece: string, after: string, indent: string, end: string)
    requires !Occurs(before + " " + piece + " " + after, MARK) && Blank(indent) && Blank(end)
    ensures !Occurs(indent + piece + end, MARK)
  {
    var line, whole := indent + piece + end, before + " " + piece + " " + after;
    if i :| 0 <= i <= |line| && OccursAt(line, MARK, i) {
      assert line[i..i + |MARK|] == MARK;
      assert line[i + 1] == MARK[1] == '-' && line[i + 12] == MARK[12] == ':';
      assert |indent| <= i + 1 && i + 12 < |indent| + |piece|;
      var j := i - |indent| + |before| + 1;
      forall k | 0 <= k < |MARK| ensures whole[j + k] == MARK[k] {
        assert line[i + k] == MARK[k];
      }
      assert whole[j..j + |MARK|] == MARK;
      assert OccursAt(whole, MARK, j);
    }
  }

  lemma RemoveMark(rest: string)
    requires !Occurs(rest, MARK)
    ensures Occurs(MARK + rest, MARK) && Remove(MARK + rest, MARK) == rest
  {
    var line := MARK + rest;
    assert line[..|MARK|] == MARK && line[|MARK|..] == rest;
    assert OccursAt(line, MARK, 0);
    FindIs(line, MARK, 0);
  }

  /** A marked line loses the marker, the white space around the text, and the semicolons at its end. */
  lemma DefinitionOf(text: string, end: string)
    requires text != "" && Trimmed(text) && Blank(end) && !Occurs(text + end, MARK)
    requires RStripChar(text, ';') != ""
    ensures Occurs(MARK + (text + end), MARK) && Definition(MARK + (text + end)) == RStripChar(text, ';')
  {
    RemoveMark(text + end);
    RStripTrailing(text, end);
    assert RStrip(text) == text;
    assert RStripChar(text, ';')[0] == text[0];
  }

  lemma ClosedEntry(line: string, text: string, lines: seq<string>)
    requires Occurs(line, MARK) && Definition(line) == text && EndsInParenthesis(text)
    ensures Entries([line] + lines) == [Parse(text)] + Entries(lines)
  {
    ConcatTail([line], lines);
  }

  lemma OpenEntry(line: string, text: string, next: string, lines: seq<string>)
    requires Occurs(line, MARK) && Definition(line) == text && !EndsInParenthesis(text)
    ensures Entries([line, next] + lines) == [Parse(text + " " + Strip(next))] + Entries(lines)
  {
    assert ([line, next] + lines)[2..] == lines;
  }

  // ---------- broken prototypes ----------

  /** A prototype's first line, in its two parts around the first " (". */
  function Opened(head: string, rest: string): string {
    head + " (" + rest
  }

  predicate FirstLine(head: string, rest: string) {
    !Occurs(head, " (") && Trimmed(Opened(head, rest))
  }

  /** The marked line that starts a prototype, and an indented line that goes on with it. */
  function Marked(text: string, end: string): string {
    " -- Function: " + (text + end)
  }

  function Indented(indent: string, text: string, end: string): string {
    indent + text + end
  }

  /** What is left of the argument list when `next` stands on the line after the one that ends in `rest`. */
  function KeptOf(rest: string, next: string): string {
    var first := RStripChar(rest, ';');
    if EndsInParenthesis(first) then first[..|first| - 1] else UpToLast(first + " " + next, ')')
  }

  lemma {:induction false} FirstDefinition(head: string, rest: string)
    ensures RStripChar(Opened(head, rest), ';') == Opened(head, RStripChar(rest, ';'))
  {
    var kept := RStripChar(rest, ';');
    var tail := StrippedSemicolons(rest);
    AppendAssociates(head + " (", kept, tail);
    RStripSemicolons(Opened(head, kept), tail);
    assert kept == "" ==> Opened(head, kept)[|Opened(head, kept)| - 1] == '(';
  }

  lemma ParseFirst(head: string, rest: string)
    requires !Occurs(head, " (") && EndsInParenthesis(rest)
    ensures Parse(Opened(head, rest)) == EntryOf(head, rest[..|rest| - 1])
  {
    ParseRest(head, rest);
  }

  lemma ParseJoined(head: string, rest: string, next: string)
    requires !Occurs(head, " (")
    ensures Parse(Opened(head, rest) + " " + next) == EntryOf(head, UpToLast(rest + " " + next, ')'))
  {
    ParseRest(head, rest + " " + next);
    assert Opened(head, rest) + " " + next == Opened(head, rest + " " + next);
  }

  /** The entry that the loop makes of a first line and the line after it, and what it goes on with. */
  lemma BrokenEntries(head: string, rest: string, next: string, end: string, indent: string, lines: seq<string>)
    requires FirstLine(head, rest) && Trimmed(next) && Blank(end) && Blank(indent)
    requires !Occurs(Opened(head, rest) + end, MARK) && !Occurs(Indented(indent, next, end), MARK)
    ensures Entries([Marked(Opened(head, rest), end), Indented(indent, next, end)] + lines)
         == [EntryOf(head, KeptOf(rest, next))] + Entries(lines)
  {
    var line, second, kept := Marked(Opened(head, rest), end), Indented(indent, next, end), RStripChar(rest, ';');
    FirstDefinition(head, rest);
    DefinitionOf(Opened(head, rest), end);
    SameEnd(head, kept);
    if EndsInParenthesis(kept) {
      TwoAndMore(line, second, "", lines);
      ClosedEntry(line, Opened(head, kept), [second] + lines);
      ParseFirst(head, kept);
      PlainLine(second, lines);
    } else {
      OpenEntry(line, Opened(head, kept), second, lines);
      StripAround(indent, next, end);
      ParseJoined(head, kept, next);
    }
  }

  lemma SameEnd(head: string, rest: string)
    ensures EndsInParenthesis(Opened(head, rest)) <==> EndsInParenthesis(rest)
  {
    assert rest == "" ==> Opened(head, rest)[|Opened(head, rest)| - 1] == '(';
  }

  lemma PlainLine(line: string, lines: seq<string>)
    requires !Occurs(line, MARK)
    ensures Entries([line] + lines) == Entries(lines)
  {
    ConcatTail([line], lines);
  }

  /** The entry of a whole prototype on one line, with or without semicolons behind it. */
  lemma WholeEntries(head: string, inner: string, tail: string, end: string, lines: seq<string>)
    requires FirstLine(head, inner + ")") && Semicolons(tail) && Blank(end)
    requires !Occurs(Opened(head, inner + ")") + tail + end, MARK)
    ensures Entries([Marked(Opened(head, inner + ")") + tail, end)] + lines) == [EntryOf(head, inner)] + Entries(lines)
  {
    var text := Opened(head, inner + ")");
    RStripSemicolons(text, tail);
    assert RStripChar(text, ';') == text;
    assert Trimmed(text + tail) by {
      assert tail == "" ==> text + tail == text;
    }
    DefinitionOf(text + tail, end);
    ClosedEntry(Marked(text + tail, end), text, lines);
    ParseFirst(head, inner + ")");
  }

  /** With what stands on the second line, the whole list is kept exactly when the first does not end in `)` or `;`. */
  lemma KeptIsWholeIff(head: string, rest: string, second: string, tail: string)
    requires Semicolons(tail)
    ensures EntryOf(head, KeptOf(rest, second + ")" + tail)) == EntryOf(head, rest + " " + second)
       <==> rest == "" || (rest[|rest| - 1] != ')' && rest[|rest| - 1] != ';')
  {
    var first := RStripChar(rest, ';');
    var cutOff := StrippedSemicolons(rest);
    var whole := rest + " " + second;
    if EndsInParenthesis(first) {
      var front := first[..|first| - 1];
      assert first == front + [')'];
      AppendAssociates(first, cutOff, " " + second);
      assert whole == front + ([')'] + (cutOff + (" " + second)));
      CountConcat(front, [')'] + (cutOff + (" " + second)), ')');
      CountConcat([')'], cutOff + (" " + second), ')');
      CountOne(')');
      CountsTellApart(head, head, front, whole, ')');
    } else {
      var joined := first + " " + second;
      assert first + " " + (second + ")" + tail) == joined + [')'] + tail;
      UpToLastOf(joined, tail, ')');
      if cutOff != "" {
        assert whole == first + (cutOff + (" " + second));
        assert joined == first + (" " + second);
        CountConcat(first, cutOff + (" " + second), ';');
        CountConcat(cutOff, " " + second, ';');
        CountConcat(first, " " + second, ';');
        CountZero(cutOff, ';');
        assert cutOff[0] == ';';
        CountsTellApart(head, head, joined, whole, ';');
      } else {
        assert first == rest;
      }
    }
  }

  /**
    * A prototype broken at a space gives the same entries as on one line exactly when its first line ends neither
    * in a parenthesis, which the loop takes for the end, nor in a semicolon, which it strips. The second line may
    * be indented and may end in semicolons.
    */
  lemma BrokenPrototypeIff(head: string, rest: string, second: string, tail: string, end: string, indent: string,
                           lines: seq<string>)
    requires FirstLine(head, rest) && Trimmed(second + ")") && Semicolons(tail) && Blank(end) && Blank(indent)
    requires Unmarked(Opened(head, rest) + " " + (second + ")" + tail))
    ensures var first, next := Opened(head, rest), second + ")" + tail;
            (Entries([Marked(first + " " + next, end)] + lines)
             == Entries([Marked(first, end), Indented(indent, next, end)] + lines)
             <==> first[|first| - 1] != ')' && first[|first| - 1] != ';')
  {
    var first, next := Opened(head, rest), second + ")" + tail;
    LinesAreUnmarked(first, next, end, indent);
    JoinedText(head, rest, second, tail);
    WholeEntries(head, rest + " " + second, tail, end, lines);
    BrokenEntries(head, rest, next, end, indent, lines);
    KeptIsWholeIff(head, rest, second, tail);
    FirstEntryDecides(EntryOf(head, rest + " " + second), EntryOf(head, KeptOf(rest, next)), Entries(lines));
    LastOfFirst(head, rest);
  }

  /** A break before the argument list does no harm either: any first line that ends in neither is joined whole. */
  lemma BrokenPrototype(first: string, second: string, end: string, indent: string, lines: seq<string>)
    requires first != "" && Trimmed(first) && first[|first| - 1] != ';' && first[|first| - 1] != ')'
    requires Trimmed(second) && EndsInParenthesis(second) && Blank(end) && Blank(indent)
    requires Unmarked(first + " " + second)
    ensures Entries([Marked(first + " " + second, end)] + lines)
         == Entries([Marked(first, end), Indented(indent, second, end)] + lines)
  {
    var text := first + " " + second;
    LinesAreUnmarked(first, second, end, indent);
    TextsJoin(first, second);
    PlainDefinition(text, end);
    PlainDefinition(first, end);
    StripAround(indent, second, end);
    ClosedEntry(Marked(text, end), text, lines);
    OpenEntry(Marked(first, end), first, Indented(indent, second, end), lines);
  }

  /** A marked text without semicolons at its end is its own definition. */
  lemma PlainDefinition(text: string, end: string)
    requires text != "" && Trimmed(text) && text[|text| - 1] != ';' && Blank(end) && !Occurs(text + end, MARK)
    ensures Occurs(Marked(text, end), MARK) && Definition(Marked(text, end)) == text
  {
    assert RStripChar(text, ';') == text;
    DefinitionOf(text, end);
  }

  lemma TextsJoin(first: string, second: string)
    requires first != "" && second != "" && Trimmed(first) && Trimmed(second)
    ensures var text := first + " " + second;
            Trimmed(text) && text[|text| - 1] == second[|second| - 1]
  {
    var text := first + " " + second;
    assert text[0] == first[0];
  }

  lemma FirstEntryDecides(a: Entry, b: Entry, entries: seq<Entry>)
    ensures [a] + entries == [b] + entries <==> a == b
  {
    assert ([a] + entries)[0] == a && ([b] + entries)[0] == b;
  }

  lemma LastOfFirst(head: string, rest: string)
    ensures var first := Opened(head, rest);
            first[|first| - 1] == if rest == "" then '(' else rest[|rest| - 1]
  {
  }

  /** The one-line text, and the two lines' white space. */
  lemma JoinedText(head: string, rest: string, second: string, tail: string)
    requires FirstLine(head, rest) && Trimmed(second + ")") && Semicolons(tail)
    ensures Opened(head, rest) + " " + (second + ")" + tail) == Opened(head, rest + " " + second + ")") + tail
    ensures FirstLine(head, rest + " " + second + ")") && Trimmed(second + ")" + tail)
  {
    var whole := Opened(head, rest + " " + second + ")");
    assert whole == Opened(head, rest) + (" " + second + ")");
    assert whole[0] == Opened(head, rest)[0] && whole[|whole| - 1] == ')';
    assert (second + ")" + tail)[0] == (second + ")")[0];
    assert tail != "" ==> (second + ")" + tail)[|second + ")" + tail| - 1] == ';';
    assert tail == "" ==> second + ")" + tail == second + ")";
  }

  lemma LinesAreUnmarked(first: string, next: string, end: string, indent: string)
    requires Unmarked(first + " " + next) && Blank(end) && Blank(indent)
    ensures !Occurs(first + " " + next + end, MARK) && !Occurs(first + end, MARK)
    ensures !Occurs(Indented(indent, next, end), MARK)
  {
    var whole := " " + (first + " " + next) + " ";
    assert whole == "" + " " + (first + " " + next) + " " + "";
    PieceIsUnmarked("", first + " " + next, "", "", end);
    assert whole == "" + " " + first + " " + (next + " ");
    PieceIsUnmarked("", first, next + " ", "", end);
    assert whole == (" " + first) + " " + next + " " + "";
    PieceIsUnmarked(" " + first, next, "", indent, end);
    assert "" + (first + " " + next) + end == first + " " + next + end && "" + first + end == first + end;
  }

  /** Only two lines are ever joined: whatever stands on the third is cut, always. */
  lemma CutListDiffers(head: string, rest: string, second: string, third: string)
    requires Trimmed(second) && second != ""
    ensures EntryOf(head, KeptOf(rest, second)) != EntryOf(head, rest + " " + second + " " + third)
  {
    var first := RStripChar(rest, ';');
    var cutOff := StrippedSemicolons(rest);
    var whole := rest + " " + second + " " + third;
    if EndsInParenthesis(first) {
      var front, after := first[..|first| - 1], cutOff + " " + second + " " + third;
      assert whole == front + ([')'] + after);
      ParenthesisBehind(head, front, after);
    } else if ')' in first + " " + second {
      CutTextDiffers(head, first, cutOff, second, third);
    } else {
      UpToLastOf("", first + " " + second, ')');
      EmptyListDiffers(head, rest + " ", second, " " + third);
      assert whole == (rest + " ") + (second + (" " + third));
    }
  }

  lemma CutTextDiffers(head: string, first: string, cutOff: string, second: string, third: string)
    requires ')' in first + " " + second
    ensures EntryOf(head, UpToLast(first + " " + second, ')'))
         != EntryOf(head, first + cutOff + " " + second + " " + third)
  {
    var front, back := CutAtLast(first + " " + second, ')');
    UpToLastOf(front, back, ')');
    MoreParentheses(first, cutOff, second, third);
    CountConcat(front + [')'], back, ')');
    CountConcat(front, [')'], ')');
    CountOne(')');
    CountsTellApart(head, head, front, first + cutOff + " " + second + " " + third, ')');
  }

  lemma EmptyListDiffers(head: string, before: string, second: string, after: string)
    requires Trimmed(second) && second != ""
    ensures EntryOf(head, "") != EntryOf(head, before + (second + after))
  {
    CountConcat(before, second + after, second[0]);
    CountConcat(second, after, second[0]);
    CountZero(second, second[0]);
    CountsTellApart(head, head, "", before + (second + after), second[0]);
  }

  lemma ParenthesisBehind(head: string, front: string, after: string)
    ensures EntryOf(head, front) != EntryOf(head, front + ([')'] + after))
  {
    CountConcat(front, [')'] + after, ')');
    CountConcat([')'], after, ')');
    CountOne(')');
    CountsTellApart(head, head, front, front + ([')'] + after), ')');
  }

  lemma MoreParentheses(first: string, cutOff: string, second: string, third: string)
    ensures Count(first + " " + second, ')') <= Count(first + cutOff + " " + second + " " + third, ')')
  {
    CountConcat(first + cutOff + " " + second, " " + third, ')');
    CountConcat(first + cutOff + " ", second, ')');
    CountConcat(first + cutOff, " ", ')');
    CountConcat(first, cutOff, ')');
    CountConcat(first + " ", second, ')');
    CountConcat(first, " ", ')');
    assert first + cutOff + " " + second + " " + third == (first + cutOff + " " + second) + (" " + third);
  }

  /** A prototype over three lines loses its third line, and never has the entries it has on one line. */
  lemma ThirdLineIsLost(head: string, rest: string, second: string, third: string, tail: string, end: string,
                        indent: string, lines: seq<string>)
    requires FirstLine(head, rest) && Trimmed(second) && second != "" && Trimmed(third + ")") && Semicolons(tail)
    requires Blank(end) && Blank(indent)
    requires Unmarked(Opened(head, rest) + " " + (second + " " + (third + ")" + tail)))
    ensures var first, last := Opened(head, rest), third + ")" + tail;
            var broken := Entries([Marked(first, end), Indented(indent, second, end), Indented(indent, last, end)]
                                  + lines);
            && broken == Entries([Marked(first, end), Indented(indent, second, end)] + lines)
            && broken != Entries([Marked(first + " " + (second + " " + last), end)] + lines)
  {
    var first, last := Opened(head, rest), third + ")" + tail;
    var line3 := Indented(indent, last, end);
    ThreeLinesAreUnmarked(first, second, last, end, indent);
    BrokenEntries(head, rest, second, end, indent, [line3] + lines);
    BrokenEntries(head, rest, second, end, indent, lines);
    PlainLine(line3, lines);
    TwoAndMore(Marked(first, end), Indented(indent, second, end), line3, lines);
    ThreePartText(head, rest, second, third, tail);
    WholeEntries(head, rest + " " + second + " " + third, tail, end, lines);
    CutListDiffers(head, rest, second, third);
    FirstEntryDecides(EntryOf(head, KeptOf(rest, second)), EntryOf(head, rest + " " + second + " " + third),
                      Entries(lines));
  }

  lemma TwoAndMore(a: string, b: string, c: string, lines: seq<string>)
    ensures [a, b, c] + lines == [a, b] + ([c] + lines)
    ensures [a, b] + lines == [a] + ([b] + lines)
  {
  }

  lemma ThreePartText(head: string, rest: string, second: string, third: string, tail: string)
    requires FirstLine(head, rest) && Trimmed(second) && second != "" && Trimmed(third + ")") && Semicolons(tail)
    ensures Opened(head, rest) + " " + (second + " " + (third + ")" + tail))
         == Opened(head, rest + " " + second + " " + third + ")") + tail
    ensures FirstLine(head, rest + " " + second + " " + third + ")")
  {
    var joined := second + " " + third;
    assert Trimmed(joined + ")") by {
      assert (joined + ")")[0] == second[0] && (joined + ")")[|joined + ")"| - 1] == ')';
    }
    JoinedText(head, rest, joined, tail);
    assert rest + " " + joined == rest + " " + second + " " + third;
    assert joined + ")" + tail == second + " " + (third + ")" + tail);
  }

  lemma ThreeLinesAreUnmarked(first: string, second: string, last: string, end: string, indent: string)
    requires Unmarked(first + " " + (second + " " + last)) && Blank(end) && Blank(indent)
    ensures !Occurs(first + " " + (second + " " + last) + end, MARK) && !Occurs(first + end, MARK)
    ensures !Occurs(Indented(indent, second, end), MARK) && !Occurs(Indented(indent, last, end), MARK)
  {
    var whole := " " + (first + " " + (second + " " + last)) + " ";
    LinesAreUnmarked(first, second + " " + last, end, indent);
    assert whole == (" " + first) + " " + second + " " + (last + " ");
    PieceIsUnmarked(" " + first, second, last + " ", indent, end);
    assert whole == (" " + first + " " + second) + " " + last + " " + "";
    PieceIsUnmarked(" " + first + " " + second, last, "", indent, end);
  }

  // ---------- a prototype of the manual ----------

  const GLOB_ARGS := ["const char *PATTERN", "int FLAGS", "int (*ERRFUNC"]
  const GLOB_REST := "(const char *FILENAME, " + "int ERROR-CODE), " + "glob_t *VECTOR-PTR)"

  /** The manual breaks `glob` behind a parenthesis: the entry ends there, and the second line is not read at all. */
  lemma GlobIsCut(lines: seq<string>)
    ensures Entries([Marked(Prototype("int", "glob", GLOB_ARGS), "\n"), Indented("         ", GLOB_REST, "\n")] + lines)
         == [Entry("glob", GLOB_ARGS)] + Entries(lines)
  {
    var line, next := Prototype("int", "glob", GLOB_ARGS), Indented("         ", GLOB_REST, "\n");
    GlobParses();
    GlobIsUnmarked();
    DefinitionOf(line, "\n");
    ClosedEntry(Marked(line, "\n"), line, [next] + lines);
    PlainLine(next, lines);
    TwoAndMore(Marked(line, "\n"), next, "", lines);
  }

  lemma GlobArguments()
    ensures Recoverable(GLOB_ARGS)
    ensures forall k :: 0 <= k < |GLOB_ARGS| ==> ':' !in GLOB_ARGS[k]
  {
    assert ',' !in GLOB_ARGS[0] && ':' !in GLOB_ARGS[0];
    assert ',' !in GLOB_ARGS[1] && ':' !in GLOB_ARGS[1];
    assert ',' !in GLOB_ARGS[2] && ':' !in GLOB_ARGS[2];
  }

  lemma GlobParses()
    ensures var line := Prototype("int", "glob", GLOB_ARGS);
            Parse(line) == Entry("glob", GLOB_ARGS) && Trimmed(line) && EndsInParenthesis(line)
  {
    NoCharNoPattern(Head("int", "glob"), " (", 1);
    NameRoundTrip("int", "glob", GLOB_ARGS);
    GlobArguments();
    ArgumentsRoundTripIff("int", "glob", GLOB_ARGS);
    PrototypeEnds("int", "glob", Join(GLOB_ARGS, ", "));
  }

  lemma PrototypeEnds(ret: string, name: string, list: string)
    requires ret != "" && !IsSpace(ret[0])
    ensures var line := Head(ret, name) + " (" + (list + ")");
            Trimmed(line) && EndsInParenthesis(line)
  {
    var line := Head(ret, name) + " (" + (list + ")");
    assert line[0] == ret[0] && line[|line| - 1] == ')';
  }

  lemma {:induction false} NotInJoin(args: seq<string>, c: char)
    requires c != ',' && c != ' ' && forall k :: 0 <= k < |args| ==> c !in args[k]
    ensures c !in Join(args, ", ")
  {
    if |args| > 1 { NotInJoin(args[1..], c); }
  }

  lemma GlobIsUnmarked()
    ensures !Occurs(Prototype("int", "glob", GLOB_ARGS) + "\n", MARK)
    ensures !Occurs(Indented("         ", GLOB_REST, "\n"), MARK)
  {
    GlobArguments();
    NotInJoin(GLOB_ARGS, ':');
    GlobHasNoColon("int", "glob", Join(GLOB_ARGS, ", "));
    NoCharNoPattern(Prototype("int", "glob", GLOB_ARGS) + "\n", MARK, 12);
    assert ':' !in "(const char *FILENAME, " && ':' !in "int ERROR-CODE), " && ':' !in "glob_t *VECTOR-PTR)";
    assert ':' !in GLOB_REST;
    NoCharNoPattern(Indented("         ", GLOB_REST, "\n"), MARK, 12);
  }

  lemma GlobHasNoColon(ret: string, name: string, list: string)
    requires ':' !in ret && ':' !in name && ':' !in list
    ensures ':' !in Head(ret, name) + " (" + (list + ")") + "\n" && MARK[12] == ':'
  {
  }

  lemma NoCharNoPattern(s: string, pattern: string, k: nat)
    requires k < |pattern| && pattern[k] !in s
    ensures !Occurs(s, pattern)
  {
    forall i | 0 <= i <= |s| ensures !OccursAt(s, pattern, i) {
      if i + |pattern| <= |s| {
        assert s[i..i + |pattern|][k] == s[i + k];
      }
    }
  }
}
