/** The table of libc prototypes in scripts/libc_function_args/tables/generator.py: parsing, reading, writing. */
module PrototypeTable {
  import opened Options
  import opened Sequences
  import opened Strings

  type Prototypes = map<string, seq<string>>

  // ---------- parsing one prototype ----------

  function Last(parts: seq<string>): string
    requires parts != []
  {
    parts[|parts| - 1]
  }

  function Front(parts: seq<string>): seq<string>
    requires parts != []
  {
    parts[..|parts| - 1]
  }

  function FunctionName(line: string): string {
    Last(Split(Split(line, " (")[0], " "))
  }

  function StripAll(parts: seq<string>): (stripped: seq<string>)
    ensures |stripped| == |parts|
    ensures forall k :: 0 <= k < |parts| ==> stripped[k] == Strip(parts[k])
  {
    seq(|parts|, k requires 0 <= k < |parts| => Strip(parts[k]))
  }

  function FunctionArgs(line: string): seq<string> {
    var rest := Join(Split(line, " (")[1..], " (");
    var inner := Join(Front(Split(rest, ")")), ")");
    StripAll(Split(inner, ","))
  }

  /** RET NAME (A1, ..., An) */
  function Prototype(ret: string, name: string, args: seq<string>): string {
    Head(ret, name) + " (" + (Join(args, ", ") + ")")
  }

  function Head(ret: string, name: string): string {
    ret + " " + name
  }

  // ---------- what split and join select ----------

  lemma AfterFirst(a: string, b: string, separator: string)
    requires separator != "" && Find(a + separator + b, separator) == Some(|a|)
    ensures Split(a + separator + b, separator)[0] == a
    ensures Join(Split(a + separator + b, separator)[1..], separator) == b
  {
    var s := a + separator + b;
    assert s[..|a|] == a && s[|a| + |separator|..] == b;
    assert Split(s, separator)[1..] == Split(b, separator);
    JoinOfSplit(b, separator);
  }

  /** The first " (" of a text whose beginning has none. */
  lemma FirstOpening(head: string, rest: string)
    requires !Occurs(head, " (")
    ensures Find(head + " (" + rest, " (") == Some(|head|)
  {
    var s := head + " (" + rest;
    assert s[|head|..|head| + 2] == " (";
    forall k | 0 <= k < |head| ensures !OccursAt(s, " (", k) {
      if k + 2 <= |head| {
        assert head[k..k + 2] == s[k..k + 2] && !OccursAt(head, " (", k);
      } else {
        assert s[k..k + 2][1] == s[k + 1] == ' ';
      }
    }
    FindIs(s, " (", |head|);
  }

  /** A text cut at its first occurrence of a character. */
  lemma CutAtFirst(s: string, c: char) returns (a: string, b: string)
    requires c in s
    ensures s == a + [c] + b && c !in a
  {
    CharOccurs(s, c);
    var i := Find(s, [c]).value;
    a, b := s[..i], s[i + 1..];
    assert s[i..i + 1] == [c];
    CutAt(s, i, i + 1);
    if c in a {
      var k :| 0 <= k < |a| && a[k] == c;
      assert OccursAt(s, [c], k);
    }
  }

  /** Dropping the last part and joining again gives what stands before the last occurrence. */
  lemma {:induction false} BeforeLast(a: string, b: string, c: char)
    requires c !in b
    ensures Join(Front(Split(a + [c] + b, [c])), [c]) == a
    ensures Last(Split(a + [c] + b, [c])) == b
    decreases |a|
  {
    if c !in a {
      SplitFirst(a, b, c);
      SplitNone(b, c);
    } else {
      var first, more := CutAtFirst(a, c);
      var rest := more + [c] + b;
      Flatten(first, [c], more, [c], b);
      BeforeLast(more, b, c);
      SplitFirst(first, rest, c);
      TwoPartsOrMore(more, b, c);
      FrontOfCons(first, Split(rest, [c]));
      JoinCons(first, Front(Split(rest, [c])), [c]);
    }
  }

  lemma Flatten(a: string, b: string, c: string, d: string, e: string)
    ensures a + b + c + d + e == a + b + (c + d + e)
  {
  }

  lemma TwoPartsOrMore(a: string, b: string, c: char)
    ensures |Split(a + [c] + b, [c])| > 1
  {
    assert (a + [c] + b)[|a|] == c;
    CharOccurs(a + [c] + b, c);
  }

  lemma FrontOfCons(head: string, parts: seq<string>)
    requires parts != []
    ensures Front([head] + parts) == [head] + Front(parts) && Last([head] + parts) == Last(parts)
  {
  }

  /** A line without an argument list is all name, from its last blank on, and has one empty argument. */
  lemma ParseWithoutList(ret: string, name: string)
    requires ' ' !in name && !Occurs(ret + [' '] + name, " (")
    ensures FunctionName(ret + [' '] + name) == name && FunctionArgs(ret + [' '] + name) == [""]
  {
    var line := ret + [' '] + name;
    assert Split(line, " (") == [line];
    BeforeLast(ret, name, ' ');
    SplitNone("", ')');
    SplitNone("", ',');
    assert Join([], " (") == "" && Front([""]) == [] && Strip("") == "";
  }

  // ---------- the arguments ----------

  function Count(s: string, c: char): nat {
    if s == "" then 0 else (if s[0] == c then 1 else 0) + Count(s[1..], c)
  }

  lemma {:induction false} CountConcat(a: string, b: string, c: char)
    ensures Count(a + b, c) == Count(a, c) + Count(b, c)
  {
    if a == "" {
      assert a + b == b;
    } else {
      ConcatTail(a, b);
      CountConcat(a[1..], b, c);
    }
  }

  lemma {:induction false} CountZero(s: string, c: char)
    ensures Count(s, c) == 0 <==> c !in s
  {
    if s != "" {
      CountZero(s[1..], c);
      HeadTail(s);
    }
  }

  lemma CountOne(c: char)
    ensures Count([c], c) == 1
  {
    assert [c][1..] == "";
  }

  lemma {:induction false} PartsCountCommas(s: string)
    ensures |Split(s, ",")| == 1 + Count(s, ',')
    decreases |s|
  {
    if ',' !in s {
      SplitNone(s, ',');
      CountZero(s, ',');
    } else {
      var a, b := CutAtFirst(s, ',');
      SplitFirst(a, b, ',');
      PartsCountCommas(b);
      CountZero(a, ',');
      CountConcat(a + ",", b, ',');
      CountConcat(a, ",", ',');
      CountOne(',');
    }
  }

  /** How often a character occurs in all the texts together. */
  function Total(args: seq<string>, c: char): nat {
    if args == [] then 0 else Count(args[0], c) + Total(args[1..], c)
  }

  lemma {:induction false} CommasOfList(args: seq<string>)
    requires args != []
    ensures Count(Join(args, ", "), ',') == Total(args, ',') + |args| - 1
  {
    if |args| > 1 {
      CommasOfList(args[1..]);
      CountConcat(args[0] + ", ", Join(args[1..], ", "), ',');
      CountConcat(args[0], ", ", ',');
      assert Count(", ", ',') == 1 + Count(" ", ',') && Count(" ", ',') == Count("", ',');
    }
  }

  lemma {:induction false} NoCommasAnywhere(args: seq<string>)
    requires Total(args, ',') == 0
    ensures forall k :: 0 <= k < |args| ==> ',' !in args[k]
  {
    if args != [] {
      CountZero(args[0], ',');
      NoCommasAnywhere(args[1..]);
      HeadTail(args);
    }
  }

  predicate Recoverable(args: seq<string>) {
    args != [] && forall k :: 0 <= k < |args| ==> ',' !in args[k] && Trimmed(args[k])
  }

  lemma StripLeadingBlank(s: string)
    requires Trimmed(s)
    ensures Strip(" " + s) == s && Strip(s) == s
  {
    StripAround(" ", s, "");
    StripAround("", s, "");
    assert " " + s + "" == " " + s && "" + s + "" == s;
  }

  lemma StripAllCons(part: string, parts: seq<string>)
    ensures StripAll([part] + parts) == [Strip(part)] + StripAll(parts)
  {
  }

  lemma JoinTail(args: seq<string>, lead: string)
    requires |args| > 1
    ensures lead + Join(args, ", ") == lead + args[0] + [','] + (" " + Join(args[1..], ", "))
  {
    assert ", " == [','] + " ";
    Regroup(lead, args[0], [','], " ", Join(args[1..], ", "));
  }

  lemma Regroup(a: string, b: string, c: string, d: string, e: string)
    ensures a + (b + (c + d) + e) == a + b + c + (d + e)
  {
  }

  /** The printed list, perhaps with a blank in front, splits and strips back to the arguments. */
  lemma {:induction false} ListRoundTrip(args: seq<string>, lead: string)
    requires Recoverable(args) && (lead == "" || lead == " ")
    ensures StripAll(Split(lead + Join(args, ", "), ",")) == args
  {
    var first := lead + args[0];
    assert Strip(first) == args[0] by {
      StripLeadingBlank(args[0]);
      assert "" + args[0] == args[0];
    }
    assert ',' !in first;
    HeadTail(args);
    if |args| == 1 {
      SplitNone(first, ',');
      StripAllCons(first, []);
    } else {
      var rest := " " + Join(args[1..], ", ");
      ListRoundTrip(args[1..], " ");
      SplitFirst(first, rest, ',');
      JoinTail(args, lead);
      StripAllCons(first, Split(rest, ","));
    }
  }

  predicate PlainHead(ret: string, name: string) {
    ' ' !in name && !Occurs(Head(ret, name), " (")
  }

  lemma ArgsOfPrototype(ret: string, name: string, args: seq<string>)
    requires PlainHead(ret, name)
    ensures FunctionArgs(Prototype(ret, name, args)) == StripAll(Split(Join(args, ", "), ","))
  {
    var list := Join(args, ", ");
    FirstOpening(Head(ret, name), list + ")");
    AfterFirst(Head(ret, name), list + ")", " (");
    BeforeLast(list, "", ')');
    assert list + [')'] + "" == list + ")";
  }

  /** A printed prototype gives its name back, whatever stands in the arguments. */
  lemma NameRoundTrip(ret: string, name: string, args: seq<string>)
    requires PlainHead(ret, name)
    ensures FunctionName(Prototype(ret, name, args)) == name
  {
    var list := Join(args, ", ");
    FirstOpening(Head(ret, name), list + ")");
    AfterFirst(Head(ret, name), list + ")", " (");
    BeforeLast(ret, name, ' ');
  }

  /**
    * It gives its arguments back exactly when there is at least one and each is trimmed and has no comma;
    * parentheses inside an argument do no harm.
    */
  lemma ArgumentsRoundTripIff(ret: string, name: string, args: seq<string>)
    requires PlainHead(ret, name)
    ensures FunctionArgs(Prototype(ret, name, args)) == args <==> Recoverable(args)
  {
    var list := Join(args, ", ");
    ArgsOfPrototype(ret, name, args);
    if Recoverable(args) {
      ListRoundTrip(args, "");
      assert "" + list == list;
    }
    if StripAll(Split(list, ",")) == args {
      PartsCountCommas(list);
      CommasOfList(args);
      NoCommasAnywhere(args);
      forall k | 0 <= k < |args| ensures Trimmed(args[k]) {
        StripIsTrimmed(Split(list, ",")[k]);
      }
    }
  }

  // ---------- the read loop ----------

  const MARK := " -- Function: "

  datatype Entry = Entry(name: string, args: seq<string>)

  function Parse(line: string): Entry {
    Entry(FunctionName(line), FunctionArgs(line))
  }

  function Definition(line: string): string {
    LStrip(RStripChar(RStrip(Remove(line, MARK)), ';'))
  }

  predicate EndsInParenthesis(line: string) {
    line != "" && line[|line| - 1] == ')'
  }

  /** The prototypes of a sequence of lines, in order; an open one takes the line after it. */
  function Entries(lines: seq<string>): seq<Entry>
    decreases |lines|
  {
    if lines == [] then []
    else if !Occurs(lines[0], MARK) then Entries(lines[1..])
    else if EndsInParenthesis(Definition(lines[0])) then [Parse(Definition(lines[0]))] + Entries(lines[1..])
    else if |lines| == 1 then [Parse(Definition(lines[0]) + " " + "")]
    else [Parse(Definition(lines[0]) + " " + Strip(lines[1]))] + Entries(lines[2..])
  }

  function Store(table: Prototypes, entries: seq<Entry>): Prototypes
    decreases entries
  {
    if entries == [] then table
    else Store(table[entries[0].name := entries[0].args], entries[1..])
  }

  /** The end of the line that starts at `from`. */
  function LineEnd(data: string, from: nat): (end: nat)
    requires from <= |data|
    ensures from <= end <= |data| && (from < |data| ==> from < end)
    decreases |data| - from
  {
    if from == |data| then from
    else if data[from] == '\n' then from + 1
    else LineEnd(data, from + 1)
  }

  function Lines(data: string, from: nat): seq<string>
    requires from <= |data|
    decreases |data| - from
  {
    if from == |data| then [] else [data[from..LineEnd(data, from)]] + Lines(data, LineEnd(data, from))
  }

  /** The lines are the file: nothing is skipped or read twice. */
  lemma {:induction false} LinesAreTheFile(data: string, from: nat)
    requires from <= |data|
    ensures Concatenated(Lines(data, from)) == data[from..]
    decreases |data| - from
  {
    if from < |data| {
      var end := LineEnd(data, from);
      LinesAreTheFile(data, end);
      assert data[from..] == data[from..end] + data[end..];
    }
  }

  /** Each line holds one line end, its last character; only the last line of the file may lack it. */
  lemma {:induction false} LinesEndAtNewlines(data: string, from: nat, k: nat)
    requires from <= |data| && k < |Lines(data, from)|
    ensures var line := Lines(data, from)[k];
            && line != "" && '\n' !in line[..|line| - 1]
            && (k < |Lines(data, from)| - 1 ==> line[|line| - 1] == '\n')
    decreases k
  {
    var end := LineEnd(data, from);
    if k > 0 {
      LinesEndAtNewlines(data, end, k - 1);
    } else {
      LineEndIsFirst(data, from);
      assert Lines(data, from)[0] == data[from..end];
    }
  }

  lemma {:induction false} LineEndIsFirst(data: string, from: nat)
    requires from < |data|
    ensures var end := LineEnd(data, from);
            && (forall k :: from <= k < end - 1 ==> data[k] != '\n')
            && (end < |data| ==> data[end - 1] == '\n')
    decreases |data| - from
  {
    if data[from] != '\n' && from + 1 < |data| { LineEndIsFirst(data, from + 1); }
  }

  /** The opened file. */
  class File {
    const data: string
    var position: nat

    constructor (data: string)
      ensures this.data == data && position == 0
    {
      this.data, position := data, 0;
    }

    predicate Valid()
      reads this
    {
      position <= |data|
    }

    method ReadLine() returns (line: string)
      requires Valid()
      modifies this
      ensures Valid() && old(position) <= position
      ensures position == LineEnd(data, old(position)) && line == data[old(position)..position]
    {
      var end := LineEnd(data, position);
      line := data[position..end];
      position := end;
    }

    function Tell(): nat
      reads this
    {
      position
    }
  }

  /** What is still to be stored when the file stands at `position`. */
  ghost function Remaining(table: Prototypes, data: string, position: nat): Prototypes
    requires position <= |data|
  {
    Store(table, Entries(Lines(data, position)))
  }

  /**
    * The loop that fills the dictionary. It stops when a read does not move the file position; after a joined
    * pair of lines `old_pos` lags behind, so one more empty read is needed at the end of the file.
    */
  method ReadPrototypes(fh: File, initial: Prototypes) returns (table: Prototypes)
    requires fh.Valid()
    modifies fh
    ensures fh.position == |fh.data|
    ensures table == Store(initial, Entries(Lines(fh.data, old(fh.position))))
  {
    table := initial;
    var oldPos := fh.Tell();
    while true
      invariant fh.Valid() && oldPos <= fh.position
      invariant Remaining(table, fh.data, fh.position) == Remaining(initial, fh.data, old(fh.position))
      decreases |fh.data| - fh.position, if oldPos < fh.position then 1 else 0
    {
      ghost var start, before := fh.position, table;
      var line := fh.ReadLine();
      var currentPos := fh.Tell();
      if currentPos == oldPos {
        break;
      }
      oldPos := currentPos;
      if Occurs(line, MARK) {
        var definition := Definition(line);
        if !EndsInParenthesis(definition) {
          var nextLine := fh.ReadLine();
          definition := definition + " " + Strip(nextLine);
        }
        table := table[FunctionName(definition) := FunctionArgs(definition)];
      }
      ReadOnce(before, fh.data, start);
    }
  }

  /** What one turn of the loop does, by the line that starts at `p`. */
  lemma ReadOnce(table: Prototypes, data: string, p: nat)
    requires p <= |data|
    ensures var q := LineEnd(data, p);
            var r := LineEnd(data, q);
            var line := data[p..q];
            var definition := Definition(line);
            var whole := if EndsInParenthesis(definition) then definition else definition + " " + Strip(data[q..r]);
            Remaining(table, data, p) ==
            if !Occurs(line, MARK) then Remaining(table, data, q)
            else Remaining(table[FunctionName(whole) := FunctionArgs(whole)], data,
                           if EndsInParenthesis(definition) then q else r)
  {
    var q := LineEnd(data, p);
    if p < |data| {
      var lines := Lines(data, p);
      assert lines[0] == data[p..q] && lines[1..] == Lines(data, q);
      if q < |data| {
        assert lines[1] == data[q..LineEnd(data, q)] && lines[2..] == Lines(data, LineEnd(data, q));
      } else {
        assert Strip(data[q..q]) == "";
      }
      StoreEntries(table, lines);
    } else {
      assert !Occurs(data[p..q], MARK);
    }
  }

  lemma StoreEntries(table: Prototypes, lines: seq<string>)
    requires lines != []
    ensures var definition := Definition(lines[0]);
            var whole := if EndsInParenthesis(definition) then definition
                         else definition + " " + (if |lines| > 1 then Strip(lines[1]) else "");
            Store(table, Entries(lines)) ==
            if !Occurs(lines[0], MARK) then Store(table, Entries(lines[1..]))
            else Store(table[FunctionName(whole) := FunctionArgs(whole)],
                       Entries(if EndsInParenthesis(definition) then lines[1..]
                               else if |lines| > 1 then lines[2..] else []))
  {
  }

  /** The arguments of the last entry with the given name. */
  function LastWith(entries: seq<Entry>, name: string): Option<seq<string>> {
    if entries == [] then None
    else if entries[|entries| - 1].name == name then Some(entries[|entries| - 1].args)
    else LastWith(entries[..|entries| - 1], name)
  }

  lemma {:induction false} StoreSnoc(table: Prototypes, entries: seq<Entry>, entry: Entry)
    ensures Store(table, entries + [entry]) == Store(table, entries)[entry.name := entry.args]
    decreases entries
  {
    if entries == [] {
      assert [entry][1..] == [];
    } else {
      ConcatTail(entries, [entry]);
      StoreSnoc(table[entries[0].name := entries[0].args], entries[1..], entry);
    }
  }

  /** A name that occurs several times keeps its last prototype; a name that does not occur is left alone. */
  lemma {:induction false} LastPrototypeWins(table: Prototypes, entries: seq<Entry>, name: string)
    ensures var after, last := Store(table, entries), LastWith(entries, name);
            if last.Some? then name in after && after[name] == last.value
            else (name in after <==> name in table) && (name in table ==> after[name] == table[name])
  {
    if entries != [] {
      var front, entry := entries[..|entries| - 1], entries[|entries| - 1];
      LastPrototypeWins(table, front, name);
      StoreSnoc(table, front, entry);
      assert entries == front + [entry];
    }
  }

  // ---------- the written tables ----------

  /** The parameter names of the first n arguments, mapped to them. */
  function ParameterMap(params: seq<string>, args: seq<string>, n: nat): map<string, string>
    requires n <= |args| <= |params|
  {
    if n == 0 then map[] else ParameterMap(params, args, n - 1)[params[n - 1] := args[n - 1]]
  }

  predicate Fits(params: seq<string>, args: seq<string>) {
    |args| <= |params|
  }

  /** None stands for the index error of a prototype with more arguments than parameter names. */
  method GenerateJson(table: Prototypes, params: seq<string>) returns (json: Option<map<string, map<string, string>>>)
    ensures json.Some? <==> forall name :: name in table ==> Fits(params, table[name])
    ensures json.Some? ==> json.value.Keys == table.Keys
    ensures json.Some? ==> forall name :: name in table ==>
                                            json.value[name] == ParameterMap(params, table[name], |table[name]|)
  {
    var names := table.Keys;
    var dict: map<string, map<string, string>> := map[];
    while names != {}
      invariant names <= table.Keys && dict.Keys == table.Keys - names
      invariant forall name :: name in dict ==> Fits(params, table[name])
      invariant forall name :: name in dict ==> dict[name] == ParameterMap(params, table[name], |table[name]|)
      decreases |names|
    {
      var name :| name in names;
      var args := table[name];
      if |args| > |params| {
        assert !Fits(params, table[name]);
        return None;
      }
      var entry: map<string, string> := map[];
      for i := 0 to |args|
        invariant entry == ParameterMap(params, args, i)
      {
        entry := entry[params[i] := args[i]];
      }
      dict := dict[name := entry];
      names := names - {name};
    }
    return Some(dict);
  }

  predicate NoRepeats(names: seq<string>) {
    forall i, j :: 0 <= i < j < |names| ==> names[i] != names[j]
  }

  /** With distinct parameter names the arguments can be read back from the written table, in order. */
  lemma {:induction false} ParameterMapRoundTrip(params: seq<string>, args: seq<string>, n: nat)
    requires n <= |args| <= |params| && NoRepeats(params)
    ensures var written := ParameterMap(params, args, n);
            && (forall i :: 0 <= i < n ==> params[i] in written && written[params[i]] == args[i])
            && (forall i :: n <= i < |params| ==> params[i] !in written)
            && |written| == n
  {
    if n > 0 { ParameterMapRoundTrip(params, args, n - 1); }
  }
}
