/** A whole manual: what scripts/libc_function_args/tables/generator.py reads is what the manual lists. */
module PrototypeManual {
  import opened Options
  import opened Sequences
  import opened Strings
  import opened PrototypeTable
  import opened PrototypeLines

  /** A line of the manual: text, or the definition of a function on one line. */
  datatype Item =
    | Prose(text: string)
    | Defined(ret: string, name: string, args: seq<string>)

  function Text(item: Item): string {
    match item
    case Prose(text) => text + "\n"
    case Defined(ret, name, args) => " -- Function: " + (Prototype(ret, name, args) + "\n")
  }

  function Texts(items: seq<Item>): (lines: seq<string>)
    ensures |lines| == |items| && forall k :: 0 <= k < |items| ==> lines[k] == Text(items[k])
  {
    seq(|items|, k requires 0 <= k < |items| => Text(items[k]))
  }

  /** The text is one line without the marker; a definition has plain parts, and arguments without commas. */
  ghost predicate Plain(item: Item) {
    match item
    case Prose(text) => '\n' !in text && !Occurs(text + "\n", " -- Function: ")
    case Defined(ret, name, args) =>
      && ret != "" && !IsSpace(ret[0]) && PlainHead(ret, name) && Recoverable(args)
      && '\n' !in Prototype(ret, name, args) && !Occurs(Prototype(ret, name, args) + "\n", " -- Function: ")
  }

  function EntriesOf(items: seq<Item>): seq<Entry> {
    if items == [] then []
    else
      OwnEntries(items[0]) + EntriesOf(items[1..])
  }

  function OwnEntries(item: Item): seq<Entry> {
    match item
    case Prose(_) => []
    case Defined(_, name, args) => [Entry(name, args)]
  }

  // ---------- the lines of a manual ----------

  predicate IsLine(line: string) {
    line != "" && line[|line| - 1] == '\n' && '\n' !in line[..|line| - 1]
  }

  lemma PlainIsLine(item: Item)
    requires Plain(item)
    ensures IsLine(Text(item))
  {
    match item
    case Prose(text) =>
      assert Text(item)[..|Text(item)| - 1] == text;
    case Defined(ret, name, args) =>
      assert Text(item)[..|Text(item)| - 1] == " -- Function: " + Prototype(ret, name, args);
  }

  lemma {:induction false} LineEndIs(data: string, from: nat, end: nat)
    requires from < end <= |data| && data[end - 1] == '\n'
    requires forall i :: from <= i < end - 1 ==> data[i] != '\n'
    ensures LineEnd(data, from) == end
    decreases end - from
  {
    if from + 1 < end { LineEndIs(data, from + 1, end); }
  }

  lemma {:induction false} LinesAre(data: string, from: nat, lines: seq<string>)
    requires from <= |data| && data[from..] == Concatenated(lines)
    requires forall k :: 0 <= k < |lines| ==> IsLine(lines[k])
    ensures Lines(data, from) == lines
    decreases |lines|
  {
    if lines != [] {
      FirstLineOf(data, from, lines[0], Concatenated(lines[1..]));
      LinesAre(data, from + |lines[0]|, lines[1..]);
      HeadTail(lines);
    }
  }

  lemma FirstLineOf(data: string, from: nat, line: string, rest: string)
    requires from <= |data| && data[from..] == line + rest && IsLine(line)
    ensures var end := from + |line|;
            end <= |data| && data[end..] == rest && Lines(data, from) == [line] + Lines(data, end)
  {
    var end := from + |line|;
    assert |data[from..]| == |line| + |rest|;
    forall i | from <= i < end ensures data[i] == line[i - from] { assert data[from..][i - from] == line[i - from]; }
    forall i | from <= i < end - 1 ensures data[i] != '\n' { assert line[..|line| - 1][i - from] == data[i]; }
    LineEndIs(data, from, end);
    assert data[from..end] == line && data[end..] == data[from..][|line|..];
  }

  // ---------- the entries of a manual ----------

  lemma DefinedEntry(item: Item, lines: seq<string>)
    requires Plain(item) && item.Defined?
    ensures Entries([Text(item)] + lines) == [Entry(item.name, item.args)] + Entries(lines)
  {
    var text := Prototype(item.ret, item.name, item.args);
    PrototypeEnds(item.ret, item.name, Join(item.args, ", "));
    assert Blank("\n") && RStripChar(text, ';') == text;
    DefinitionOf(text, "\n");
    ClosedEntry(Text(item), text, lines);
    NameRoundTrip(item.ret, item.name, item.args);
    ArgumentsRoundTripIff(item.ret, item.name, item.args);
  }

  lemma {:induction false} EntriesAre(items: seq<Item>)
    requires forall k :: 0 <= k < |items| ==> Plain(items[k])
    ensures Entries(Texts(items)) == EntriesOf(items)
  {
    if items != [] {
      var rest := Texts(items[1..]);
      EntriesAre(items[1..]);
      assert Texts(items) == [Text(items[0])] + rest;
      match items[0] {
        case Prose(text) => PlainLine(text + "\n", rest);
        case Defined(_, _, _) => DefinedEntry(items[0], rest);
      }
    }
  }

  // ---------- reading the manual ----------

  /** Item k is the last definition of the name. */
  predicate LastDefined(items: seq<Item>, name: string, k: int) {
    && 0 <= k < |items| && items[k].Defined? && items[k].name == name
    && forall j :: k < j < |items| ==> !(items[j].Defined? && items[j].name == name)
  }

  lemma {:induction false} LastOfItems(items: seq<Item>, name: string)
    ensures match LastWith(EntriesOf(items), name)
            case Some(args) => exists k :: LastDefined(items, name, k) && items[k].args == args
            case None => forall k :: !LastDefined(items, name, k)
  {
    if items != [] {
      var n := |items| - 1;
      var front := items[..n];
      LastOfItems(front, name);
      EntriesSnoc(front, items[n]);
      assert items == front + [items[n]];
      LastWithSnoc(EntriesOf(front), items[n], name);
      if items[n].Defined? && items[n].name == name {
        assert LastDefined(items, name, n);
      } else {
        forall k ensures LastDefined(items, name, k) <==> LastDefined(front, name, k) { SameLast(items, name, k); }
      }
    }
  }

  lemma LastWithSnoc(entries: seq<Entry>, item: Item, name: string)
    ensures LastWith(entries + OwnEntries(item), name)
         == if item.Defined? && item.name == name then Some(item.args) else LastWith(entries, name)
  {
    if item.Defined? {
      SnocFront(entries, Entry(item.name, item.args));
    } else {
      assert entries + [] == entries;
    }
  }

  lemma SameLast(items: seq<Item>, name: string, k: int)
    requires items != [] && !(items[|items| - 1].Defined? && items[|items| - 1].name == name)
    ensures LastDefined(items, name, k) <==> LastDefined(items[..|items| - 1], name, k)
  {
    var n := |items| - 1;
    assert forall j :: 0 <= j < n ==> items[..n][j] == items[j];
  }

  lemma {:induction false} EntriesSnoc(items: seq<Item>, item: Item)
    ensures EntriesOf(items + [item]) == EntriesOf(items) + OwnEntries(item)
  {
    if items == [] {
      assert items + [item] == [item] && [item][1..] == [];
      assert OwnEntries(item) + [] == OwnEntries(item) && [] + OwnEntries(item) == OwnEntries(item);
    } else {
      ConcatTail(items, [item]);
      EntriesSnoc(items[1..], item);
      AppendAssociates(OwnEntries(items[0]), EntriesOf(items[1..]), OwnEntries(item));
    }
  }

  /** Reading a manual gives each function the arguments of its last definition, and changes nothing else. */
  lemma ManualRoundTrip(initial: Prototypes, data: string, from: nat, items: seq<Item>, name: string)
    requires from <= |data| && data[from..] == Concatenated(Texts(items))
    requires forall k :: 0 <= k < |items| ==> Plain(items[k])
    ensures var table := Store(initial, Entries(Lines(data, from)));
            && (forall k :: LastDefined(items, name, k) ==> name in table && table[name] == items[k].args)
            && ((forall k :: !LastDefined(items, name, k)) ==>
                  (name in table <==> name in initial) && (name in initial ==> table[name] == initial[name]))
  {
    forall k | 0 <= k < |items| ensures IsLine(Texts(items)[k]) { PlainIsLine(items[k]); }
    LinesAre(data, from, Texts(items));
    EntriesAre(items);
    LastPrototypeWins(initial, EntriesOf(items), name);
    LastOfItems(items, name);
  }
}
