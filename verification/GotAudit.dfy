/** The symbol index of scripts/got_audit.py, kept across commands, and the verdicts it gives on GOT entries. */
module GotAudit {
  import opened Options
  import opened Sequences
  import opened Strings

  /** The class-level `_symbols_` and `_paths_`. Both are defaultdicts: reading a missing key adds an empty list. */
  datatype Index = Index(symbols: map<string, seq<string>>, paths: map<string, seq<string>>)

  datatype Section = Section(start: int, end: int, path: string, executable: bool)

  datatype Verdict = NoMapping | Mapped(path: string, duplicates: Option<seq<string>>, notExported: bool)

  function Files(index: Index, symbol: string): seq<string> {
    if symbol in index.symbols then index.symbols[symbol] else []
  }

  function Symbols(index: Index, file: string): seq<string> {
    if file in index.paths then index.paths[file] else []
  }

  const KINDS := {"T", "i", "I", "v", "V", "w", "W"}

  /** str.split("@")[0] */
  function BeforeAt(name: string): string {
    Split(name, "@")[0]
  }

  /** The symbol that one line of `nm -D` exports. */
  function ParseLine(line: string): Option<string> {
    var words := Words(line);
    if |words| == 3 && words[1] in KINDS then Some(BeforeAt(words[2])) else None
  }

  /** A line of `nm -D` exports its symbol, without the version, exactly when its kind is one of the seven. */
  lemma NmLineRoundTrip(address: string, kind: string, symbol: string, version: string)
    requires IsWord(address) && IsWord(kind) && IsWord(symbol) && '@' !in symbol
    requires version == "" || (IsWord(version) && version[0] == '@')
    ensures ParseLine(address + (" " + (kind + (" " + (symbol + version)))))
         == if kind in KINDS then Some(symbol) else None
  {
    WordsOfThree(address, kind, symbol + version);
    VersionIsCut(symbol, version);
  }

  lemma VersionIsCut(symbol: string, version: string)
    requires '@' !in symbol && (version == "" || version[0] == '@')
    ensures BeforeAt(symbol + version) == symbol
  {
    if version == "" {
      SplitNone(symbol, '@');
      assert symbol + version == symbol;
    } else {
      SplitFirst(symbol, version[1..], '@');
      HeadTail(version);
      AppendAssociates(symbol, ['@'], version[1..]);
    }
  }

  function Record(index: Index, file: string, symbol: string): Index {
    var files := Files(index, symbol);
    Index(index.symbols[symbol := if file in files then files else files + [file]],
          index.paths[file := Symbols(index, file) + [symbol]])
  }

  function RecordLine(index: Index, file: string, line: string): Index {
    match ParseLine(line)
    case Some(symbol) => Record(index, file, symbol)
    case None => index
  }

  /** The index after the first n lines of a file's symbols. */
  function RecordLines(index: Index, file: string, lines: seq<string>, n: nat): Index
    requires n <= |lines|
  {
    if n == 0 then index
    else
      RecordLine(RecordLines(index, file, lines, n - 1), file, lines[n - 1])
  }

  // ---------- the session ----------

  /** The index together with the history of the nm runs that filled it. */
  datatype State = State(index: Index, scans: seq<(string, seq<string>)>)

  /** One command: got-audit's scan of the maps, or the line it builds for one GOT entry. */
  datatype Command =
    | Invoke(sections: seq<Section>, nm: map<string, seq<string>>)
    | BuildLine(sections: seq<Section>, name: string, path: string, address: int)

  const EMPTY := State(Index(map[], map[]), [])

  /** `nm` holds the output for every path that is a file. */
  predicate ToScan(index: Index, section: Section, nm: map<string, seq<string>>) {
    section.path !in index.paths && section.path in nm && section.executable
  }

  function Scan(state: State, file: string, lines: seq<string>): State {
    State(RecordLines(state.index, file, lines, |lines|), state.scans + [(file, lines)])
  }

  function ScanSections(state: State, sections: seq<Section>, nm: map<string, seq<string>>, n: nat): State
    requires n <= |sections|
  {
    if n == 0 then state
    else
      var before := ScanSections(state, sections, nm, n - 1);
      var section := sections[n - 1];
      if ToScan(before.index, section, nm) then Scan(before, section.path, nm[section.path]) else before
  }

  predicate Holds(section: Section, address: int) {
    section.start <= address < section.end
  }

  /** The first section that contains the address. */
  function Lookup(sections: seq<Section>, address: int): Option<Section> {
    if sections == [] then None
    else if Holds(sections[0], address) then Some(sections[0])
    else Lookup(sections[1..], address)
  }

  lemma {:induction false} LookupIsFirst(sections: seq<Section>, address: int, k: nat)
    requires k < |sections| && Holds(sections[k], address)
    requires forall j :: 0 <= j < k ==> !Holds(sections[j], address)
    ensures Lookup(sections, address) == Some(sections[k])
  {
    if k > 0 { LookupIsFirst(sections[1..], address, k - 1); }
  }

  function ReadSymbols(index: Index, symbol: string): Index {
    index.(symbols := index.symbols[symbol := Files(index, symbol)])
  }

  function ReadPaths(index: Index, file: string): Index {
    index.(paths := index.paths[file := Symbols(index, file)])
  }

  /** Whether the verdict on an entry looks up what the section's file exports. */
  predicate Consults(section: Section, path: string) {
    section.path != "[vdso]" && section.path != path
  }

  function Judge(index: Index, expected: set<string>, sections: seq<Section>, name: string, path: string,
                 address: int): (Verdict, Index)
  {
    match Lookup(sections, address)
    case None => (NoMapping, index)
    case Some(section) =>
      var symbol := BeforeAt(name);
      var files := Files(index, symbol);
      var read := ReadSymbols(index, symbol);
      var duplicates := if |files| > 1 && symbol !in expected then Some(files) else None;
      if Consults(section, path) then
        (Mapped(section.path, duplicates, symbol !in Symbols(read, section.path)), ReadPaths(read, section.path))
      else (Mapped(section.path, duplicates, false), read)
  }

  function Execute(state: State, expected: set<string>, command: Command): State {
    match command
    case Invoke(sections, nm) => ScanSections(state, sections, nm, |sections|)
    case BuildLine(sections, name, path, address) =>
      state.(index := Judge(state.index, expected, sections, name, path, address).1)
  }

  function Run(state: State, expected: set<string>, commands: seq<Command>): State {
    if commands == [] then state
    else Execute(Run(state, expected, commands[..|commands| - 1]), expected, commands[|commands| - 1])
  }

  /** The command object; `scans` records which nm outputs it has read. */
  class GotAuditCommand {
    var symbols: map<string, seq<string>>
    var paths: map<string, seq<string>>
    ghost var scans: seq<(string, seq<string>)>
    const expectedDups: set<string>

    constructor (expectedDups: set<string>)
      ensures Valid() && Now() == EMPTY && this.expectedDups == expectedDups
    {
      symbols, paths, scans := map[], map[], [];
      this.expectedDups := expectedDups;
    }

    ghost function Now(): State
      reads this
    {
      State(Index(symbols, paths), scans)
    }

    /** Both dictionaries agree with the nm runs so far. */
    ghost predicate Valid()
      reads this
    {
      Consistent(Now()) && InScanOrder(Now())
    }

    method GetSymbolsFromPath(file: string, lines: seq<string>)
      requires Valid()
      modifies this
      ensures Valid() && scans == old(scans) + [(file, lines)]
      ensures Now() == Scan(old(Now()), file, lines)
    {
      ghost var before := Index(symbols, paths);
      for i := 0 to |lines|
        invariant Index(symbols, paths) == RecordLines(before, file, lines, i)
        invariant scans == old(scans)
      {
        var words := Words(lines[i]);
        if |words| == 3 && words[1] in KINDS {
          var sym := Split(words[2], "@")[0];
          var files := if sym in symbols then symbols[sym] else [];
          symbols := symbols[sym := if file in files then files else files + [file]];
          paths := paths[file := (if file in paths then paths[file] else []) + [sym]];
        }
      }
      scans := scans + [(file, lines)];
      ScanKeepsConsistent(old(Now()), file, lines);
      ScanKeepsOrder(old(Now()), file, lines);
    }

    method DoInvoke(sections: seq<Section>, nm: map<string, seq<string>>)
      requires Valid()
      modifies this
      ensures Valid() && scans == old(scans) + NewScans(old(paths).Keys, sections, nm, |sections|)
      ensures Now() == Execute(old(Now()), expectedDups, Invoke(sections, nm))
    {
      ghost var before := Now();
      SectionsScanned(before, sections, nm, |sections|);
      for i := 0 to |sections|
        invariant Valid()
        invariant Now() == ScanSections(before, sections, nm, i)
      {
        var section := sections[i];
        if section.path !in paths && section.path in nm && section.executable {
          GetSymbolsFromPath(section.path, nm[section.path]);
        }
      }
    }

    method BuildLine(sections: seq<Section>, name: string, path: string, address: int) returns (verdict: Verdict)
      requires Valid()
      modifies this
      ensures Valid() && scans == old(scans)
      ensures IsVerdict(scans, expectedDups, sections, name, path, address, verdict)
      ensures Leaves(old(paths), paths, sections, path, address)
      ensures verdict == Judge(old(Now()).index, expectedDups, sections, name, path, address).0
      ensures Now() == Execute(old(Now()), expectedDups, Command.BuildLine(sections, name, path, address))
    {
      verdict := NoMapping;
      var i := 0;
      while i < |sections|
        invariant i <= |sections| && verdict == NoMapping && Now() == old(Now())
        invariant Lookup(sections, address) == Lookup(sections[i..], address)
      {
        var section := sections[i];
        if Holds(section, address) {
          var symbol := Split(name, "@")[0];
          if symbol !in symbols { symbols := symbols[symbol := []]; }
          var duplicates := if |symbols[symbol]| > 1 && symbol !in expectedDups then Some(symbols[symbol]) else None;
          var notExported := false;
          if section.path != "[vdso]" && section.path != path {
            if section.path !in paths { paths := paths[section.path := []]; }
            notExported := symbol !in paths[section.path];
          }
          verdict := Mapped(section.path, duplicates, notExported);
          assert Now() == Execute(old(Now()), expectedDups, Command.BuildLine(sections, name, path, address));
          Answered(old(Now()), expectedDups, sections, name, path, address);
          return;
        }
        i := i + 1;
      }
      Answered(old(Now()), expectedDups, sections, name, path, address);
    }
  }

  // ---------- the two dictionaries are inverse ----------

  predicate Exports(lines: seq<string>, symbol: string) {
    exists i :: 0 <= i < |lines| && ParseLine(lines[i]) == Some(symbol)
  }

  /** Some nm run on the file listed the symbol. */
  predicate Scanned(scans: seq<(string, seq<string>)>, file: string, symbol: string) {
    exists k :: 0 <= k < |scans| && scans[k].0 == file && Exports(scans[k].1, symbol)
  }

  predicate NoRepeats(files: seq<string>) {
    forall i, j :: 0 <= i < j < |files| ==> files[i] != files[j]
  }

  /** Both dictionaries hold exactly the scanned relation, and no list of files repeats one. */
  ghost predicate Consistent(state: State) {
    && (forall file, symbol ::
          (file in Files(state.index, symbol) <==> Scanned(state.scans, file, symbol))
          && (symbol in Symbols(state.index, file) <==> Scanned(state.scans, file, symbol)))
    && (forall symbol :: NoRepeats(Files(state.index, symbol)))
  }

  /** `after` answers for file f and symbol s as `index` with the given lines of `file` added. */
  ghost predicate Adds(index: Index, after: Index, file: string, lines: seq<string>, f: string, s: string) {
    && (f in Files(after, s) <==> f in Files(index, s) || (f == file && Exports(lines, s)))
    && (s in Symbols(after, f) <==> s in Symbols(index, f) || (f == file && Exports(lines, s)))
    && NoRepeats(Files(after, s))
  }

  lemma {:induction false} RecordedLines(index: Index, file: string, lines: seq<string>, n: nat, f: string, s: string)
    requires n <= |lines| && NoRepeats(Files(index, s))
    ensures Adds(index, RecordLines(index, file, lines, n), file, lines[..n], f, s)
  {
    if n > 0 {
      RecordedLines(index, file, lines, n - 1, f, s);
      RecordOneLine(index, RecordLines(index, file, lines, n - 1), file, lines, n - 1, f, s);
    } else {
      assert !Exports(lines[..0], s);
    }
  }

  lemma RecordOneLine(index: Index, before: Index, file: string, lines: seq<string>, n: nat, f: string, s: string)
    requires n < |lines| && Adds(index, before, file, lines[..n], f, s)
    ensures Adds(index, RecordLine(before, file, lines[n]), file, lines[..n + 1], f, s)
  {
    OneMoreLine(lines, n, s);
    if ParseLine(lines[n]).Some? {
      RecordAnswers(before, file, ParseLine(lines[n]).value, f, s);
    }
  }

  lemma RecordAnswers(index: Index, file: string, symbol: string, f: string, s: string)
    requires NoRepeats(Files(index, s))
    ensures var after := Record(index, file, symbol);
            && (f in Files(after, s) <==> f in Files(index, s) || (f == file && s == symbol))
            && (s in Symbols(after, f) <==> s in Symbols(index, f) || (f == file && s == symbol))
            && NoRepeats(Files(after, s))
  {
  }

  lemma OneMoreLine(lines: seq<string>, n: nat, s: string)
    requires n < |lines|
    ensures Exports(lines[..n + 1], s) <==> Exports(lines[..n], s) || ParseLine(lines[n]) == Some(s)
  {
    assert lines[..n + 1][..n] == lines[..n];
    if Exports(lines[..n], s) {
      var i :| 0 <= i < n && ParseLine(lines[..n][i]) == Some(s);
      assert lines[..n + 1][i] == lines[i];
    }
    if ParseLine(lines[n]) == Some(s) { assert lines[..n + 1][n] == lines[n]; }
  }

  lemma OneMoreScan(scans: seq<(string, seq<string>)>, file: string, lines: seq<string>, f: string, s: string)
    ensures Scanned(scans + [(file, lines)], f, s) <==> Scanned(scans, f, s) || (f == file && Exports(lines, s))
  {
    var after := scans + [(file, lines)];
    if k :| 0 <= k < |scans| && scans[k].0 == f && Exports(scans[k].1, s) {
      assert after[k].0 == f && Exports(after[k].1, s);
    }
    if f == file && Exports(lines, s) {
      assert after[|scans|].0 == f && Exports(after[|scans|].1, s);
    }
  }

  lemma ScanKeepsConsistent(state: State, file: string, lines: seq<string>)
    requires Consistent(state)
    ensures Consistent(Scan(state, file, lines))
  {
    assert lines[..|lines|] == lines;
    forall f, s
      ensures var after := Scan(state, file, lines);
              && (f in Files(after.index, s) <==> Scanned(after.scans, f, s))
              && (s in Symbols(after.index, f) <==> Scanned(after.scans, f, s))
              && NoRepeats(Files(after.index, s))
    {
      RecordedLines(state.index, file, lines, |lines|, f, s);
      OneMoreScan(state.scans, file, lines, f, s);
    }
    forall s ensures NoRepeats(Files(Scan(state, file, lines).index, s)) {
      RecordedLines(state.index, file, lines, |lines|, file, s);
    }
  }

  lemma {:induction false} SectionsKeepConsistent(state: State, sections: seq<Section>,
                                                  nm: map<string, seq<string>>, n: nat)
    requires n <= |sections| && Consistent(state)
    ensures Consistent(ScanSections(state, sections, nm, n))
  {
    if n > 0 {
      SectionsKeepConsistent(state, sections, nm, n - 1);
      var before, section := ScanSections(state, sections, nm, n - 1), sections[n - 1];
      if ToScan(before.index, section, nm) {
        ScanKeepsConsistent(before, section.path, nm[section.path]);
      }
    }
  }

  /** A read may add empty entries; what the dictionaries answer stays the same. */
  lemma ReadsChangeNoAnswer(index: Index, expected: set<string>, sections: seq<Section>, name: string, path: string,
                            address: int)
    ensures var after := Judge(index, expected, sections, name, path, address).1;
            && (forall symbol :: Files(after, symbol) == Files(index, symbol))
            && (forall file :: Symbols(after, file) == Symbols(index, file))
  {
  }

  /** In every reachable state the two dictionaries are inverse to each other and agree with the nm runs. */
  lemma {:induction false} ReachableIsConsistent(expected: set<string>, commands: seq<Command>)
    ensures Consistent(Run(EMPTY, expected, commands))
  {
    if commands != [] {
      var front, last := commands[..|commands| - 1], commands[|commands| - 1];
      var before := Run(EMPTY, expected, front);
      ReachableIsConsistent(expected, front);
      match last {
        case Invoke(sections, nm) =>
          SectionsKeepConsistent(before, sections, nm, |sections|);
        case BuildLine(sections, name, path, address) =>
          ReadsChangeNoAnswer(before.index, expected, sections, name, path, address);
      }
    }
  }

  ghost predicate ExportedTwice(scans: seq<(string, seq<string>)>, symbol: string) {
    exists f, g :: f != g && Scanned(scans, f, symbol) && Scanned(scans, g, symbol)
  }

  /** What every verdict of a reachable session says about the nm runs behind it. */
  lemma VerdictsAgreeWithScans(expected: set<string>, commands: seq<Command>, sections: seq<Section>, name: string,
                               path: string, address: int)
    ensures var state := Run(EMPTY, expected, commands);
            var verdict := Judge(state.index, expected, sections, name, path, address).0;
            var symbol := BeforeAt(name);
            match Lookup(sections, address)
            case None => verdict == NoMapping
            case Some(section) =>
              && verdict.Mapped? && verdict.path == section.path
              && (verdict.duplicates.Some? <==> symbol !in expected && ExportedTwice(state.scans, symbol))
              && (verdict.duplicates.Some? ==>
                    forall f :: f in verdict.duplicates.value <==> Scanned(state.scans, f, symbol))
              && (verdict.notExported <==> Consults(section, path) && !Scanned(state.scans, section.path, symbol))
  {
    ReachableIsConsistent(expected, commands);
    var state := Run(EMPTY, expected, commands);
    LongListIffTwoFiles(state, BeforeAt(name));
  }

  lemma LongListIffTwoFiles(state: State, symbol: string)
    requires Consistent(state)
    ensures |Files(state.index, symbol)| > 1 <==> ExportedTwice(state.scans, symbol)
  {
    var files := Files(state.index, symbol);
    assert NoRepeats(files);
    if |files| > 1 {
      assert files[0] in files && files[1] in files && files[0] != files[1];
      assert Scanned(state.scans, files[0], symbol) && Scanned(state.scans, files[1], symbol);
    }
    if f, g :| f != g && Scanned(state.scans, f, symbol) && Scanned(state.scans, g, symbol) {
      assert f in files && g in files;
      var i, j :| 0 <= i < |files| && files[i] == f && 0 <= j < |files| && files[j] == g;
      assert i != j;
    }
  }

  /** However many entries are asked about, no verdict changes until the next scan. */
  lemma {:induction false} VerdictsAreIndependent(state: State, expected: set<string>, asked: seq<Command>,
                                                  sections: seq<Section>, name: string, path: string, address: int)
    requires forall k :: 0 <= k < |asked| ==> asked[k].BuildLine?
    ensures var after := Run(state, expected, asked);
            && after.scans == state.scans
            && Judge(after.index, expected, sections, name, path, address).0
               == Judge(state.index, expected, sections, name, path, address).0
  {
    if asked != [] {
      var front, last := asked[..|asked| - 1], asked[|asked| - 1];
      var before := Run(state, expected, front);
      VerdictsAreIndependent(state, expected, front, sections, name, path, address);
      ReadsChangeNoAnswer(before.index, expected, last.sections, last.name, last.path, last.address);
    }
  }

  // ---------- which files are still scanned ----------

  /** The nm runs on one file. */
  function ScansOf(scans: seq<(string, seq<string>)>, file: string): seq<seq<string>> {
    if scans == [] then []
    else ScansOf(scans[..|scans| - 1], file)
         + if scans[|scans| - 1].0 == file then [scans[|scans| - 1].1] else []
  }

  /** The part of a state that concerns one file: whether it has an entry, what it exports, and its nm runs. */
  ghost predicate SameFor(file: string, before: State, after: State) {
    && file in after.index.paths
    && Symbols(after.index, file) == Symbols(before.index, file)
    && ScansOf(after.scans, file) == ScansOf(before.scans, file)
  }

  /** Scanning one file leaves every other file's entry, or its absence, as it was. */
  lemma {:induction false} OtherFile(index: Index, other: string, lines: seq<string>, n: nat, file: string)
    requires n <= |lines| && file != other
    ensures SameEntry(index, RecordLines(index, other, lines, n), file)
  {
    if n > 0 {
      OtherFile(index, other, lines, n - 1, file);
      if ParseLine(lines[n - 1]).Some? {
        RecordKeepsEntry(RecordLines(index, other, lines, n - 1), other, ParseLine(lines[n - 1]).value, file);
      }
    }
  }

  predicate SameEntry(before: Index, after: Index, file: string) {
    && (file in after.paths <==> file in before.paths)
    && (file in before.paths ==> after.paths[file] == before.paths[file])
  }

  lemma RecordKeepsEntry(index: Index, other: string, symbol: string, file: string)
    requires file != other
    ensures SameEntry(index, Record(index, other, symbol), file)
  {
  }

  lemma {:induction false} SectionsSkipKnown(state: State, sections: seq<Section>, nm: map<string, seq<string>>, n: nat,
                                             file: string)
    requires n <= |sections| && file in state.index.paths
    ensures SameFor(file, state, ScanSections(state, sections, nm, n))
  {
    if n > 0 {
      SectionsSkipKnown(state, sections, nm, n - 1, file);
      var before, section := ScanSections(state, sections, nm, n - 1), sections[n - 1];
      if ToScan(before.index, section, nm) {
        OtherFile(before.index, section.path, nm[section.path], |nm[section.path]|, file);
        var scan := (section.path, nm[section.path]);
        assert (before.scans + [scan])[..|before.scans|] == before.scans;
      }
    }
  }

  /**
    * A file that has an entry in `_paths_` is never scanned again: whatever commands follow, its list of symbols
    * stays as it is. An entry can also come from a verdict that merely consulted the file.
    */
  lemma {:induction false} KnownFilesAreFrozen(state: State, expected: set<string>, commands: seq<Command>,
                                               file: string)
    requires file in state.index.paths
    ensures SameFor(file, state, Run(state, expected, commands))
  {
    if commands != [] {
      var front, last := commands[..|commands| - 1], commands[|commands| - 1];
      var before := Run(state, expected, front);
      KnownFilesAreFrozen(state, expected, front, file);
      match last {
        case Invoke(sections, nm) =>
          SectionsSkipKnown(before, sections, nm, |sections|, file);
        case BuildLine(sections, name, path, address) =>
          ReadsChangeNoAnswer(before.index, expected, sections, name, path, address);
      }
    }
  }

  lemma {:induction false} RecordedKeys(index: Index, file: string, lines: seq<string>, n: nat)
    requires n <= |lines| && file !in index.paths
    ensures file in RecordLines(index, file, lines, n).paths <==> ExportsAny(lines, n)
  {
    if n > 0 {
      RecordedKeys(index, file, lines, n - 1);
      var before := RecordLines(index, file, lines, n - 1);
      assert ParseLine(lines[n - 1]).None? ==> RecordLines(index, file, lines, n) == before;
      if ExportsAny(lines, n - 1) {
        var i :| 0 <= i < n - 1 && ParseLine(lines[i]).Some?;
        assert 0 <= i < n && ParseLine(lines[i]).Some?;
      }
    }
  }

  /** One of the first n lines exports something. */
  predicate ExportsAny(lines: seq<string>, n: nat)
    requires n <= |lines|
  {
    exists i :: 0 <= i < n && ParseLine(lines[i]).Some?
  }

  /**
    * A verdict that consults a file nobody has scanned hides it for good: no later command ever scans it, and
    * every later verdict that consults it reports "not exported", whatever its nm output would be.
    */
  lemma ConsultedBeforeScanIsNeverScanned(state: State, expected: set<string>, sections: seq<Section>, name: string,
                                          path: string, address: int, later: seq<Command>)
    requires Lookup(sections, address).Some? && Consults(Lookup(sections, address).value, path)
    requires Lookup(sections, address).value.path !in state.index.paths
    ensures var file := Lookup(sections, address).value.path;
            var after := Run(Execute(state, expected, BuildLine(sections, name, path, address)), expected, later);
            && ScansOf(after.scans, file) == ScansOf(state.scans, file)
            && forall sections', name', path', address' ::
                 Lookup(sections', address').Some? && Lookup(sections', address').value.path == file
                 && Consults(Lookup(sections', address').value, path')
                 ==> Judge(after.index, expected, sections', name', path', address').0.notExported
  {
    var asked := Execute(state, expected, BuildLine(sections, name, path, address));
    KnownFilesAreFrozen(asked, expected, later, Lookup(sections, address).value.path);
  }

  /** How many of the first n sections map the file executable. */
  function ExecutableCopies(sections: seq<Section>, n: nat, file: string): nat
    requires n <= |sections|
  {
    if n == 0 then 0
    else ExecutableCopies(sections, n - 1, file)
         + if sections[n - 1].path == file && sections[n - 1].executable then 1 else 0
  }

  /** How often the first n sections have nm run on the file. */
  function Runs(state: State, sections: seq<Section>, nm: map<string, seq<string>>, n: nat, file: string): nat
    requires n <= |sections|
  {
    if file in state.index.paths || file !in nm then 0
    else if ExportsAny(nm[file], |nm[file]|) && ExecutableCopies(sections, n, file) > 0 then 1
    else ExecutableCopies(sections, n, file)
  }

  lemma ScansOfMore(scans: seq<(string, seq<string>)>, other: string, lines: seq<string>, file: string)
    ensures ScansOf(scans + [(other, lines)], file) == ScansOf(scans, file) + if other == file then [lines] else []
  {
    SnocFront(scans, (other, lines));
  }

  /**
    * Which files a whole memory map has scanned, how often, and which have an entry afterwards. A file with an entry
    * is skipped; without one it is scanned if it is mapped executable: once if its nm output exports something, which
    * gives it an entry, and for every one of its executable mappings if it exports nothing.
    */
  lemma {:induction false} FileIsScannedIff(state: State, sections: seq<Section>, nm: map<string, seq<string>>, n: nat,
                                            file: string)
    requires n <= |sections|
    ensures var after := ScanSections(state, sections, nm, n);
            && (file in after.index.paths <==>
                file in state.index.paths
                || (ExecutableCopies(sections, n, file) > 0 && file in nm && ExportsAny(nm[file], |nm[file]|)))
            && |ScansOf(after.scans, file)| == |ScansOf(state.scans, file)| + Runs(state, sections, nm, n, file)
            && (forall k :: 0 <= k < |ScansOf(after.scans, file)| ==>
                              ScansOf(after.scans, file)[k]
                              == if k < |ScansOf(state.scans, file)| then ScansOf(state.scans, file)[k] else nm[file])
  {
    if n > 0 {
      FileIsScannedIff(state, sections, nm, n - 1, file);
      SectionScans(ScanSections(state, sections, nm, n - 1), sections[n - 1], nm, file);
    }
  }

  /** One section's share in what becomes of a file. */
  lemma SectionScans(state: State, section: Section, nm: map<string, seq<string>>, file: string)
    ensures var after :=
              if ToScan(state.index, section, nm) then Scan(state, section.path, nm[section.path]) else state;
            var mapped := section.path == file && section.executable && file in nm;
            && (file in after.index.paths <==>
                file in state.index.paths || (mapped && ExportsAny(nm[file], |nm[file]|)))
            && ScansOf(after.scans, file)
               == ScansOf(state.scans, file) + if mapped && file !in state.index.paths then [nm[file]] else []
  {
    if ToScan(state.index, section, nm) {
      var lines := nm[section.path];
      ScansOfMore(state.scans, section.path, lines, file);
      if section.path == file {
        RecordedKeys(state.index, file, lines, |lines|);
      } else {
        OtherFile(state.index, section.path, lines, |lines|, file);
      }
    }
  }

  /** What an entry will hold after a scan of the maps, if there was none: what the file exports, if it is scanned. */
  predicate Finds(sections: seq<Section>, nm: map<string, seq<string>>, n: nat, file: string, symbol: string)
    requires n <= |sections|
  {
    ExecutableCopies(sections, n, file) > 0 && file in nm && Exports(nm[file], symbol)
  }

  /** A file's entry after the first n sections: the old one if it had one, else what the scan finds. */
  lemma {:induction false} SymbolsAfterScan(state: State, sections: seq<Section>, nm: map<string, seq<string>>, n: nat,
                                            file: string, symbol: string)
    requires n <= |sections| && Consistent(state)
    ensures symbol in Symbols(ScanSections(state, sections, nm, n).index, file) <==>
            if file in state.index.paths then symbol in state.index.paths[file]
            else Finds(sections, nm, n, file, symbol)
  {
    if n > 0 {
      SymbolsAfterScan(state, sections, nm, n - 1, file, symbol);
      var before, section := ScanSections(state, sections, nm, n - 1), sections[n - 1];
      FileIsScannedIff(state, sections, nm, n - 1, file);
      if ToScan(before.index, section, nm) {
        var lines := nm[section.path];
        SectionsKeepConsistent(state, sections, nm, n - 1);
        RecordedLines(before.index, section.path, lines, |lines|, file, symbol);
        assert lines[..|lines|] == lines;
        if section.path != file {
          OtherFile(before.index, section.path, lines, |lines|, file);
        }
      }
    }
  }

  /**
    * Exactly when a verdict says "not exported", in any session: after a scan of the maps and any further queries, it
    * speaks about the entry that the file had before the scan, and only without one about what the file exports.
    */
  lemma NotExportedIff(expected: set<string>, commands: seq<Command>, sections: seq<Section>,
                       nm: map<string, seq<string>>, asked: seq<Command>, name: string, path: string, address: int)
    requires forall k :: 0 <= k < |asked| ==> asked[k].BuildLine?
    requires Lookup(sections, address).Some? && Consults(Lookup(sections, address).value, path)
    ensures var before := Run(EMPTY, expected, commands);
            var after := Run(Execute(before, expected, Invoke(sections, nm)), expected, asked);
            var file, symbol := Lookup(sections, address).value.path, BeforeAt(name);
            Judge(after.index, expected, sections, name, path, address).0.notExported <==>
            if file in before.index.paths then symbol !in before.index.paths[file]
            else !Finds(sections, nm, |sections|, file, symbol)
  {
    var before := Run(EMPTY, expected, commands);
    var scanned := Execute(before, expected, Invoke(sections, nm));
    ReachableIsConsistent(expected, commands);
    SymbolsAfterScan(before, sections, nm, |sections|, Lookup(sections, address).value.path, BeforeAt(name));
    VerdictsAreIndependent(scanned, expected, asked, sections, name, path, address);
  }

  /**
    * When the promise of an error for a symbol that the file does not export is kept, for a file that is mapped
    * executable: whenever it had no entry before the scan, or else if its entry is still right about the symbol.
    */
  lemma VerdictIsRightIff(expected: set<string>, commands: seq<Command>, sections: seq<Section>,
                          nm: map<string, seq<string>>, asked: seq<Command>, name: string, path: string, address: int)
    requires forall k :: 0 <= k < |asked| ==> asked[k].BuildLine?
    requires Lookup(sections, address).Some? && Consults(Lookup(sections, address).value, path)
    requires var file := Lookup(sections, address).value.path;
             file in nm && ExecutableCopies(sections, |sections|, file) > 0
    ensures var before := Run(EMPTY, expected, commands);
            var after := Run(Execute(before, expected, Invoke(sections, nm)), expected, asked);
            var file, symbol := Lookup(sections, address).value.path, BeforeAt(name);
            (Judge(after.index, expected, sections, name, path, address).0.notExported <==> !Exports(nm[file], symbol))
            <==> file !in before.index.paths
                 || (symbol in before.index.paths[file] <==> Exports(nm[file], symbol))
  {
    NotExportedIff(expected, commands, sections, nm, asked, name, path, address);
  }

  lemma RunOne(state: State, expected: set<string>, command: Command)
    ensures Run(state, expected, [command]) == Execute(state, expected, command)
  {
    var commands := [command];
    assert commands[..|commands| - 1] == [];
    assert Run(state, expected, commands[..|commands| - 1]) == state;
  }

  lemma InvokeOne(state: State, expected: set<string>, section: Section, nm: map<string, seq<string>>)
    ensures Execute(state, expected, Invoke([section], nm))
         == if ToScan(state.index, section, nm) then Scan(state, section.path, nm[section.path]) else state
  {
    var sections := [section];
    assert ScanSections(state, sections, nm, 0) == state;
    assert ScanSections(state, sections, nm, |sections|) == ScanSections(state, sections, nm, 0 + 1);
  }

  /**
    * A session in the command's own order, every invocation scanning before it builds lines. The file is first mapped
    * without execute permission and consulted there; mapped executable later, it is still never scanned, and a
    * symbol it exports is reported as not exported. A session that starts with the later map reports no such thing.
    */
  lemma ConsultedDataHidesText(expected: set<string>, nm: map<string, seq<string>>, file: string, name: string,
                               own: string)
    requires file in nm && Exports(nm[file], BeforeAt(name)) && file != own && file != "[vdso]"
    ensures var data, text := Section(0, 16, file, false), Section(0, 16, file, true);
            var late := Run(EMPTY, expected, [Invoke([data], nm), BuildLine([data], name, own, 0), Invoke([text], nm)]);
            var direct := Run(EMPTY, expected, [Invoke([text], nm)]);
            && ScansOf(late.scans, file) == []
            && Judge(late.index, expected, [text], name, own, 0).0.notExported
            && ScansOf(direct.scans, file) == [nm[file]]
            && !Judge(direct.index, expected, [text], name, own, 0).0.notExported
  {
    var data, text := Section(0, 16, file, false), Section(0, 16, file, true);
    var c0, c1, c2 := Invoke([data], nm), BuildLine([data], name, own, 0), Invoke([text], nm);
    var first := Run(EMPTY, expected, [c0]);
    RunOne(EMPTY, expected, c0);
    InvokeOne(EMPTY, expected, data, nm);
    var asked := Execute(first, expected, c1);
    assert Run(EMPTY, expected, [c0, c1, c2]) == Execute(asked, expected, c2) by {
      assert [c0, c1, c2][..2] == [c0, c1] && [c0, c1][..1] == [c0];
    }
    FileIsScannedIff(asked, [text], nm, 1, file);
    ConsultedBeforeScanIsNeverScanned(first, expected, [data], name, own, 0, [c2]);
    RunOne(asked, expected, c2);
    FirstMapIsScanned(expected, nm, text, name, own);
  }

  lemma FirstMapIsScanned(expected: set<string>, nm: map<string, seq<string>>, text: Section, name: string, own: string)
    requires text.path in nm && Exports(nm[text.path], BeforeAt(name)) && text.executable && Holds(text, 0)
    ensures var direct := Run(EMPTY, expected, [Invoke([text], nm)]);
            && ScansOf(direct.scans, text.path) == [nm[text.path]]
            && !Judge(direct.index, expected, [text], name, own, 0).0.notExported
  {
    var commands := [Invoke([text], nm)];
    var lines := nm[text.path];
    var direct := Run(EMPTY, expected, commands);
    RunOne(EMPTY, expected, Invoke([text], nm));
    InvokeOne(EMPTY, expected, text, nm);
    ScansOfMore([], text.path, lines, text.path);
    assert [] + [(text.path, lines)] == [(text.path, lines)];
    assert Scanned(direct.scans, text.path, BeforeAt(name)) by { assert direct.scans[0] == (text.path, lines); }
    VerdictsAgreeWithScans(expected, commands, [text], name, own, 0);
  }

  // ---------- what the command promises ----------

  /** A line of `nm -D` exports the symbol: three words, one of seven kinds, and perhaps a version behind the symbol. */
  ghost predicate LineExports(line: string, symbol: string) {
    exists words, version ::
      && AreWords(line, words) && |words| == 3 && words[1] in {"T", "i", "I", "v", "V", "w", "W"}
      && IsVersioned(words[2], symbol, version)
  }

  predicate IsVersioned(name: string, symbol: string, version: string) {
    name == symbol + version && '@' !in symbol && (version == "" || version[0] == '@')
  }

  ghost predicate Lists(lines: seq<string>, symbol: string) {
    exists i :: 0 <= i < |lines| && LineExports(lines[i], symbol)
  }

  /** The scanned files that list the symbol, in the order in which they first did. */
  ghost function Exporters(scans: seq<(string, seq<string>)>, symbol: string): seq<string> {
    if scans == [] then []
    else
      var front, last := Exporters(scans[..|scans| - 1], symbol), scans[|scans| - 1];
      if Lists(last.1, symbol) && last.0 !in front then front + [last.0] else front
  }

  predicate FirstAround(sections: seq<Section>, address: int, k: int) {
    && 0 <= k < |sections| && sections[k].start <= address < sections[k].end
    && forall j :: 0 <= j < k ==> !(sections[j].start <= address < sections[j].end)
  }

  /** What is said of a GOT entry, by the nm runs so far. */
  ghost predicate IsVerdict(scans: seq<(string, seq<string>)>, expected: set<string>, sections: seq<Section>,
                            name: string, path: string, address: int, verdict: Verdict)
  {
    match verdict
    case NoMapping => forall k :: 0 <= k < |sections| ==> !(sections[k].start <= address < sections[k].end)
    case Mapped(file, duplicates, notExported) =>
      && (exists k :: FirstAround(sections, address, k) && file == sections[k].path)
      && forall symbol, version | IsVersioned(name, symbol, version) ::
           && duplicates == (if |Exporters(scans, symbol)| > 1 && symbol !in expected
                             then Some(Exporters(scans, symbol)) else None)
           && (notExported <==> file != "[vdso]" && file != path && file !in Exporters(scans, symbol))
  }

  /** What the lookup leaves behind: an empty entry for a file that it consults, and for nothing else. */
  ghost predicate Leaves(before: map<string, seq<string>>, after: map<string, seq<string>>, sections: seq<Section>,
                         path: string, address: int)
  {
    && ((forall k :: 0 <= k < |sections| ==> !(sections[k].start <= address < sections[k].end)) ==> after == before)
    && forall k | FirstAround(sections, address, k) ::
         var file := sections[k].path;
         after == if file != "[vdso]" && file != path && file !in before then before[file := []] else before
  }

  /** Section k is one whose file is scanned: executable, a file without an entry, and no section before gave it one. */
  ghost predicate IsScanned(known: set<string>, sections: seq<Section>, nm: map<string, seq<string>>, k: nat)
    requires k < |sections|
  {
    var file := sections[k].path;
    && sections[k].executable && file in nm && file !in known
    && forall j :: 0 <= j < k && sections[j].path == file && sections[j].executable ==>
                     !exists symbol :: Lists(nm[file], symbol)
  }

  /** The nm runs of one command, in the order of the maps. */
  ghost function NewScans(known: set<string>, sections: seq<Section>, nm: map<string, seq<string>>, n: nat)
    : seq<(string, seq<string>)>
    requires n <= |sections|
  {
    if n == 0 then []
    else
      NewScans(known, sections, nm, n - 1)
      + if IsScanned(known, sections, nm, n - 1) then [(sections[n - 1].path, nm[sections[n - 1].path])] else []
  }

  lemma BeforeAtIs(name: string, symbol: string, version: string)
    requires IsVersioned(name, symbol, version)
    ensures BeforeAt(name) == symbol
  {
    VersionIsCut(symbol, version);
  }

  lemma NameIsVersioned(name: string) returns (version: string)
    ensures IsVersioned(name, BeforeAt(name), version)
  {
    if '@' in name {
      CharOccurs(name, '@');
      var i := Find(name, "@").value;
      version := name[i..];
      assert name[i..i + 1] == "@";
      forall k | 0 <= k < i ensures name[k] != '@' {
        assert !OccursAt(name, "@", k);
        assert name[k..k + 1] == [name[k]];
      }
      assert name == name[..i] + version;
      BeforeAtIs(name, name[..i], version);
    } else {
      version := "";
      BeforeAtIs(name, name, "");
    }
  }

  /** The parser agrees with the description of an exporting line. */
  lemma ParseLineIs(line: string, symbol: string)
    ensures ParseLine(line) == Some(symbol) <==> LineExports(line, symbol)
  {
    var words := Words(line);
    WordsAreFound(line);
    if ParseLine(line) == Some(symbol) {
      var version := NameIsVersioned(words[2]);
      assert IsVersioned(words[2], symbol, version);
    }
    if words', version :| AreWords(line, words') && |words'| == 3 && words'[1] in {"T", "i", "I", "v", "V", "w", "W"}
                          && IsVersioned(words'[2], symbol, version) {
      WordsAreUnique(line, words');
      BeforeAtIs(words[2], symbol, version);
    }
  }

  lemma ListsIsExports(lines: seq<string>, symbol: string)
    ensures Lists(lines, symbol) <==> Exports(lines, symbol)
  {
    forall i | 0 <= i < |lines| ensures ParseLine(lines[i]) == Some(symbol) <==> LineExports(lines[i], symbol) {
      ParseLineIs(lines[i], symbol);
    }
  }

  lemma ListsAnything(lines: seq<string>)
    ensures (exists symbol :: Lists(lines, symbol)) <==> ExportsAny(lines, |lines|)
  {
    if symbol :| Lists(lines, symbol) {
      var i :| 0 <= i < |lines| && LineExports(lines[i], symbol);
      ParseLineIs(lines[i], symbol);
    }
    if i :| 0 <= i < |lines| && ParseLine(lines[i]).Some? {
      ParseLineIs(lines[i], ParseLine(lines[i]).value);
      assert Lists(lines, ParseLine(lines[i]).value);
    }
  }

  lemma {:induction false} ExportersAreScanned(scans: seq<(string, seq<string>)>, file: string, symbol: string)
    ensures file in Exporters(scans, symbol) <==> Scanned(scans, file, symbol)
  {
    if scans != [] {
      var front, last := scans[..|scans| - 1], scans[|scans| - 1];
      ExportersAreScanned(front, file, symbol);
      ListsIsExports(last.1, symbol);
      OneMoreScan(front, last.0, last.1, file, symbol);
      assert scans == front + [(last.0, last.1)];
    }
  }

  /** The list of files of a symbol is that of its exporters. */
  ghost predicate InScanOrder(state: State) {
    forall symbol :: Files(state.index, symbol) == Exporters(state.scans, symbol)
  }

  lemma {:induction false} RecordedFiles(index: Index, file: string, lines: seq<string>, n: nat, symbol: string)
    requires n <= |lines|
    ensures Files(RecordLines(index, file, lines, n), symbol)
         == Files(index, symbol) + if Exports(lines[..n], symbol) && file !in Files(index, symbol) then [file] else []
  {
    if n > 0 {
      RecordedFiles(index, file, lines, n - 1, symbol);
      OneMoreLine(lines, n - 1, symbol);
      var before := RecordLines(index, file, lines, n - 1);
      RecordedOnce(before, file, lines[n - 1], symbol);
      assert RecordLines(index, file, lines, n) == RecordLine(before, file, lines[n - 1]);
    } else {
      assert !Exports(lines[..0], symbol);
    }
  }

  lemma RecordedOnce(index: Index, file: string, line: string, symbol: string)
    ensures Files(RecordLine(index, file, line), symbol)
         == Files(index, symbol)
            + if ParseLine(line) == Some(symbol) && file !in Files(index, symbol) then [file] else []
  {
  }

  lemma ScanKeepsOrder(state: State, file: string, lines: seq<string>)
    requires InScanOrder(state)
    ensures InScanOrder(Scan(state, file, lines))
  {
    var after := Scan(state, file, lines);
    assert lines[..|lines|] == lines;
    SnocFront(state.scans, (file, lines));
    forall symbol ensures Files(after.index, symbol) == Exporters(after.scans, symbol) {
      RecordedFiles(state.index, file, lines, |lines|, symbol);
      ListsIsExports(lines, symbol);
    }
  }

  /** The lookup of the code and the first section around an address. */
  lemma {:induction false} LookupIs(sections: seq<Section>, address: int)
    ensures match Lookup(sections, address)
            case None => forall k :: 0 <= k < |sections| ==> !(sections[k].start <= address < sections[k].end)
            case Some(section) => exists k :: FirstAround(sections, address, k) && sections[k] == section
  {
    if sections != [] && !Holds(sections[0], address) {
      LookupIs(sections[1..], address);
      assert forall k :: 1 <= k < |sections| ==> sections[k] == sections[1..][k - 1];
      if k :| FirstAround(sections[1..], address, k) {
        assert FirstAround(sections, address, k + 1);
      }
    } else if sections != [] {
      assert FirstAround(sections, address, 0);
    }
  }

  /** In a state that agrees with its history, every verdict is the promised one. */
  lemma JudgeIsVerdict(state: State, expected: set<string>, sections: seq<Section>, name: string, path: string,
                       address: int)
    requires Consistent(state) && InScanOrder(state)
    ensures IsVerdict(state.scans, expected, sections, name, path, address,
                      Judge(state.index, expected, sections, name, path, address).0)
  {
    LookupIs(sections, address);
    var found := Lookup(sections, address);
    if found.Some? {
      ExportersAreScanned(state.scans, found.value.path, BeforeAt(name));
      forall symbol, version | IsVersioned(name, symbol, version) ensures symbol == BeforeAt(name) {
        BeforeAtIs(name, symbol, version);
      }
    }
  }

  lemma JudgeLeaves(index: Index, expected: set<string>, sections: seq<Section>, name: string, path: string,
                    address: int)
    ensures Leaves(index.paths, Judge(index, expected, sections, name, path, address).1.paths, sections, path, address)
  {
    LookupIs(sections, address);
    var found := Lookup(sections, address);
    if found.Some? {
      var i :| FirstAround(sections, address, i) && sections[i] == found.value;
      forall k | FirstAround(sections, address, k) ensures k == i {}
      var file := found.value.path;
      if file in index.paths { assert index.paths[file := index.paths[file]] == index.paths; }
    }
  }

  /** All that is promised of one query. */
  lemma Answered(state: State, expected: set<string>, sections: seq<Section>, name: string, path: string, address: int)
    requires Consistent(state) && InScanOrder(state)
    ensures var after := Execute(state, expected, BuildLine(sections, name, path, address));
            && IsVerdict(state.scans, expected, sections, name, path, address,
                         Judge(state.index, expected, sections, name, path, address).0)
            && Leaves(state.index.paths, after.index.paths, sections, path, address)
            && Consistent(after) && InScanOrder(after)
  {
    JudgeIsVerdict(state, expected, sections, name, path, address);
    JudgeLeaves(state.index, expected, sections, name, path, address);
    ReadsChangeNoAnswer(state.index, expected, sections, name, path, address);
  }

  lemma {:induction false} SectionsScanned(state: State, sections: seq<Section>, nm: map<string, seq<string>>, n: nat)
    requires n <= |sections|
    ensures ScanSections(state, sections, nm, n).scans
         == state.scans + NewScans(state.index.paths.Keys, sections, nm, n)
  {
    if n > 0 {
      SectionsScanned(state, sections, nm, n - 1);
      var before, file := ScanSections(state, sections, nm, n - 1), sections[n - 1].path;
      FileIsScannedIff(state, sections, nm, n - 1, file);
      CopiesBefore(sections, n - 1, file);
      if file in nm { ListsAnything(nm[file]); }
      assert ToScan(before.index, sections[n - 1], nm) <==> IsScanned(state.index.paths.Keys, sections, nm, n - 1);
    }
  }

  lemma {:induction false} CopiesBefore(sections: seq<Section>, n: nat, file: string)
    requires n <= |sections|
    ensures ExecutableCopies(sections, n, file) > 0
       <==> exists j :: 0 <= j < n && sections[j].path == file && sections[j].executable
  {
    if n > 0 { CopiesBefore(sections, n - 1, file); }
  }
}
