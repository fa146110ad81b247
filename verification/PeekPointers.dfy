/** The pointer scan of scripts/peekpointers.py, with its unique mode that deletes sections as it finds them. */
module PeekPointers {
  import opened Options
  import opened Sequences

  datatype Section = Section(path: string, start: int, end: int)

  /** Memory as GEF shows it: valid addresses, the words that can be read there, and what lookup_address accepts. */
  datatype Memory = Memory(valid: set<int>, words: map<int, int>, known: int -> bool, ptrsize: int)

  datatype Report = Found(addr: int, value: int, section: Section)

  datatype State = State(reports: seq<Report>, sections: seq<Section>)

  const PAGE_SIZE := 4096

  predicate Contains(section: Section, value: int) {
    section.start <= value < section.end
  }

  /** The first section of the list that contains the value. */
  function FirstMatch(sections: seq<Section>, value: int): (found: Option<nat>)
    ensures found.Some? ==> found.value < |sections| && Contains(sections[found.value], value)
                            && forall k :: 0 <= k < found.value ==> !Contains(sections[k], value)
    ensures found.None? ==> forall k :: 0 <= k < |sections| ==> !Contains(sections[k], value)
  {
    if sections == [] then None
    else if Contains(sections[0], value) then Some(0)
    else
      match FirstMatch(sections[1..], value)
      case Some(i) => Some(i + 1)
      case None => None
  }

  function Without(sections: seq<Section>, i: nat): seq<Section>
    requires i < |sections|
  {
    sections[..i] + sections[i + 1..]
  }

  /** What one word does to the reports and the sections. */
  function Step(mem: Memory, unique: bool, state: State, addr: int): State
    requires addr in mem.words
  {
    var value := mem.words[addr];
    if !mem.known(value) then state
    else
      match FirstMatch(state.sections, value)
      case None => state
      case Some(i) =>
        State(state.reports + [Found(addr, value, state.sections[i])],
              if unique then Without(state.sections, i) else state.sections)
  }

  /** The valid addresses from `addr` on; a step of the walk leaves one behind. */
  ghost function Ahead(mem: Memory, addr: int): set<int> {
    set a | a in mem.valid && a >= addr
  }

  lemma AheadShrinks(mem: Memory, addr: int)
    requires mem.ptrsize > 0 && addr in mem.valid
    ensures Ahead(mem, addr + mem.ptrsize) < Ahead(mem, addr)
  {
    assert addr in Ahead(mem, addr) && addr !in Ahead(mem, addr + mem.ptrsize);
    assert Ahead(mem, addr + mem.ptrsize) <= Ahead(mem, addr);
  }

  /** The addresses that are read from `addr` on: up to the first one that is not valid or cannot be read. */
  function Walk(mem: Memory, addr: int): (addrs: seq<int>)
    requires mem.ptrsize > 0
    ensures forall k :: 0 <= k < |addrs| ==> addrs[k] in mem.words
    decreases Ahead(mem, addr)
  {
    if addr in mem.valid && addr in mem.words then
      AheadShrinks(mem, addr);
      [addr] + Walk(mem, addr + mem.ptrsize)
    else []
  }

  /** The address at which the walk ends. */
  function Stop(mem: Memory, addr: int): int
    requires mem.ptrsize > 0
    decreases Ahead(mem, addr)
  {
    if addr in mem.valid && addr in mem.words then
      AheadShrinks(mem, addr);
      Stop(mem, addr + mem.ptrsize)
    else addr
  }

  /** The walk reads every word from its start, one pointer size apart, and ends only where it must. */
  lemma {:induction false} WalkIsMaximal(mem: Memory, addr: int, k: nat)
    requires mem.ptrsize > 0
    ensures var addrs := Walk(mem, addr);
            && (k < |addrs| ==> addrs[k] == addr + k * mem.ptrsize && addrs[k] in mem.valid)
            && Stop(mem, addr) == addr + |addrs| * mem.ptrsize
            && (Stop(mem, addr) !in mem.valid || Stop(mem, addr) !in mem.words)
    decreases Ahead(mem, addr)
  {
    if addr in mem.valid && addr in mem.words {
      AheadShrinks(mem, addr);
      var rest := Walk(mem, addr + mem.ptrsize);
      if k > 0 {
        WalkIsMaximal(mem, addr + mem.ptrsize, k - 1);
        assert k * mem.ptrsize == (k - 1) * mem.ptrsize + mem.ptrsize;
      } else {
        WalkIsMaximal(mem, addr + mem.ptrsize, 0);
      }
      assert (|rest| + 1) * mem.ptrsize == |rest| * mem.ptrsize + mem.ptrsize;
    }
  }

  function Scan(mem: Memory, unique: bool, sections: seq<Section>, addrs: seq<int>, n: nat): State
    requires n <= |addrs| && forall k :: 0 <= k < |addrs| ==> addrs[k] in mem.words
  {
    if n == 0 then State([], sections) else Step(mem, unique, Scan(mem, unique, sections, addrs, n - 1), addrs[n - 1])
  }

  /** The scan from an aligned start; None for the error message about a start that is not page-aligned. */
  function Peek(mem: Memory, unique: bool, sections: seq<Section>, start: int): Option<State>
    requires mem.ptrsize > 0
  {
    if start % PAGE_SIZE != 0 then None
    else
      var addrs := Walk(mem, start);
      Some(Scan(mem, unique, sections, addrs, |addrs|))
  }

  /** The command. A valid word that cannot be read ends it with an exception, after what was printed so far. */
  method DoInvoke(mem: Memory, unique: bool, initial: seq<Section>, start: int)
    returns (result: Option<State>, memoryError: bool)
    requires mem.ptrsize > 0
    ensures result == Peek(mem, unique, initial, start)
    ensures memoryError <==> start % PAGE_SIZE == 0 && Stop(mem, start) in mem.valid
    ensures result.None? <==> start % 4096 != 0
    ensures result.Some? ==> IsPeek(mem, unique, initial, start, result.value, memoryError)
  {
    memoryError := false;
    if start % PAGE_SIZE != 0 { return None, false; }
    PeekIsPeek(mem, unique, initial, start);
    var addr := start;
    var reports: seq<Report> := [];
    var sections := initial;
    ghost var addrs := Walk(mem, start);
    ghost var n := 0;
    while addr in mem.valid
      invariant n <= |addrs| && addrs[n..] == Walk(mem, addr) && Stop(mem, start) == Stop(mem, addr)
      invariant State(reports, sections) == Scan(mem, unique, initial, addrs, n)
      decreases Ahead(mem, addr)
    {
      if addr !in mem.words {
        memoryError := true;
        break;
      }
      reports, sections := PeekWord(mem, unique, reports, sections, addr);
      WalkHead(mem, addr, addrs, n);
      AheadShrinks(mem, addr);
      n := n + 1;
      addr := addr + mem.ptrsize;
    }
    return Some(State(reports, sections)), memoryError;
  }

  lemma WalkHead(mem: Memory, addr: int, addrs: seq<int>, n: nat)
    requires mem.ptrsize > 0 && addr in mem.valid && addr in mem.words
    requires n <= |addrs| && addrs[n..] == Walk(mem, addr)
    ensures n < |addrs| && addrs[n] == addr && addrs[n + 1..] == Walk(mem, addr + mem.ptrsize)
  {
    assert addrs[n] == addrs[n..][0] && addrs[n + 1..] == addrs[n..][1..];
  }

  /** The body of the scan for one word. */
  method PeekWord(mem: Memory, unique: bool, before: seq<Report>, left: seq<Section>, addr: int)
    returns (reports: seq<Report>, sections: seq<Section>)
    requires addr in mem.words
    ensures State(reports, sections) == Step(mem, unique, State(before, left), addr)
  {
    reports, sections := before, left;
    var value := mem.words[addr];
    if mem.known(value) {
      var i := FindSection(sections, value);
      if i < |sections| {
        reports := reports + [Found(addr, value, sections[i])];
        if unique {
          sections := Without(sections, i);
        }
      }
    }
  }

  /** The inner loop with its break; the length of the list when nothing matches. */
  method FindSection(sections: seq<Section>, value: int) returns (i: nat)
    ensures i == match FirstMatch(sections, value) case Some(k) => k case None => |sections|
  {
    i := 0;
    while i < |sections| && !Contains(sections[i], value)
      invariant i <= |sections| && forall k :: 0 <= k < i ==> !Contains(sections[k], value)
    {
      i := i + 1;
    }
  }

  // ---------- unique mode against the plain scan ----------

  /** The plain scan reports a word exactly when its value is known and inside a section: the first such section. */
  lemma {:induction false} PlainScanIsComplete(mem: Memory, sections: seq<Section>, addrs: seq<int>, n: nat, r: Report)
    requires n <= |addrs| && forall k :: 0 <= k < |addrs| ==> addrs[k] in mem.words
    ensures var state := Scan(mem, false, sections, addrs, n);
            && state.sections == sections
            && (r in state.reports <==> exists k :: 0 <= k < n && Points(mem, sections, addrs[k], r))
  {
    if n > 0 {
      PlainScanIsComplete(mem, sections, addrs, n - 1, r);
      if Points(mem, sections, addrs[n - 1], r) { assert 0 <= n - 1 < n; }
    }
  }

  predicate Points(mem: Memory, sections: seq<Section>, addr: int, r: Report)
    requires addr in mem.words
  {
    && r.addr == addr && r.value == mem.words[addr] && mem.known(r.value)
    && exists i :: 0 <= i < |sections| && sections[i] == r.section && Contains(sections[i], r.value)
                   && forall k :: 0 <= k < i ==> !Contains(sections[k], r.value)
  }

  predicate Overlap(a: Section, b: Section) {
    a.start < a.end && b.start < b.end && a.start < b.end && b.start < a.end
  }

  predicate Disjoint(sections: seq<Section>) {
    forall i, j :: 0 <= i < j < |sections| ==> !Overlap(sections[i], sections[j])
  }

  function Sections(reports: seq<Report>): (sections: seq<Section>)
    ensures |sections| == |reports|
    ensures forall k :: 0 <= k < |reports| ==> sections[k] == reports[k].section
  {
    seq(|reports|, k requires 0 <= k < |reports| => reports[k].section)
  }

  /** Only the first report for each section. */
  function FirstPerSection(reports: seq<Report>): (firsts: seq<Report>) {
    if reports == [] then []
    else
      var front, last := FirstPerSection(reports[..|reports| - 1]), reports[|reports| - 1];
      if last.section in Sections(reports[..|reports| - 1]) then front else front + [last]
  }

  /** How the unique scan relates to the plain scan after the same words. */
  ghost predicate Related(initial: seq<Section>, plain: State, unique: State) {
    && plain.sections == initial
    && unique.reports == FirstPerSection(plain.reports)
    && multiset(unique.sections) + multiset(Sections(unique.reports)) == multiset(initial)
    && (forall s :: s in Sections(plain.reports) <==> s in Sections(unique.reports))
  }

  lemma SameSection(sections: seq<Section>, i: nat, j: nat, value: int)
    requires Disjoint(sections) && i < |sections| && j < |sections|
    requires Contains(sections[i], value) && Contains(sections[j], value)
    ensures i == j
  {
    assert Overlap(sections[i], sections[j]) && Overlap(sections[j], sections[i]);
  }

  lemma {:induction false} OneCopy(sections: seq<Section>, i: nat, value: int)
    requires Disjoint(sections) && i < |sections| && Contains(sections[i], value)
    ensures multiset(sections)[sections[i]] == 1
  {
    var s := sections[i];
    assert sections == sections[..i] + [s] + sections[i + 1..];
    forall k | 0 <= k < |sections| && k != i ensures sections[k] != s {
      if sections[k] == s { SameSection(sections, i, k, value); }
    }
    assert s !in sections[..i] && s !in sections[i + 1..];
    assert s !in multiset(sections[..i]) && s !in multiset(sections[i + 1..]);
  }

  lemma WithoutMultiset(sections: seq<Section>, i: nat)
    requires i < |sections|
    ensures multiset(Without(sections, i)) == multiset(sections) - multiset{sections[i]}
  {
    assert sections == sections[..i] + [sections[i]] + sections[i + 1..];
  }

  lemma ReportOneMore(reports: seq<Report>, r: Report)
    ensures Sections(reports + [r]) == Sections(reports) + [r.section]
    ensures FirstPerSection(reports + [r])
         == if r.section in Sections(reports) then FirstPerSection(reports) else FirstPerSection(reports) + [r]
  {
    SnocFront(reports, r);
  }

  lemma MembersByCount(initial: seq<Section>, left: seq<Section>, taken: seq<Section>, s: Section)
    requires multiset(left) + multiset(taken) == multiset(initial)
    ensures s in left ==> s in initial
    ensures multiset(initial)[s] == 1 ==> (s in left <==> s !in taken)
  {
    assert s in left <==> multiset(left)[s] > 0;
    assert s in taken <==> multiset(taken)[s] > 0;
    assert s in initial <==> multiset(initial)[s] > 0;
    assert multiset(left)[s] + multiset(taken)[s] == multiset(initial)[s];
  }

  lemma MoveOne(initial: multiset<Section>, left: multiset<Section>, taken: multiset<Section>, s: Section)
    requires left + taken == initial && s in left
    ensures (left - multiset{s}) + (taken + multiset{s}) == initial
  {
  }

  /** The unique scan still has the section, so both scans report it. */
  lemma StepFound(initial: seq<Section>, plain: State, unique: State, here: nat, addr: int, value: int)
    requires Disjoint(initial) && Related(initial, plain, unique)
    requires FirstMatch(unique.sections, value) == Some(here)
    ensures var r := Found(addr, value, unique.sections[here]);
            && FirstMatch(initial, value).Some? && initial[FirstMatch(initial, value).value] == unique.sections[here]
            && Related(initial, State(plain.reports + [r], initial),
                       State(unique.reports + [r], Without(unique.sections, here)))
  {
    var s, taken := unique.sections[here], Sections(unique.reports);
    var r := Found(addr, value, s);
    assert s in unique.sections;
    MembersByCount(initial, unique.sections, taken, s);
    var i :| 0 <= i < |initial| && initial[i] == s;
    MatchIs(initial, i, value);
    OneCopy(initial, i, value);
    ReportOneMore(plain.reports, r);
    ReportOneMore(unique.reports, r);
    WithoutMultiset(unique.sections, here);
    MoveOne(multiset(initial), multiset(unique.sections), multiset(taken), s);
  }

  /** The unique scan has no section for the value: the plain scan has none either, or has reported it before. */
  lemma StepSkipped(initial: seq<Section>, plain: State, unique: State, i: nat, addr: int, value: int)
    requires Disjoint(initial) && Related(initial, plain, unique)
    requires FirstMatch(unique.sections, value).None? && FirstMatch(initial, value) == Some(i)
    ensures Related(initial, State(plain.reports + [Found(addr, value, initial[i])], initial), unique)
  {
    OneCopy(initial, i, value);
    assert initial[i] !in unique.sections;
    MembersByCount(initial, unique.sections, Sections(unique.reports), initial[i]);
    ReportOneMore(plain.reports, Found(addr, value, initial[i]));
  }

  lemma StepRelated(mem: Memory, initial: seq<Section>, plain: State, unique: State, addr: int)
    requires Disjoint(initial) && addr in mem.words && Related(initial, plain, unique)
    ensures Related(initial, Step(mem, false, plain, addr), Step(mem, true, unique, addr))
  {
    var value := mem.words[addr];
    if mem.known(value) {
      var here, there := FirstMatch(unique.sections, value), FirstMatch(initial, value);
      if here.Some? {
        StepFound(initial, plain, unique, here.value, addr, value);
      } else if there.Some? {
        StepSkipped(initial, plain, unique, there.value, addr, value);
      }
    }
  }

  lemma MatchIs(sections: seq<Section>, i: nat, value: int)
    requires Disjoint(sections) && i < |sections| && Contains(sections[i], value)
    ensures FirstMatch(sections, value) == Some(i)
  {
    SameSection(sections, FirstMatch(sections, value).value, i, value);
  }

  lemma {:induction false} ScanRelated(mem: Memory, initial: seq<Section>, addrs: seq<int>, n: nat)
    requires Disjoint(initial)
    requires n <= |addrs| && forall k :: 0 <= k < |addrs| ==> addrs[k] in mem.words
    ensures Related(initial, Scan(mem, false, initial, addrs, n), Scan(mem, true, initial, addrs, n))
  {
    if n > 0 {
      ScanRelated(mem, initial, addrs, n - 1);
      StepRelated(mem, initial, Scan(mem, false, initial, addrs, n - 1), Scan(mem, true, initial, addrs, n - 1),
                  addrs[n - 1]);
    }
  }

  /** With pointers of this size, unique mode prints the plain scan's first report for each section, in every memory. */
  ghost predicate UniqueIsFirst(sections: seq<Section>, ptrsize: int)
    requires ptrsize > 0
  {
    forall mem: Memory, start: int | mem.ptrsize == ptrsize && start % PAGE_SIZE == 0 ::
      Peek(mem, true, sections, start).value.reports
      == FirstPerSection(Peek(mem, false, sections, start).value.reports)
  }

  /** At every point of a scan the reported and the remaining sections are together the initial ones. */
  lemma SectionsAreConserved(mem: Memory, initial: seq<Section>, addrs: seq<int>, n: nat)
    requires n <= |addrs| && forall k :: 0 <= k < |addrs| ==> addrs[k] in mem.words
    ensures var state := Scan(mem, true, initial, addrs, n);
            multiset(state.sections) + multiset(Sections(state.reports)) == multiset(initial)
  {
    if n > 0 {
      SectionsAreConserved(mem, initial, addrs, n - 1);
      var before := Scan(mem, true, initial, addrs, n - 1);
      var value := mem.words[addrs[n - 1]];
      var found := FirstMatch(before.sections, value);
      if mem.known(value) && found.Some? {
        WithoutMultiset(before.sections, found.value);
        ReportOneMore(before.reports, Found(addrs[n - 1], value, before.sections[found.value]));
      }
    }
  }

  // ---------- a page of memory that tells the modes apart ----------

  /** A value behind every section. */
  function Behind(sections: seq<Section>): (value: int)
    ensures value >= 0 && forall k :: 0 <= k < |sections| ==> !Contains(sections[k], value)
    ensures forall k :: 0 <= k < |sections| ==> sections[k].end <= value
  {
    if sections == [] then 0
    else
      var rest, end := Behind(sections[1..]), sections[0].end;
      assert forall k :: 1 <= k < |sections| ==> sections[k] == sections[1..][k - 1];
      if end > rest then end else rest
  }

  predicate OnPage(addr: int) {
    0 <= addr < PAGE_SIZE
  }

  /** One readable page: its first two words hold the value, all others point nowhere. */
  function Page(sections: seq<Section>, value: int, ptrsize: int): Memory {
    Memory(set a | 0 <= a < PAGE_SIZE && OnPage(a),
           map a | 0 <= a < PAGE_SIZE && OnPage(a) :: if a == 0 || a == ptrsize then value else Behind(sections),
           _ => true, ptrsize)
  }

  /** The pointer sizes that leave room for two words on a page. */
  predicate FitsTwice(ptrsize: int) {
    0 < ptrsize && 2 * ptrsize <= PAGE_SIZE
  }

  /** The scan of the page starts with the two equal words, meets only other addresses later, and never fails. */
  lemma WalkPage(sections: seq<Section>, value: int, ptrsize: int)
    requires FitsTwice(ptrsize)
    ensures var mem := Page(sections, value, ptrsize);
            var addrs := Walk(mem, 0);
            && |addrs| >= 2 && addrs[0] == 0 && addrs[1] == ptrsize
            && (forall k :: 2 <= k < |addrs| ==> addrs[k] > ptrsize)
            && Stop(mem, 0) !in mem.valid
  {
    var mem := Page(sections, value, ptrsize);
    assert Walk(mem, 0) == [0] + ([ptrsize] + Walk(mem, 2 * ptrsize)) by {
      assert Walk(mem, ptrsize) == [ptrsize] + Walk(mem, ptrsize + ptrsize);
      assert Walk(mem, 0) == [0] + Walk(mem, 0 + ptrsize);
    }
    WalkIsMaximal(mem, 0, 0);
    WalkGoesUp(mem, 2 * ptrsize);
    var rest := Walk(mem, 2 * ptrsize);
    assert forall k :: 2 <= k < |Walk(mem, 0)| ==> Walk(mem, 0)[k] == rest[k - 2];
  }

  lemma {:induction false} WalkGoesUp(mem: Memory, addr: int)
    requires mem.ptrsize > 0
    ensures forall k :: 0 <= k < |Walk(mem, addr)| ==> Walk(mem, addr)[k] >= addr
    decreases Ahead(mem, addr)
  {
    if addr in mem.valid && addr in mem.words {
      AheadShrinks(mem, addr);
      WalkGoesUp(mem, addr + mem.ptrsize);
    }
  }

  lemma {:induction false} OthersPointNowhere(sections: seq<Section>, value: int, ptrsize: int, unique: bool, n: nat)
    requires FitsTwice(ptrsize)
    requires 2 <= n <= |Walk(Page(sections, value, ptrsize), 0)|
    ensures var mem := Page(sections, value, ptrsize);
            Scan(mem, unique, sections, Walk(mem, 0), n) == Scan(mem, unique, sections, Walk(mem, 0), 2)
    decreases n
  {
    var mem := Page(sections, value, ptrsize);
    var addrs := Walk(mem, 0);
    if n > 2 {
      OthersPointNowhere(sections, value, ptrsize, unique, n - 1);
      WalkPage(sections, value, ptrsize);
      assert mem.words[addrs[n - 1]] == Behind(sections);
      LeftAreInitial(mem, unique, sections, addrs, 2);
      NoneBehind(Scan(mem, unique, sections, addrs, 2).sections, sections);
    }
  }

  lemma NoneBehind(left: seq<Section>, sections: seq<Section>)
    requires forall s :: s in left ==> s in sections
    ensures FirstMatch(left, Behind(sections)).None?
  {
    assert forall k :: 0 <= k < |left| ==> left[k] in left;
  }

  lemma {:induction false} LeftAreInitial(mem: Memory, unique: bool, sections: seq<Section>, addrs: seq<int>, n: nat)
    requires n <= |addrs| && forall k :: 0 <= k < |addrs| ==> addrs[k] in mem.words
    ensures forall s :: s in Scan(mem, unique, sections, addrs, n).sections ==> s in sections
  {
    if n > 0 { LeftAreInitial(mem, unique, sections, addrs, n - 1); }
  }

  /** What each mode reports on the page: the plain scan one section twice, unique mode two entries of the list. */
  lemma ScansOfPage(sections: seq<Section>, value: int, ptrsize: int, first: nat, again: nat)
    requires FitsTwice(ptrsize) && FirstMatch(sections, value) == Some(first)
    requires FirstMatch(Without(sections, first), value) == Some(again)
    ensures var mem, s, t := Page(sections, value, ptrsize), sections[first], Without(sections, first)[again];
            && Peek(mem, false, sections, 0).value.reports == [Found(0, value, s), Found(ptrsize, value, s)]
            && Peek(mem, true, sections, 0).value.reports == [Found(0, value, s), Found(ptrsize, value, t)]
  {
    var mem := Page(sections, value, ptrsize);
    var addrs := Walk(mem, 0);
    WalkPage(sections, value, ptrsize);
    OthersPointNowhere(sections, value, ptrsize, false, |addrs|);
    OthersPointNowhere(sections, value, ptrsize, true, |addrs|);
    TwoWords(mem, sections, addrs, value, first, again);
  }

  lemma TwoWords(mem: Memory, sections: seq<Section>, addrs: seq<int>, value: int, first: nat, again: nat)
    requires |addrs| >= 2 && forall k :: 0 <= k < |addrs| ==> addrs[k] in mem.words
    requires mem.words[addrs[0]] == mem.words[addrs[1]] == value && mem.known(value)
    requires FirstMatch(sections, value) == Some(first)
    requires FirstMatch(Without(sections, first), value) == Some(again)
    ensures Scan(mem, false, sections, addrs, 2).reports
         == [Found(addrs[0], value, sections[first]), Found(addrs[1], value, sections[first])]
    ensures Scan(mem, true, sections, addrs, 2).reports
         == [Found(addrs[0], value, sections[first]), Found(addrs[1], value, Without(sections, first)[again])]
  {
    var r := Found(addrs[0], value, sections[first]);
    assert [] + [r] == [r];
    assert Scan(mem, false, sections, addrs, 0) == Scan(mem, true, sections, addrs, 0) == State([], sections);
    assert Scan(mem, false, sections, addrs, 1) == State([r], sections);
    assert Scan(mem, true, sections, addrs, 1) == State([r], Without(sections, first));
  }

  /**
    * For any two overlapping sections and any pointer size there is a readable page on which unique mode prints a
    * report too many: two, where the plain scan has a first report for one section only.
    */
  lemma OverlapBreaksUnique(sections: seq<Section>, i: nat, j: nat, ptrsize: int)
    requires i < j < |sections| && Overlap(sections[i], sections[j]) && FitsTwice(ptrsize)
    ensures var value := if sections[i].start > sections[j].start then sections[i].start else sections[j].start;
            var mem := Page(sections, value, ptrsize);
            && Stop(mem, 0) !in mem.valid
            && |Peek(mem, true, sections, 0).value.reports| == 2
            && |FirstPerSection(Peek(mem, false, sections, 0).value.reports)| == 1
  {
    var value := if sections[i].start > sections[j].start then sections[i].start else sections[j].start;
    SecondMatch(sections, value, i, j);
    var first := FirstMatch(sections, value).value;
    WalkPage(sections, value, ptrsize);
    ScansOfPage(sections, value, ptrsize, first, FirstMatch(Without(sections, first), value).value);
    OneFirst(0, ptrsize, value, sections[first]);
  }

  /** A value in two sections is still found in one when the first match is taken out. */
  lemma SecondMatch(sections: seq<Section>, value: int, i: nat, j: nat)
    requires i < j < |sections| && Contains(sections[i], value) && Contains(sections[j], value)
    ensures FirstMatch(sections, value).Some?
    ensures FirstMatch(Without(sections, FirstMatch(sections, value).value), value).Some?
  {
    var first := FirstMatch(sections, value).value;
    var other := if first == i then j else i;
    assert Without(sections, first)[if other < first then other else other - 1] == sections[other];
  }

  lemma OneFirst(a: int, b: int, value: int, section: Section)
    ensures |FirstPerSection([Found(a, value, section), Found(b, value, section)])| == 1
  {
    var r0, r1 := Found(a, value, section), Found(b, value, section);
    ReportOneMore([r0], r1);
    ReportOneMore([], r0);
    assert [r0] + [r1] == [r0, r1] && [] + [r0] == [r0];
  }

  /** For every pointer size: unique mode refines the plain scan in all memories exactly when no sections overlap. */
  lemma UniqueModeRefinesIff(sections: seq<Section>, ptrsize: int)
    requires FitsTwice(ptrsize)
    ensures UniqueIsFirst(sections, ptrsize) <==> Disjoint(sections)
  {
    if Disjoint(sections) {
      forall mem: Memory, start: int | mem.ptrsize == ptrsize && start % PAGE_SIZE == 0
        ensures Peek(mem, true, sections, start).value.reports
             == FirstPerSection(Peek(mem, false, sections, start).value.reports)
      {
        var addrs := Walk(mem, start);
        ScanRelated(mem, sections, addrs, |addrs|);
      }
    }
    if i, j :| 0 <= i < j < |sections| && Overlap(sections[i], sections[j]) {
      OverlapBreaksUnique(sections, i, j, ptrsize);
    }
  }

  // ---------- what the command promises ----------

  /** All words from the start on, one pointer size apart, up to one that is not valid, or that cannot be read. */
  ghost predicate AreWordsFrom(mem: Memory, start: int, addrs: seq<int>, memoryError: bool) {
    && (forall k :: 0 <= k < |addrs| ==>
                      addrs[k] == start + k * mem.ptrsize && addrs[k] in mem.valid && addrs[k] in mem.words)
    && var stop := start + |addrs| * mem.ptrsize;
    if memoryError then stop in mem.valid && stop !in mem.words else stop !in mem.valid
  }

  /** The report is about the word at the address: its value, known, and the first of the sections around it. */
  ghost predicate Tells(mem: Memory, sections: seq<Section>, addr: int, r: Report)
    requires addr in mem.words
  {
    && r.addr == addr && r.value == mem.words[addr] && mem.known(r.value)
    && exists i :: FirstAround(sections, r.value, i, r.section)
  }

  predicate FirstAround(sections: seq<Section>, value: int, i: int, section: Section) {
    && 0 <= i < |sections| && sections[i] == section && section.start <= value < section.end
    && forall j :: 0 <= j < i ==> !(sections[j].start <= value < sections[j].end)
  }

  ghost predicate Ascending(reports: seq<Report>) {
    forall i, j :: 0 <= i < j < |reports| ==> reports[i].addr < reports[j].addr
  }

  /** The sections without the first one equal to the given one. */
  function RemoveFirst(sections: seq<Section>, section: Section): seq<Section> {
    if sections == [] then []
    else if sections[0] == section then sections[1..]
    else [sections[0]] + RemoveFirst(sections[1..], section)
  }

  /** The sections that the reports leave, each taking its own away. */
  function LeftBy(initial: seq<Section>, reports: seq<Report>): seq<Section> {
    if reports == [] then initial
    else RemoveFirst(LeftBy(initial, reports[..|reports| - 1]), reports[|reports| - 1].section)
  }

  /** Without unique mode: exactly the words that tell something. */
  ghost predicate AllAreTold(mem: Memory, initial: seq<Section>, addrs: seq<int>, reports: seq<Report>)
    requires forall k :: 0 <= k < |addrs| ==> addrs[k] in mem.words
  {
    forall r :: r in reports <==> exists k :: 0 <= k < |addrs| && Tells(mem, initial, addrs[k], r)
  }

  /** Word after word: before word k there are times[k] reports, and it adds one with the sections left by then. */
  ghost predicate AreTold(mem: Memory, unique: bool, initial: seq<Section>, addrs: seq<int>, reports: seq<Report>,
                          times: seq<nat>)
    requires forall k :: 0 <= k < |addrs| ==> addrs[k] in mem.words
  {
    && |times| == |addrs| + 1 && times[0] == 0 && times[|addrs|] == |reports|
    && forall k :: 0 <= k < |addrs| ==> Turn(mem, unique, initial, addrs, reports, times, k)
  }

  /** Word k adds its report, or tells nothing of the sections left. */
  ghost predicate Turn(mem: Memory, unique: bool, initial: seq<Section>, addrs: seq<int>, reports: seq<Report>,
                       times: seq<nat>, k: nat)
    requires k < |addrs| && |times| == |addrs| + 1 && addrs[k] in mem.words
  {
    var before, after := times[k], times[k + 1];
    before <= |reports|
    && var left := if unique then LeftBy(initial, reports[..before]) else initial;
    if after == before then forall r :: !Tells(mem, left, addrs[k], r)
    else after == before + 1 <= |reports| && Tells(mem, left, addrs[k], reports[before])
  }

  /** What a scan from an aligned start yields. */
  ghost predicate IsPeek(mem: Memory, unique: bool, initial: seq<Section>, start: int, state: State,
                         memoryError: bool)
  {
    exists addrs, times ::
      && AreWordsFrom(mem, start, addrs, memoryError)
      && AreTold(mem, unique, initial, addrs, state.reports, times) && Ascending(state.reports)
      && state.sections == (if unique then LeftBy(initial, state.reports) else initial)
      && (!unique ==> AllAreTold(mem, initial, addrs, state.reports))
  }

  lemma MatchTells(mem: Memory, sections: seq<Section>, addr: int)
    requires addr in mem.words
    ensures var value := mem.words[addr];
            var found := FirstMatch(sections, value);
            if mem.known(value) && found.Some?
            then forall r :: Tells(mem, sections, addr, r) <==> r == Found(addr, value, sections[found.value])
            else forall r :: !Tells(mem, sections, addr, r)
  {
    var value := mem.words[addr];
    var found := FirstMatch(sections, value);
    if mem.known(value) && found.Some? {
      assert FirstAround(sections, value, found.value, sections[found.value]);
      forall r | Tells(mem, sections, addr, r) ensures r.section == sections[found.value] {
        var i :| FirstAround(sections, r.value, i, r.section);
        assert !(i < found.value) && !(found.value < i);
      }
    }
  }

  lemma {:induction false} WalkIsWordsFrom(mem: Memory, start: int)
    requires mem.ptrsize > 0
    ensures AreWordsFrom(mem, start, Walk(mem, start), Stop(mem, start) in mem.valid)
  {
    var addrs := Walk(mem, start);
    WalkIsMaximal(mem, start, 0);
    forall k | 0 <= k < |addrs| ensures addrs[k] == start + k * mem.ptrsize && addrs[k] in mem.valid {
      WalkIsMaximal(mem, start, k);
    }
  }

  lemma {:induction false} WithoutIsRemoveFirst(sections: seq<Section>, i: nat)
    requires i < |sections| && forall k :: 0 <= k < i ==> sections[k] != sections[i]
    ensures Without(sections, i) == RemoveFirst(sections, sections[i])
    decreases i
  {
    if i > 0 {
      WithoutIsRemoveFirst(sections[1..], i - 1);
      WithoutTail(sections, i);
    }
  }

  lemma WithoutTail(sections: seq<Section>, i: nat)
    requires 0 < i < |sections|
    ensures Without(sections, i) == [sections[0]] + Without(sections[1..], i - 1)
  {
  }

  lemma {:induction false} SectionsLeft(mem: Memory, unique: bool, initial: seq<Section>, addrs: seq<int>, n: nat)
    requires n <= |addrs| && forall k :: 0 <= k < |addrs| ==> addrs[k] in mem.words
    ensures var state := Scan(mem, unique, initial, addrs, n);
            state.sections == if unique then LeftBy(initial, state.reports) else initial
  {
    if n > 0 {
      SectionsLeft(mem, unique, initial, addrs, n - 1);
      var before, value := Scan(mem, unique, initial, addrs, n - 1), mem.words[addrs[n - 1]];
      var found := FirstMatch(before.sections, value);
      if unique && mem.known(value) && found.Some? {
        WithoutIsRemoveFirst(before.sections, found.value);
        SnocFront(before.reports, Found(addrs[n - 1], value, before.sections[found.value]));
      }
    }
  }

  lemma {:induction false} ReportsAscend(mem: Memory, unique: bool, initial: seq<Section>, addrs: seq<int>, n: nat)
    requires n <= |addrs| && forall k :: 0 <= k < |addrs| ==> addrs[k] in mem.words
    requires forall i, j :: 0 <= i < j < |addrs| ==> addrs[i] < addrs[j]
    ensures var reports := Scan(mem, unique, initial, addrs, n).reports;
            Ascending(reports) && forall m :: 0 <= m < |reports| ==> n > 0 && reports[m].addr <= addrs[n - 1]
  {
    if n > 0 { ReportsAscend(mem, unique, initial, addrs, n - 1); }
  }

  /** The turn of a word is settled when its report, if any, is there. */
  lemma TurnStays(mem: Memory, unique: bool, initial: seq<Section>, addrs: seq<int>, reports: seq<Report>,
                  more: seq<Report>, times: seq<nat>, last: nat, k: nat)
    requires k < |addrs| - 1 && |times| == |addrs| && addrs[k] in mem.words
    requires Turn(mem, unique, initial, addrs[..|addrs| - 1], reports, times, k)
    ensures Turn(mem, unique, initial, addrs, reports + more, times + [last], k)
  {
    var before := times[k];
    assert (reports + more)[..before] == reports[..before];
    assert addrs[..|addrs| - 1][k] == addrs[k];
  }

  /** One more word: its report, if the scan makes one, is that of its turn. */
  lemma LastTurn(mem: Memory, unique: bool, initial: seq<Section>, addrs: seq<int>, before: State, times: seq<nat>)
    requires addrs != [] && forall k :: 0 <= k < |addrs| ==> addrs[k] in mem.words
    requires before.sections == if unique then LeftBy(initial, before.reports) else initial
    requires |times| == |addrs| && times[|addrs| - 1] == |before.reports|
    ensures var after := Step(mem, unique, before, addrs[|addrs| - 1]).reports;
            && before.reports <= after
            && Turn(mem, unique, initial, addrs, after, times + [|after|], |addrs| - 1)
  {
    var k := |addrs| - 1;
    MatchTells(mem, before.sections, addrs[k]);
    var after := Step(mem, unique, before, addrs[k]).reports;
    assert after[..|before.reports|] == before.reports;
  }

  lemma {:induction false} ScanIsTold(mem: Memory, unique: bool, initial: seq<Section>, addrs: seq<int>)
    returns (times: seq<nat>)
    requires forall k :: 0 <= k < |addrs| ==> addrs[k] in mem.words
    ensures AreTold(mem, unique, initial, addrs, Scan(mem, unique, initial, addrs, |addrs|).reports, times)
    decreases |addrs|
  {
    if addrs == [] {
      times := [0];
    } else {
      var n := |addrs| - 1;
      var before, after := Scan(mem, unique, initial, addrs, n), Scan(mem, unique, initial, addrs, n + 1).reports;
      var front := ScanIsTold(mem, unique, initial, addrs[..n]);
      FrontScan(mem, unique, initial, addrs, n, n);
      SectionsLeft(mem, unique, initial, addrs, n);
      LastTurn(mem, unique, initial, addrs, before, front);
      times := front + [|after|];
      var more := after[|before.reports|..];
      forall k: nat | k < n ensures Turn(mem, unique, initial, addrs, after, times, k) {
        TurnStays(mem, unique, initial, addrs, before.reports, more, front, |after|, k);
      }
    }
  }

  lemma {:induction false} FrontScan(mem: Memory, unique: bool, initial: seq<Section>, addrs: seq<int>, m: nat, n: nat)
    requires n <= m <= |addrs| && forall k :: 0 <= k < |addrs| ==> addrs[k] in mem.words
    ensures Scan(mem, unique, initial, addrs[..m], n) == Scan(mem, unique, initial, addrs, n)
  {
    if n > 0 { FrontScan(mem, unique, initial, addrs, m, n - 1); }
  }

  lemma PlainTellsAll(mem: Memory, initial: seq<Section>, addrs: seq<int>)
    requires forall k :: 0 <= k < |addrs| ==> addrs[k] in mem.words
    ensures AllAreTold(mem, initial, addrs, Scan(mem, false, initial, addrs, |addrs|).reports)
  {
    var reports := Scan(mem, false, initial, addrs, |addrs|).reports;
    forall r ensures r in reports <==> exists k :: 0 <= k < |addrs| && Tells(mem, initial, addrs[k], r) {
      PlainScanIsComplete(mem, initial, addrs, |addrs|, r);
      forall k | 0 <= k < |addrs| ensures Points(mem, initial, addrs[k], r) <==> Tells(mem, initial, addrs[k], r) {
        PointsIsTells(mem, initial, addrs[k], r);
      }
    }
  }

  lemma PointsIsTells(mem: Memory, sections: seq<Section>, addr: int, r: Report)
    requires addr in mem.words
    ensures Points(mem, sections, addr, r) <==> Tells(mem, sections, addr, r)
  {
    if i :| 0 <= i < |sections| && sections[i] == r.section && Contains(sections[i], r.value)
            && forall k :: 0 <= k < i ==> !Contains(sections[k], r.value) {
      assert FirstAround(sections, r.value, i, r.section);
    }
    if i :| FirstAround(sections, r.value, i, r.section) {
      assert Contains(sections[i], r.value);
    }
  }

  lemma WordsAscend(mem: Memory, start: int, addrs: seq<int>, i: nat, j: nat)
    requires mem.ptrsize > 0 && i < j < |addrs|
    requires forall k :: 0 <= k < |addrs| ==> addrs[k] == start + k * mem.ptrsize
    ensures addrs[i] < addrs[j]
  {
    assert (j - i) * mem.ptrsize > 0;
  }

  /** Whatever the scan yields is what is promised. */
  lemma PeekIsPeek(mem: Memory, unique: bool, initial: seq<Section>, start: int)
    requires mem.ptrsize > 0 && start % PAGE_SIZE == 0
    ensures IsPeek(mem, unique, initial, start, Peek(mem, unique, initial, start).value, Stop(mem, start) in mem.valid)
  {
    var addrs := Walk(mem, start);
    WalkIsWordsFrom(mem, start);
    forall i, j | 0 <= i < j < |addrs| ensures addrs[i] < addrs[j] { WordsAscend(mem, start, addrs, i, j); }
    ReportsAscend(mem, unique, initial, addrs, |addrs|);
    SectionsLeft(mem, unique, initial, addrs, |addrs|);
    PlainTellsAll(mem, initial, addrs);
    var times := ScanIsTold(mem, unique, initial, addrs);
  }
}
