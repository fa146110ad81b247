/** The pointer chase of scripts/v8-dereference.py: `dereference_from` after its compressed-pointer branch. */
module Dereference {
  import opened Options

  /**
    * What the chase asks GEF about an address. `sections` are the addresses that have a section; `valid` is
    * GEF's own validity test, which the chase applies to the value it has just read.
    */
  datatype Memory = Memory(
    sections: set<int>,
    read: int -> Option<int>,
    valid: int -> bool,
    codeAt: int -> bool,
    readable: int -> bool,
    asciiAt: int -> bool,
    stringAt: int -> string,
    alignment: nat)

  datatype Entry =
    | Start(addr: int)
    | Follow(addr: int)
    | Unreadable(addr: int)
    | Instruction(addr: int)
    | ShortString(word: int, text: string)
    | LongString(text: string)
    | Text(text: string)
    | Value(word: int)
    | LoopDetected

  const MASK := 0x1_0000_0000_0000_0000

  /** The configured limit; Python's `or` turns a configured 0 into 10. A negative limit never runs out. */
  function Budget(configured: int): (budget: int)
    ensures budget != 0
  {
    if configured == 0 then 10 else configured
  }

  /** The one entry shown for a word that is not a valid address. */
  function Display(mem: Memory, addr: int, word: int): (entry: Entry)
    ensures !entry.LoopDetected? && !entry.Start? && !entry.Follow? && !entry.Unreadable?
  {
    if mem.codeAt(addr) && !mem.asciiAt(addr) then Instruction(addr)
    else if mem.readable(addr) && mem.asciiAt(addr) then
      var s := mem.stringAt(addr);
      if |s| < mem.alignment then ShortString(word, s)
      else if |s| > 50 then LongString(s[..50])
      else Text(s)
    else Value(word % MASK)
  }

  // ---------- the chain that the chase follows ----------

  function Next(mem: Memory, addr: int): int {
    match mem.read(addr)
    case Some(word) => word
    case None => addr
  }

  /** The t-th successive dereference of `start`. */
  function Iterate(mem: Memory, start: int, t: nat): int {
    if t == 0 then start else Next(mem, Iterate(mem, start, t - 1))
  }

  predicate Points(mem: Memory, addr: int) {
    mem.read(addr).Some? && mem.valid(mem.read(addr).value)
  }

  predicate IsIterate(mem: Memory, start: int, t: nat, addr: int) {
    Iterate(mem, start, t) == addr
  }

  /** The t-th address was already visited at an earlier step. */
  predicate Repeats(mem: Memory, start: int, t: nat) {
    Visited(mem, start, t, Iterate(mem, start, t))
  }

  predicate Visited(mem: Memory, start: int, n: nat, addr: int) {
    exists t :: 0 <= t < n && IsIterate(mem, start, t, addr)
  }

  /** The chase cannot go past the t-th address. */
  predicate Stops(mem: Memory, start: int, budget: int, t: nat) {
    || Iterate(mem, start, t) !in mem.sections
    || t == budget
    || Repeats(mem, start, t)
    || !Points(mem, Iterate(mem, start, t))
  }

  ghost predicate FirstStop(mem: Memory, start: int, budget: int, n: nat) {
    Stops(mem, start, budget, n) && forall t :: 0 <= t < n ==> !Stops(mem, start, budget, t)
  }

  function Followed(mem: Memory, start: int, n: nat): (entries: seq<Entry>)
    ensures |entries| == n + 1
  {
    if n == 0 then [Start(start)] else Followed(mem, start, n - 1) + [Follow(Iterate(mem, start, n))]
  }

  function Ending(mem: Memory, start: int, budget: int, n: nat): (entries: seq<Entry>)
    ensures |entries| <= 1
  {
    var addr := Iterate(mem, start, n);
    if addr !in mem.sections || n == budget then []
    else if Repeats(mem, start, n) then [LoopDetected]
    else
      match mem.read(addr)
      case None => [Unreadable(addr)]
      case Some(word) => [Display(mem, addr, word)]
  }

  function Report(mem: Memory, start: int, budget: int, n: nat): seq<Entry> {
    Followed(mem, start, n) + Ending(mem, start, budget, n)
  }

  /** The list of entries that a chase produces. */
  ghost predicate IsReport(mem: Memory, start: int, budget: int, msg: seq<Entry>) {
    exists n: nat :: FirstStop(mem, start, budget, n) && msg == Report(mem, start, budget, n)
  }

  /** There is one first stop only, so there is one report. */
  lemma ReportIsUnique(mem: Memory, start: int, budget: int, n: nat, msg: seq<Entry>)
    requires FirstStop(mem, start, budget, n) && IsReport(mem, start, budget, msg)
    ensures msg == Report(mem, start, budget, n)
  {
    var m: nat :| FirstStop(mem, start, budget, m) && msg == Report(mem, start, budget, m);
    assert !(m < n) && !(n < m);
  }

  ghost function SeenBefore(mem: Memory, start: int, n: nat): (seen: set<int>)
    ensures forall a :: a in seen <==> Visited(mem, start, n, a)
  {
    if n == 0 then {}
    else
      var last := Iterate(mem, start, n - 1);
      assert IsIterate(mem, start, n - 1, last);
      SeenBefore(mem, start, n - 1) + {last}
  }

  // ---------- what the chase promises ----------

  /** The chain of addresses that a chase follows: different mapped ones, each holding the next, a valid address. */
  ghost predicate IsChain(mem: Memory, start: int, chain: seq<int>) {
    && chain != [] && chain[0] == start
    && (forall t :: 0 <= t < |chain| - 1 ==> HoldsNext(mem, chain, t))
    && (forall s, t :: 0 <= s < t < |chain| - 1 ==> chain[s] != chain[t])
  }

  predicate HoldsNext(mem: Memory, chain: seq<int>, t: nat)
    requires t + 1 < |chain|
  {
    chain[t] in mem.sections && mem.read(chain[t]) == Some(chain[t + 1]) && mem.valid(chain[t + 1])
  }

  /** The chain stops at its last address: outside the sections, at the limit, or with the one entry that says why. */
  ghost predicate EndsWith(mem: Memory, chain: seq<int>, limit: int, ending: seq<Entry>)
    requires chain != []
  {
    var n := |chain| - 1;
    var last := chain[n];
    && (limit < 0 || n <= limit)
    && if last !in mem.sections || n == limit then ending == []
       else |ending| == 1 && if last in chain[..n] then ending[0] == LoopDetected
            else match mem.read(last)
                 case None => ending[0] == Unreadable(last)
                 case Some(word) => !mem.valid(word) && ShowsWord(mem, last, word, ending[0])
  }

  /** Exactly when which entry is shown for a word that is not a valid address, and what it holds. */
  ghost predicate ShowsWord(mem: Memory, addr: int, word: int, entry: Entry) {
    var instruction := mem.codeAt(addr) && !mem.asciiAt(addr);
    var text := !instruction && mem.readable(addr) && mem.asciiAt(addr);
    var s := mem.stringAt(addr);
    match entry
    case Instruction(at) => instruction && at == addr
    case ShortString(shown, content) => text && |s| < mem.alignment && shown == word && content == s
    case LongString(content) => text && |s| >= mem.alignment && |s| > 50 && |content| == 50 && content <= s
    case Text(content) => text && mem.alignment <= |s| <= 50 && content == s
    case Value(shown) => !instruction && !text && IsLow64(shown, word)
    case _ => false
  }

  /** The low 64 bits of a word. */
  ghost predicate IsLow64(bits: int, word: int) {
    0 <= bits < 0x1_0000_0000_0000_0000 && exists q :: word == q * 0x1_0000_0000_0000_0000 + bits
  }

  /** The report lists the chain, and then why it ends there. */
  ghost predicate IsChase(mem: Memory, start: int, limit: int, msg: seq<Entry>) {
    exists chain: seq<int>, ending: seq<Entry> ::
      IsChain(mem, start, chain) && EndsWith(mem, chain, limit, ending) && Lists(msg, chain, ending)
  }

  ghost predicate Lists(msg: seq<Entry>, chain: seq<int>, ending: seq<Entry>)
    requires chain != []
  {
    && |msg| == |chain| + |ending|
    && (forall t :: 0 <= t < |chain| ==> msg[t] == if t == 0 then Start(chain[0]) else Follow(chain[t]))
    && (ending != [] ==> msg[|chain|..] == ending)
  }

  function Chain(mem: Memory, start: int, n: nat): (chain: seq<int>)
    ensures |chain| == n + 1 && forall t :: 0 <= t <= n ==> chain[t] == Iterate(mem, start, t)
  {
    if n == 0 then [start] else Chain(mem, start, n - 1) + [Iterate(mem, start, n)]
  }

  lemma DisplayShowsWord(mem: Memory, addr: int, word: int)
    ensures ShowsWord(mem, addr, word, Display(mem, addr, word))
  {
    assert word == (word / MASK) * MASK + word % MASK;
  }

  /** One entry only fits a word. */
  lemma OneEntryFits(mem: Memory, addr: int, word: int, one: Entry, other: Entry)
    requires ShowsWord(mem, addr, word, one) && ShowsWord(mem, addr, word, other)
    ensures one == other
  {
    if one.LongString? { assert one.text == mem.stringAt(addr)[..50] == other.text; }
    if one.Value? {
      var q :| word == q * MASK + one.word;
      var r :| word == r * MASK + other.word;
      assert (q - r) * MASK == other.word - one.word;
    }
  }

  lemma ChainIsFollowed(mem: Memory, start: int, budget: int, n: nat)
    requires FirstStop(mem, start, budget, n)
    ensures IsChain(mem, start, Chain(mem, start, n))
  {
    var chain := Chain(mem, start, n);
    forall t | 0 <= t < n ensures HoldsNext(mem, chain, t) {
      assert !Stops(mem, start, budget, t);
      assert Iterate(mem, start, t + 1) == Next(mem, Iterate(mem, start, t));
    }
    forall s, t | 0 <= s < t < n ensures chain[s] != chain[t] {
      assert !Stops(mem, start, budget, t);
      assert !IsIterate(mem, start, s, Iterate(mem, start, t));
    }
  }

  lemma RepeatsIsMember(mem: Memory, start: int, n: nat)
    ensures Repeats(mem, start, n) <==> Iterate(mem, start, n) in Chain(mem, start, n)[..n]
  {
    var chain, last := Chain(mem, start, n), Iterate(mem, start, n);
    if Repeats(mem, start, n) {
      var t :| 0 <= t < n && IsIterate(mem, start, t, last);
      assert chain[..n][t] == last;
    }
    if last in chain[..n] {
      var t :| 0 <= t < n && chain[..n][t] == last;
      assert IsIterate(mem, start, t, last);
    }
  }

  lemma EndingIsRight(mem: Memory, start: int, budget: int, n: nat)
    requires FirstStop(mem, start, budget, n)
    ensures EndsWith(mem, Chain(mem, start, n), budget, Ending(mem, start, budget, n))
  {
    var last := Iterate(mem, start, n);
    BelowBudget(mem, start, budget, n);
    RepeatsIsMember(mem, start, n);
    if mem.read(last).Some? { DisplayShowsWord(mem, last, mem.read(last).value); }
  }

  /** Every report is the one that is promised. */
  lemma ReportIsChase(mem: Memory, start: int, budget: int, n: nat)
    requires FirstStop(mem, start, budget, n)
    ensures IsChase(mem, start, budget, Report(mem, start, budget, n))
  {
    var chain, ending := Chain(mem, start, n), Ending(mem, start, budget, n);
    ChainIsFollowed(mem, start, budget, n);
    EndingIsRight(mem, start, budget, n);
    forall t | 0 <= t <= n
      ensures Report(mem, start, budget, n)[t] == if t == 0 then Start(chain[0]) else Follow(chain[t])
    {
      FollowedAreIterates(mem, start, n, t);
    }
    assert Report(mem, start, budget, n)[n + 1..] == ending;
    assert Lists(Report(mem, start, budget, n), chain, ending);
  }

  /**
    * The loop ends for any memory, start and limit, at the first address that stops it, and reports the chain up to
    * there. A configured limit of 0 counts as 10.
    */
  method DereferenceFrom(mem: Memory, start: int, configured: int) returns (msg: seq<Entry>)
    ensures IsReport(mem, start, Budget(configured), msg)
    ensures IsChase(mem, start, if configured == 0 then 10 else configured, msg)
  {
    var budget := Budget(configured);
    var remaining := budget;
    var addr := start;
    var seen: set<int> := {};
    msg := [Start(addr)];
    ghost var n: nat := 0;
    while addr in mem.sections && remaining != 0
      invariant addr == Iterate(mem, start, n)
      invariant remaining == budget - n
      invariant seen == SeenBefore(mem, start, n) && seen <= mem.sections
      invariant msg == Followed(mem, start, n)
      invariant forall t :: 0 <= t < n ==> !Stops(mem, start, budget, t)
      decreases mem.sections - seen
    {
      if addr in seen {
        assert Repeats(mem, start, n) && FirstStop(mem, start, budget, n);
        msg := msg + [LoopDetected];
        ReportIsChase(mem, start, budget, n);
        return;
      }
      assert !Repeats(mem, start, n);
      seen := seen + {addr};
      remaining := remaining - 1;
      var word := mem.read(addr);
      if word.None? {
        assert FirstStop(mem, start, budget, n);
        msg := msg + [Unreadable(addr)];
        ReportIsChase(mem, start, budget, n);
        return;
      }
      if mem.valid(word.value) {
        n := n + 1;
        addr := word.value;
        msg := msg + [Follow(addr)];
      } else {
        assert FirstStop(mem, start, budget, n);
        msg := msg + [Display(mem, addr, word.value)];
        ReportIsChase(mem, start, budget, n);
        return;
      }
    }
    assert FirstStop(mem, start, budget, n) && msg + [] == msg;
    ReportIsChase(mem, start, budget, n);
  }

  // ---------- what the report says ----------

  lemma {:induction false} NoLoopEntryBefore(mem: Memory, start: int, n: nat)
    ensures LoopDetected !in Followed(mem, start, n)
  {
    if n > 0 { NoLoopEntryBefore(mem, start, n - 1); }
  }

  /** A cycle that the chase meets before its limit: every step up to the repeated address is a valid pointer. */
  ghost predicate CycleWithin(mem: Memory, start: int, budget: int, t: nat) {
    && (budget < 0 || t < budget)
    && Repeats(mem, start, t)
    && (forall k :: 0 <= k < t ==> Iterate(mem, start, k) in mem.sections && Points(mem, Iterate(mem, start, k)))
  }

  /** The loop message appears exactly when the chain revisits an address at a step below the limit. */
  lemma LoopMessageIsExact(mem: Memory, start: int, budget: int, report: seq<Entry>)
    requires IsReport(mem, start, budget, report)
    ensures LoopDetected in report <==> exists t :: CycleWithin(mem, start, budget, t)
  {
    var n: nat :| FirstStop(mem, start, budget, n) && report == Report(mem, start, budget, n);
    NoLoopEntryBefore(mem, start, n);
    if LoopDetected in report {
      assert LoopDetected in Ending(mem, start, budget, n);
      BelowBudget(mem, start, budget, n);
      assert CycleWithin(mem, start, budget, n) by {
        forall k | 0 <= k < n ensures Iterate(mem, start, k) in mem.sections && Points(mem, Iterate(mem, start, k)) {
          assert !Stops(mem, start, budget, k);
        }
      }
    }
    if exists t :: CycleWithin(mem, start, budget, t) {
      var t :| CycleWithin(mem, start, budget, t);
      StopIsTheRepeat(mem, start, budget, n, t);
      assert Ending(mem, start, budget, n) == [LoopDetected];
      assert report[n + 1] == LoopDetected;
    }
  }

  /** A first stop never lies beyond a non-negative limit. */
  lemma BelowBudget(mem: Memory, start: int, budget: int, n: nat)
    requires FirstStop(mem, start, budget, n)
    ensures budget < 0 || n <= budget
  {
    if 0 <= budget < n {
      assert Stops(mem, start, budget, budget);
    }
  }

  lemma StopIsTheRepeat(mem: Memory, start: int, budget: int, n: nat, t: nat)
    requires FirstStop(mem, start, budget, n) && CycleWithin(mem, start, budget, t)
    ensures Repeats(mem, start, n) && n != budget && Iterate(mem, start, n) in mem.sections
  {
    assert Stops(mem, start, budget, t);
    assert n <= t;
    if n < t {
      assert Points(mem, Iterate(mem, start, n));
    }
    var s :| 0 <= s < n && IsIterate(mem, start, s, Iterate(mem, start, n));
    assert !Stops(mem, start, budget, s);
  }

  /** The followed addresses are the iterates in order; all but possibly the last are distinct. */
  lemma {:induction false} FollowedAreIterates(mem: Memory, start: int, n: nat, t: nat)
    requires t <= n
    ensures Followed(mem, start, n)[t] ==
            if t == 0 then Start(start) else Follow(Iterate(mem, start, t))
  {
    if t < n { FollowedAreIterates(mem, start, n - 1, t); }
  }

  /** The whole shape of a report: its length, its addresses, and their distinctness. */
  lemma ReportShape(mem: Memory, start: int, budget: int, n: nat)
    requires FirstStop(mem, start, budget, n)
    ensures var report := Report(mem, start, budget, n);
            && n + 1 <= |report| <= n + 2
            && (budget >= 0 ==> |report| <= budget + 1)
            && (forall t :: 0 <= t <= n ==>
                              report[t] == if t == 0 then Start(start) else Follow(Iterate(mem, start, t)))
    ensures forall s, t :: 0 <= s < t < n ==> Iterate(mem, start, s) != Iterate(mem, start, t)
    ensures LoopDetected !in Report(mem, start, budget, n) && n != budget
            ==> forall s :: 0 <= s < n ==> Iterate(mem, start, s) != Iterate(mem, start, n)
  {
    BelowBudget(mem, start, budget, n);
    forall t | 0 <= t <= n
      ensures Report(mem, start, budget, n)[t] == if t == 0 then Start(start) else Follow(Iterate(mem, start, t))
    {
      FollowedAreIterates(mem, start, n, t);
    }
    forall s, t | 0 <= s < t < n ensures Iterate(mem, start, s) != Iterate(mem, start, t) {
      assert !Stops(mem, start, budget, t);
      assert !IsIterate(mem, start, s, Iterate(mem, start, t));
    }
    var ending := Ending(mem, start, budget, n);
    if ending == [LoopDetected] {
      assert Report(mem, start, budget, n)[n + 1] == LoopDetected;
    } else if n != budget {
      forall s | 0 <= s < n ensures Iterate(mem, start, s) != Iterate(mem, start, n) {
        assert !Stops(mem, start, budget, s);
        assert Iterate(mem, start, n) in mem.sections ==> !IsIterate(mem, start, s, Iterate(mem, start, n));
      }
    }
  }

  // ---------- the limit and the pigeonhole ----------

  ghost predicate FreshAt(mem: Memory, start: int, t: nat) {
    Iterate(mem, start, t) in mem.sections && !Repeats(mem, start, t)
  }

  lemma {:induction false} DistinctIterates(mem: Memory, start: int, n: nat)
    requires forall t :: 0 <= t < n ==> FreshAt(mem, start, t)
    ensures SeenBefore(mem, start, n) <= mem.sections && |SeenBefore(mem, start, n)| == n
  {
    if n > 0 {
      var last := Iterate(mem, start, n - 1);
      var before := SeenBefore(mem, start, n - 1);
      DistinctIterates(mem, start, n - 1);
      assert FreshAt(mem, start, n - 1);
      assert last !in before;
      assert SeenBefore(mem, start, n) == before + {last};
    }
  }

  lemma {:induction false} SubsetSize<T>(a: set<T>, b: set<T>)
    requires a <= b
    ensures |a| <= |b|
  {
    if x :| x in a {
      SubsetSize(a - {x}, b - {x});
    }
  }

  /**
    * With a limit above the number of addresses that have a section, or a negative one, the chase never ends
    * for lack of budget, so the report says why: a loop, no section, an unreadable address or a plain value.
    */
  lemma EnoughBudgetIsNeverUsedUp(mem: Memory, start: int, budget: int, n: nat)
    requires FirstStop(mem, start, budget, n)
    requires budget < 0 || budget > |mem.sections|
    ensures n <= |mem.sections| && n != budget
    ensures Ending(mem, start, budget, n) == [] <==> Iterate(mem, start, n) !in mem.sections
  {
    forall t | 0 <= t < n ensures FreshAt(mem, start, t) {
      assert !Stops(mem, start, budget, t);
    }
    DistinctIterates(mem, start, n);
    SubsetSize(SeenBefore(mem, start, n), mem.sections);
  }

  lemma {:induction false} SameSizeSubset<T>(a: set<T>, b: set<T>)
    requires a <= b && |a| == |b|
    ensures a == b
  {
    if x :| x in a {
      SameSizeSubset(a - {x}, b - {x});
    }
  }

  /** The chain runs through n different mapped addresses along valid pointers and stays among the mapped ones. */
  ghost predicate RunsThrough(mem: Memory, start: int, n: nat) {
    && (forall t :: 0 <= t < n ==> FreshAt(mem, start, t) && Points(mem, Iterate(mem, start, t)))
    && Iterate(mem, start, n) in mem.sections
  }

  /** A chain that closes at step n is reported as a loop exactly when the limit is above n, or negative. */
  lemma LoopNeedsLimitAbove(mem: Memory, start: int, n: nat, budget: int, report: seq<Entry>)
    requires RunsThrough(mem, start, n) && Repeats(mem, start, n)
    requires IsReport(mem, start, budget, report)
    ensures LoopDetected in report <==> budget < 0 || budget > n
  {
    LoopMessageIsExact(mem, start, budget, report);
    if budget < 0 || budget > n {
      assert CycleWithin(mem, start, budget, n) by {
        forall k | 0 <= k < n ensures Iterate(mem, start, k) in mem.sections && Points(mem, Iterate(mem, start, k)) {
          assert FreshAt(mem, start, k);
        }
      }
    }
    if t: nat :| CycleWithin(mem, start, budget, t) {
      assert t < n ==> FreshAt(mem, start, t);
    }
  }

  /**
    * The pigeonhole bound is tight: a chain through all mapped addresses that stays among them closes at the step
    * whose number is their number, and its loop is reported exactly for the limits above that number.
    */
  lemma PigeonholeIsTight(mem: Memory, start: int, budget: int, report: seq<Entry>)
    requires RunsThrough(mem, start, |mem.sections|) && IsReport(mem, start, budget, report)
    ensures Repeats(mem, start, |mem.sections|)
    ensures LoopDetected in report <==> budget < 0 || budget > |mem.sections|
  {
    var n := |mem.sections|;
    DistinctIterates(mem, start, n);
    SameSizeSubset(SeenBefore(mem, start, n), mem.sections);
    assert Iterate(mem, start, n) in SeenBefore(mem, start, n);
    LoopNeedsLimitAbove(mem, start, n, budget, report);
  }

  /** A witness: one mapped address that points to itself. */
  lemma LoopMissedAtTheLimit(mem: Memory)
    requires mem.sections == {0} && mem.read(0) == Some(0) && mem.valid(0)
    ensures RunsThrough(mem, 0, |mem.sections|)
    ensures FirstStop(mem, 0, 1, 1) && Report(mem, 0, 1, 1) == [Start(0), Follow(0)]
    ensures Repeats(mem, 0, 1) && FirstStop(mem, 0, 2, 1) && LoopDetected in Report(mem, 0, 2, 1)
  {
    assert Iterate(mem, 0, 0) == 0 && Iterate(mem, 0, 1) == 0;
    assert IsIterate(mem, 0, 0, 0);
    assert FreshAt(mem, 0, 0) && Points(mem, Iterate(mem, 0, 0));
    assert !Stops(mem, 0, 1, 0) && !Stops(mem, 0, 2, 0);
    assert Followed(mem, 0, 1) == [Start(0), Follow(0)];
    assert Report(mem, 0, 2, 1)[2] == LoopDetected;
  }
}
