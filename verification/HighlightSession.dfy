/** The colour bookkeeping of scripts/ida_interact.py: highlight add, highlight del and synchronize. */
module HighlightSession {
  import opened Options

  /** The mapped ranges of the debugged file, and whether it is position independent. */
  datatype Load = Load(ranges: seq<(nat, nat)>, pie: bool)

  /** The IDB's colours, the session's `old_colors` and the command's `last_hl_ea`. */
  datatype State = State(colors: map<int, int>, saved: map<int, int>, last: int)

  datatype Command =
    | Add(load: Load, location: nat, color: int)
    | Del(load: Load, location: nat)
    | Synchronize(load: Load, pc: nat)

  const NO_COLOR := 0xffff_ffff
  const HIGHLIGHT := 0x00ff00

  /** get_color */
  function ColorAt(colors: map<int, int>, ea: int): int {
    if ea in colors then colors[ea] else NO_COLOR
  }

  /** What is subtracted from an address; None where the list of the file's mappings is empty. */
  function Offset(load: Load): Option<int> {
    if !load.pie then Some(0)
    else if load.ranges == [] then None
    else Some(load.ranges[0].0)
  }

  /** min(page_start for the file's maps) */
  function Lowest(ranges: seq<(nat, nat)>): nat
    requires ranges != []
  {
    if |ranges| == 1 || ranges[0].0 < Lowest(ranges[1..]) then ranges[0].0 else Lowest(ranges[1..])
  }

  /** max(page_end for the file's maps) */
  function Highest(ranges: seq<(nat, nat)>): nat
    requires ranges != []
  {
    if |ranges| == 1 || ranges[0].1 > Highest(ranges[1..]) then ranges[0].1 else Highest(ranges[1..])
  }

  predicate Inside(load: Load, pc: nat) {
    load.ranges != [] && Lowest(load.ranges) <= pc < Highest(load.ranges)
  }

  /** The program counter is inside when it lies neither before every mapping nor behind every mapping. */
  lemma InsideIff(load: Load, pc: nat)
    ensures Inside(load, pc) <==>
            (exists k :: 0 <= k < |load.ranges| && load.ranges[k].0 <= pc)
            && (exists k :: 0 <= k < |load.ranges| && pc < load.ranges[k].1)
  {
    if load.ranges != [] {
      Extremes(load.ranges, pc);
    }
  }

  lemma {:induction false} Extremes(ranges: seq<(nat, nat)>, pc: nat)
    requires ranges != []
    ensures Lowest(ranges) <= pc <==> exists k :: 0 <= k < |ranges| && ranges[k].0 <= pc
    ensures pc < Highest(ranges) <==> exists k :: 0 <= k < |ranges| && pc < ranges[k].1
  {
    if |ranges| > 1 {
      Extremes(ranges[1..], pc);
      if k :| 0 <= k < |ranges[1..]| && ranges[1..][k].0 <= pc { assert ranges[k + 1].0 <= pc; }
      if k :| 0 <= k < |ranges[1..]| && pc < ranges[1..][k].1 { assert pc < ranges[k + 1].1; }
      if k :| 0 <= k < |ranges| && ranges[k].0 <= pc { assert k > 0 ==> ranges[1..][k - 1].0 <= pc; }
      if k :| 0 <= k < |ranges| && pc < ranges[k].1 { assert k > 0 ==> pc < ranges[1..][k - 1].1; }
    }
  }

  function AddAt(state: State, ea: int, color: int): State {
    State(state.colors[ea := color], state.saved[ea := ColorAt(state.colors, ea)], state.last)
  }

  function DelAt(state: State, ea: int): State {
    if ea !in state.saved then state
    else State(state.colors[ea := state.saved[ea]], state.saved - {ea}, state.last)
  }

  /** What synchronize starts from: the last highlight is deleted, measured from the present base. */
  function Cleared(state: State, offset: int): State {
    if state.last >= 0 then DelAt(state, state.last - offset) else state
  }

  /** One command. A failing one (no mapping of the file to measure from) leaves everything as it was. */
  function Execute(state: State, command: Command): State {
    match command
    case Add(load, location, color) =>
      if Offset(load).None? then state else AddAt(state, location - Offset(load).value, color)
    case Del(load, location) =>
      if Offset(load).None? then state else DelAt(state, location - Offset(load).value)
    case Synchronize(load, pc) =>
      if !Inside(load, pc) then state
      else
        var offset := Offset(load).value;
        AddAt(Cleared(state, offset), pc - offset, HIGHLIGHT).(last := pc)
  }

  function Run(state: State, commands: seq<Command>): State {
    if commands == [] then state
    else Execute(Run(state, commands[..|commands| - 1]), commands[|commands| - 1])
  }

  /** The session and the IDB that it colours. */
  class Session {
    var colors: map<int, int>
    var oldColors: map<int, int>
    var lastHlEa: int

    constructor (colors: map<int, int>)
      ensures Now() == State(colors, map[], -1)
    {
      this.colors, oldColors, lastHlEa := colors, map[], -1;
    }

    function Now(): State
      reads this
    {
      State(colors, oldColors, lastHlEa)
    }

    method HighlightAdd(load: Load, location: nat, color: int)
      modifies this
      ensures Now() == Execute(old(Now()), Add(load, location, color))
      ensures Adds(old(Now()), Now(), load, location, color)
    {
      var ea: int := location;
      if load.pie {
        if load.ranges == [] { return; }
        ea := location - load.ranges[0].0;
      }
      oldColors := oldColors[ea := if ea in colors then colors[ea] else NO_COLOR];
      colors := colors[ea := color];
    }

    method HighlightDel(load: Load, location: nat)
      modifies this
      ensures Now() == Execute(old(Now()), Del(load, location))
      ensures Deletes(old(Now()), Now(), load, location)
    {
      var ea: int := location;
      if load.pie {
        if load.ranges == [] { return; }
        ea := location - load.ranges[0].0;
      }
      if ea !in oldColors { return; }
      var color := oldColors[ea];
      oldColors := oldColors - {ea};
      colors := colors[ea := color];
    }

    method Synchronize(load: Load, pc: nat)
      modifies this
      ensures Now() == Execute(old(Now()), Command.Synchronize(load, pc))
      ensures Follows(old(Now()), Now(), load, pc)
    {
      ExecuteFollows(Now(), load, pc);
      if load.ranges == [] || !(Lowest(load.ranges) <= pc < Highest(load.ranges)) { return; }
      if lastHlEa >= 0 {
        HighlightDel(load, lastHlEa);
      }
      HighlightAdd(load, pc, HIGHLIGHT);
      lastHlEa := pc;
    }
  }

  // ---------- what the commands promise ----------

  /** The location in the IDB: a position independent file is measured from its first mapping. */
  predicate IsLocation(load: Load, address: int, ea: int) {
    if load.pie then load.ranges != [] && ea == address - load.ranges[0].0 else ea == address
  }

  /** The location gets the colour, and its present one is recorded; without a mapping to measure from, nothing. */
  ghost predicate Adds(before: State, after: State, load: Load, address: int, color: int) {
    && (load.pie && load.ranges == [] ==> after == before)
    && forall ea | IsLocation(load, address, ea) ::
         && after.colors == before.colors[ea := color] && after.last == before.last
         && after.saved == before.saved[ea := if ea in before.colors then before.colors[ea] else 0xffff_ffff]
  }

  /** A recorded location gets its recorded colour back and loses the record; any other location stays as it is. */
  ghost predicate Deletes(before: State, after: State, load: Load, address: int) {
    && (load.pie && load.ranges == [] ==> after == before)
    && forall ea | IsLocation(load, address, ea) ::
         if ea !in before.saved then after == before
         else && after.colors == before.colors[ea := before.saved[ea]] && after.last == before.last
              && after.saved.Keys == before.saved.Keys - {ea}
              && forall x :: x in after.saved ==> after.saved[x] == before.saved[x]
  }

  /** Behind the start of some mapping, and before the end of some mapping. */
  predicate InRange(load: Load, pc: nat) {
    && (exists k :: 0 <= k < |load.ranges| && load.ranges[k].0 <= pc)
    && exists k :: 0 <= k < |load.ranges| && pc < load.ranges[k].1
  }

  /** In range, the last highlight is deleted and the program counter highlighted in green instead. */
  ghost predicate Follows(before: State, after: State, load: Load, pc: nat) {
    if !InRange(load, pc) then after == before
    else
      && after.last == pc
      && exists cleared ::
           && (if before.last < 0 then cleared == before else Deletes(before, cleared, load, before.last))
           && Adds(cleared, after.(last := before.last), load, pc, 0x00ff00)
  }

  lemma DelAtDeletes(state: State, load: Load, address: int)
    requires Offset(load).Some?
    ensures Deletes(state, DelAt(state, address - Offset(load).value), load, address)
  {
  }

  lemma ExecuteFollows(state: State, load: Load, pc: nat)
    ensures Follows(state, Execute(state, Command.Synchronize(load, pc)), load, pc)
  {
    InsideIff(load, pc);
    if InRange(load, pc) {
      var offset := Offset(load).value;
      var cleared := Cleared(state, offset);
      DelAtDeletes(state, load, state.last);
      assert Adds(cleared, AddAt(cleared, pc - offset, HIGHLIGHT), load, pc, 0x00ff00);
    }
  }

  // ---------- the restored colours ----------

  /** The colour that a location would have after undoing every recorded highlight. */
  function Restored(state: State, ea: int): int {
    if ea in state.saved then state.saved[ea] else ColorAt(state.colors, ea)
  }

  ghost predicate SameRestored(a: State, b: State) {
    forall ea :: Restored(a, ea) == Restored(b, ea)
  }

  /** Undoing a highlight never changes the restored colours. */
  lemma DelKeepsRestored(state: State, ea: int)
    ensures SameRestored(DelAt(state, ea), state)
  {
    forall x ensures Restored(DelAt(state, ea), x) == Restored(state, x) {
      if x == ea && ea in state.saved { assert x !in state.saved - {ea}; }
    }
  }

  /** The location can be highlighted without harm: it is not recorded, or still has its recorded colour. */
  predicate Unharmed(state: State, ea: int) {
    ea in state.saved ==> state.saved[ea] == ColorAt(state.colors, ea)
  }

  /** Adding one keeps them exactly when the location is not recorded, or still has its recorded colour. */
  lemma AddKeepsRestoredIff(state: State, ea: int, color: int)
    ensures SameRestored(AddAt(state, ea, color), state) <==> Unharmed(state, ea)
  {
    var after := AddAt(state, ea, color);
    assert Restored(after, ea) == ColorAt(state.colors, ea);
    assert forall x :: x != ea ==> Restored(after, x) == Restored(state, x);
  }

  /** The location that the command highlights, if any, is unharmed when it does so. */
  predicate Harmless(state: State, command: Command) {
    match command
    case Add(load, location, _) => Offset(load).Some? ==> Unharmed(state, location - Offset(load).value)
    case Del(_, _) => true
    case Synchronize(load, pc) =>
      Inside(load, pc) ==> Unharmed(Cleared(state, Offset(load).value), pc - Offset(load).value)
  }

  lemma ExecuteKeepsRestoredIff(state: State, command: Command)
    ensures SameRestored(Execute(state, command), state) <==> Harmless(state, command)
  {
    match command {
      case Add(load, location, color) =>
        if Offset(load).Some? { AddKeepsRestoredIff(state, location - Offset(load).value, color); }
      case Del(load, location) =>
        if Offset(load).Some? { DelKeepsRestored(state, location - Offset(load).value); }
      case Synchronize(load, pc) =>
        if Inside(load, pc) {
          SynchronizeKeepsRestoredIff(state, Offset(load).value, pc);
        }
    }
  }

  lemma SynchronizeKeepsRestoredIff(state: State, offset: int, pc: nat)
    ensures SameRestored(AddAt(Cleared(state, offset), pc - offset, HIGHLIGHT).(last := pc), state)
       <==> Unharmed(Cleared(state, offset), pc - offset)
  {
    var cleared := Cleared(state, offset);
    var added := AddAt(cleared, pc - offset, HIGHLIGHT);
    DelKeepsRestored(state, state.last - offset);
    AddKeepsRestoredIff(cleared, pc - offset, HIGHLIGHT);
    assert forall x :: Restored(added.(last := pc), x) == Restored(added, x);
    SameRestoredThrough(added.(last := pc), cleared, state);
    SameRestoredThrough(added, cleared, state);
  }

  /** What keeps the restored colours of the middle state keeps those of the first one. */
  lemma SameRestoredThrough(last: State, middle: State, first: State)
    requires SameRestored(middle, first)
    ensures SameRestored(last, first) <==> SameRestored(last, middle)
  {
  }

  /** The restored colours are the initial ones at every point of the run. */
  ghost predicate KeptThroughout(state: State, commands: seq<Command>) {
    forall n :: 0 <= n <= |commands| ==> KeptAt(state, commands, n)
  }

  ghost predicate KeptAt(state: State, commands: seq<Command>, n: nat)
    requires n <= |commands|
  {
    SameRestored(Run(state, commands[..n]), state)
  }

  ghost predicate AlwaysHarmless(state: State, commands: seq<Command>) {
    forall n :: 0 <= n < |commands| ==> HarmlessAt(state, commands, n)
  }

  ghost predicate HarmlessAt(state: State, commands: seq<Command>, n: nat)
    requires n < |commands|
  {
    Harmless(Run(state, commands[..n]), commands[n])
  }

  /** The restored colours stay the initial ones throughout a run exactly when every highlight of it is harmless. */
  lemma {:induction false} RunKeepsRestoredIff(state: State, commands: seq<Command>)
    ensures KeptThroughout(state, commands) <==> AlwaysHarmless(state, commands)
  {
    if commands == [] {
      assert commands[..0] == [];
    } else {
      var n := |commands| - 1;
      var front := commands[..n];
      RunKeepsRestoredIff(state, front);
      FrontOfRun(state, commands);
      if KeptThroughout(state, front) {
        assert KeptAt(state, front, n) && front[..n] == front;
        ExecuteKeepsRestoredIff(Run(state, front), commands[n]);
        SameRestoredThrough(Run(state, commands), Run(state, front), state);
      }
    }
  }

  /** Both properties of a run are those of all but its last command, and of the last step. */
  lemma FrontOfRun(state: State, commands: seq<Command>)
    requires commands != []
    ensures var front, last := commands[..|commands| - 1], commands[|commands| - 1];
            && (KeptThroughout(state, commands)
                <==> KeptThroughout(state, front) && SameRestored(Run(state, commands), state))
            && (AlwaysHarmless(state, commands)
                <==> AlwaysHarmless(state, front) && Harmless(Run(state, front), last))
  {
    KeptInFront(state, commands);
    assert commands[..|commands|] == commands;
    HarmlessInFront(state, commands);
  }

  lemma KeptInFront(state: State, commands: seq<Command>)
    requires commands != []
    ensures KeptThroughout(state, commands) <==>
            KeptThroughout(state, commands[..|commands| - 1]) && KeptAt(state, commands, |commands|)
  {
    var n := |commands| - 1;
    forall m | 0 <= m <= n ensures KeptAt(state, commands[..n], m) <==> KeptAt(state, commands, m) {
      assert commands[..n][..m] == commands[..m];
    }
  }

  lemma HarmlessInFront(state: State, commands: seq<Command>)
    requires commands != []
    ensures AlwaysHarmless(state, commands) <==>
            AlwaysHarmless(state, commands[..|commands| - 1]) && HarmlessAt(state, commands, |commands| - 1)
  {
    var n := |commands| - 1;
    forall m | 0 <= m < n ensures HarmlessAt(state, commands[..n], m) <==> HarmlessAt(state, commands, m) {
      assert commands[..n][..m] == commands[..m];
    }
  }

  /** From a clean session, highlighting a location twice loses its colour: the first highlight is what comes back. */
  lemma HighlightedTwiceIsLost(colors: map<int, int>, load: Load, location: nat, first: int, second: int)
    requires Offset(load).Some? && ColorAt(colors, location - Offset(load).value) != first
    ensures var start, ea := State(colors, map[], -1), location - Offset(load).value;
            var commands := [Add(load, location, first), Add(load, location, second)];
            && Restored(Run(start, commands), ea) == first != Restored(start, ea)
            && !KeptThroughout(start, commands)
  {
    var start := State(colors, map[], -1);
    var commands := [Add(load, location, first), Add(load, location, second)];
    assert commands[..2] == commands && commands[..1] == [commands[0]] && [commands[0]][..0] == [];
    assert Run(start, [commands[0]]) == Execute(start, commands[0]);
    assert Run(start, commands) == Execute(Run(start, commands[..1]), commands[1]);
    assert Restored(Run(start, commands[..2]), location - Offset(load).value) == first;
    assert !KeptAt(start, commands, 2);
  }

  function Deletions(load: Load, locations: seq<nat>): (commands: seq<Command>)
    ensures |commands| == |locations|
    ensures forall k :: 0 <= k < |locations| ==> commands[k] == Del(load, locations[k])
  {
    seq(|locations|, k requires 0 <= k < |locations| => Del(load, locations[k]))
  }

  lemma {:induction false} DeletionsRemove(state: State, load: Load, locations: seq<nat>)
    requires Offset(load).Some?
    ensures var after := Run(state, Deletions(load, locations));
            && SameRestored(after, state)
            && forall ea :: ea in after.saved <==> ea in state.saved && ea + Offset(load).value !in locations
  {
    if locations != [] {
      var n := |locations| - 1;
      var front := locations[..n];
      assert Deletions(load, locations)[..n] == Deletions(load, front);
      DeletionsRemove(state, load, front);
      var before := Run(state, Deletions(load, front));
      DelKeepsRestored(before, locations[n] - Offset(load).value);
      assert forall x :: x in locations <==> x in front || x == locations[n];
    }
  }

  /** Deleting every recorded location, in any order, gives the restored colours back and records nothing. */
  lemma DeletingAllRestores(state: State, load: Load, locations: seq<nat>)
    requires Offset(load).Some?
    requires forall ea :: ea in state.saved ==> ea + Offset(load).value in locations
    ensures var after := Run(state, Deletions(load, locations));
            after.saved == map[] && forall ea :: ColorAt(after.colors, ea) == Restored(state, ea)
  {
    DeletionsRemove(state, load, locations);
    var after := Run(state, Deletions(load, locations));
    assert forall ea :: ea !in after.saved;
    assert after.saved == map[];
    forall ea ensures ColorAt(after.colors, ea) == Restored(state, ea) {
      assert Restored(after, ea) == Restored(state, ea);
    }
  }

  // ---------- runs of synchronize ----------

  /** Only `ea` is highlighted: it is the one recorded location, and all other colours are the original ones. */
  ghost predicate OnlyHighlight(state: State, original: map<int, int>, ea: int) {
    && state.saved == map[ea := ColorAt(original, ea)]
    && ColorAt(state.colors, ea) == HIGHLIGHT
    && forall x :: x != ea ==> ColorAt(state.colors, x) == ColorAt(original, x)
  }

  ghost predicate Synchronized(state: State, original: map<int, int>, offset: int) {
    if state.last < 0 then state == State(original, map[], -1)
    else OnlyHighlight(state, original, state.last - offset)
  }

  lemma SynchronizeStep(state: State, original: map<int, int>, load: Load, pc: nat)
    requires Offset(load).Some? && Inside(load, pc) && Synchronized(state, original, Offset(load).value)
    ensures var after := Execute(state, Synchronize(load, pc));
            after.last == pc && OnlyHighlight(after, original, pc - Offset(load).value)
  {
    var offset := Offset(load).value;
    if state.last >= 0 {
      var cleared := DelAt(state, state.last - offset);
      assert cleared.saved == map[];
      assert forall x :: ColorAt(cleared.colors, x) == ColorAt(original, x);
    }
  }

  /**
    * Over every run of synchronize with one load base the IDB differs from the original at the last highlighted
    * location only, and `old_colors` holds just that location's original colour.
    */
  lemma {:induction false} SynchronizeRuns(original: map<int, int>, commands: seq<Command>, offset: int)
    requires forall n :: 0 <= n < |commands| ==> commands[n].Synchronize? && Offset(commands[n].load) == Some(offset)
    ensures Synchronized(Run(State(original, map[], -1), commands), original, offset)
  {
    if commands != [] {
      var n := |commands| - 1;
      SynchronizeRuns(original, commands[..n], offset);
      var before := Run(State(original, map[], -1), commands[..n]);
      if Inside(commands[n].load, commands[n].pc) {
        SynchronizeStep(before, original, commands[n].load, commands[n].pc);
      }
    }
  }

  /** The command leaves one highlight, and every original colour can still be restored. */
  ghost predicate LeavesOneHighlight(state: State, original: map<int, int>, ea: int) {
    state.saved.Keys == {ea} && forall x :: Restored(state, x) == ColorAt(original, x)
  }

  /**
    * After such a run, with the file perhaps loaded elsewhere by now, the next synchronize leaves one highlight and
    * all original colours restorable exactly when there was no highlight yet, or the base did not move, or the new
    * location is the old one and had the highlight's colour in the first place.
    */
  lemma MovedBaseLeavesHighlightIff(original: map<int, int>, commands: seq<Command>, before: int, load: Load, pc: nat)
    requires forall n :: 0 <= n < |commands| ==> commands[n].Synchronize? && Offset(commands[n].load) == Some(before)
    requires Inside(load, pc)
    ensures var state := Run(State(original, map[], -1), commands);
            var old_ea, new_ea := state.last - before, pc - Offset(load).value;
            LeavesOneHighlight(Execute(state, Synchronize(load, pc)), original, new_ea)
            <==> state.last < 0 || Offset(load) == Some(before)
                 || (new_ea == old_ea && ColorAt(original, old_ea) == HIGHLIGHT)
  {
    SynchronizeRuns(original, commands, before);
    NextSynchronize(Run(State(original, map[], -1), commands), original, before, load, pc);
  }

  lemma NextSynchronize(state: State, original: map<int, int>, before: int, load: Load, pc: nat)
    requires Synchronized(state, original, before) && Inside(load, pc)
    ensures var old_ea, new_ea := state.last - before, pc - Offset(load).value;
            LeavesOneHighlight(Execute(state, Synchronize(load, pc)), original, new_ea)
            <==> state.last < 0 || Offset(load) == Some(before)
                 || (new_ea == old_ea && ColorAt(original, old_ea) == HIGHLIGHT)
  {
    if state.last < 0 || Offset(load) == Some(before) {
      SynchronizeStep(state, original, load, pc);
      OnlyOneHighlight(Execute(state, Synchronize(load, pc)), original, pc - Offset(load).value);
    } else {
      SynchronizeMoved(state, original, before, load, pc);
    }
  }

  lemma OnlyOneHighlight(state: State, original: map<int, int>, ea: int)
    requires OnlyHighlight(state, original, ea)
    ensures LeavesOneHighlight(state, original, ea)
  {
  }

  lemma SynchronizeMoved(state: State, original: map<int, int>, before: int, load: Load, pc: nat)
    requires state.last >= 0 && OnlyHighlight(state, original, state.last - before)
    requires Inside(load, pc) && Offset(load) != Some(before)
    ensures var old_ea, new_ea := state.last - before, pc - Offset(load).value;
            LeavesOneHighlight(Execute(state, Synchronize(load, pc)), original, new_ea)
            <==> new_ea == old_ea && ColorAt(original, old_ea) == HIGHLIGHT
  {
    var old_ea, new_ea := state.last - before, pc - Offset(load).value;
    var after := Execute(state, Synchronize(load, pc));
    assert state.last - Offset(load).value !in state.saved;
    assert old_ea in after.saved;
    if new_ea == old_ea { assert Restored(after, old_ea) == HIGHLIGHT; }
  }
}
