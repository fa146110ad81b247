/** The heap view of scripts/visualize_heap.py: the walk over the chunks, and what its output says about the heap. */
module HeapView {
  import opened Options
  import opened Sequences
  import opened HeapChunk

  const COLORS := 5

  predicate IsCorrupted(base: int, data: int, size: nat, top: int) {
    if base > data then false
    else if base > top then true
    else size == 0
  }

  // ---------- the walk over the chunks ----------

  function Base(heap: Heap, k: nat): int {
    if k == 0 then heap.first else Base(heap, k - 1) + heap.sizeAt(Base(heap, k - 1))
  }

  function ChunkAt(heap: Heap, k: nat): Chunk {
    Chunk(Base(heap, k), heap.sizeAt(Base(heap, k)), k, k % COLORS)
  }

  function Views(heap: Heap, n: nat): seq<Line>
    requires heap.Valid()
  {
    if n == 0 then [] else Views(heap, n - 1) + View(heap, ChunkAt(heap, n - 1))
  }

  /** The first n chunks lie below the top and are not empty. */
  ghost predicate Walkable(heap: Heap, n: nat) {
    n > 0 ==> Walkable(heap, n - 1) && Passes(heap, n - 1)
  }

  ghost predicate Passes(heap: Heap, k: nat) {
    Base(heap, k) < heap.top && heap.sizeAt(Base(heap, k)) > 0
  }

  lemma {:induction false} WalkableAt(heap: Heap, n: nat, k: nat)
    requires Walkable(heap, n) && k < n
    ensures Passes(heap, k)
  {
    if k < n - 1 { WalkableAt(heap, n - 1, k); }
  }

  ghost predicate ReachesTop(heap: Heap, n: nat) {
    Walkable(heap, n) && Base(heap, n) == heap.top && heap.sizeAt(heap.top) > 0
  }

  function TopLine(heap: Heap): Line {
    Top(heap.top, heap.wordAt(heap.top), heap.wordAt(heap.top + heap.ptrsize))
  }

  /** The state of the walk when it looks at chunk n. */
  ghost predicate Walked(heap: Heap, n: nat, chunk: Chunk, lines: seq<Line>)
    requires heap.Valid()
  {
    Walkable(heap, n) && chunk == ChunkAt(heap, n) && lines == Views(heap, n)
  }

  lemma WalkStep(heap: Heap, n: nat, chunk: Chunk, lines: seq<Line>, view: seq<Line>)
    requires heap.Valid() && Walked(heap, n, chunk, lines) && view == View(heap, chunk)
    requires chunk.base < heap.top && chunk.size > 0
    ensures Walked(heap, n + 1, NextChunk(heap, chunk), lines + view)
  {
    NextColor(n);
  }

  /** The chunk that GEF yields next, with the next index and colour. */
  function NextChunk(heap: Heap, chunk: Chunk): Chunk {
    var base := chunk.base + chunk.size;
    Chunk(base, heap.sizeAt(base), chunk.index + 1, (chunk.color + 1) % COLORS)
  }

  lemma WalkStarts(heap: Heap)
    requires heap.Valid()
    ensures Walked(heap, 0, Chunk(heap.first, heap.sizeAt(heap.first), 0, 0), [])
  {
  }

  lemma NextColor(n: nat)
    ensures (n % COLORS + 1) % COLORS == (n + 1) % COLORS
  {
  }

  /** The walk cannot go on from chunk n, which is the top chunk or corrupted. */
  ghost predicate Ends(heap: Heap, n: nat) {
    Walkable(heap, n)
    && (ReachesTop(heap, n) || Base(heap, n) > heap.top || heap.sizeAt(Base(heap, n)) == 0)
  }

  ghost predicate IsOutput(heap: Heap, lines: seq<Line>)
    requires heap.Valid()
  {
    exists n: nat :: OutputAt(heap, n, lines)
  }

  /** The walk ends at chunk n, and the lines are those of the n chunks before it and one last line. */
  ghost predicate OutputAt(heap: Heap, n: nat, lines: seq<Line>)
    requires heap.Valid()
  {
    Ends(heap, n) && lines == Views(heap, n) + [LastLine(heap, n)]
  }

  ghost function LastLine(heap: Heap, n: nat): Line {
    if ReachesTop(heap, n) then TopLine(heap) else Corrupted
  }

  /** Where the loop stops, the lines and one more are the output. */
  lemma WalkStops(heap: Heap, n: nat, chunk: Chunk, lines: seq<Line>)
    requires heap.Valid() && Walked(heap, n, chunk, lines)
    ensures var corrupted := IsCorrupted(chunk.base, chunk.base + 2 * heap.ptrsize, chunk.size, heap.top);
            && (!corrupted && chunk.base == heap.top ==> IsOutput(heap, lines + [TopLine(heap)]))
            && (corrupted ==> IsOutput(heap, lines + [Corrupted]))
  {
    assert Ends(heap, n) ==> OutputAt(heap, n, lines + [LastLine(heap, n)]);
  }

  /** The whole command. It always ends, either at the top chunk or with the corruption message. */
  method PrintHeap(heap: Heap) returns (lines: seq<Line>)
    requires heap.Valid()
    ensures IsOutput(heap, lines) && IsHeapView(heap, lines)
  {
    lines := [];
    ghost var n: nat := 0;
    var chunk := Chunk(heap.first, heap.sizeAt(heap.first), 0, 0);
    WalkStarts(heap);
    while !IsCorrupted(chunk.base, chunk.base + 2 * heap.ptrsize, chunk.size, heap.top)
      invariant Walked(heap, n, chunk, lines)
      decreases heap.top - chunk.base
    {
      if chunk.base == heap.top {
        WalkStops(heap, n, chunk, lines);
        lines := lines + [Top(chunk.base, heap.wordAt(chunk.base), heap.wordAt(chunk.base + heap.ptrsize))];
        OutputIsHeapView(heap, lines);
        return;
      }
      var view := PrintChunk(heap, chunk);
      WalkStep(heap, n, chunk, lines, view);
      lines, chunk, n := lines + view, NextChunk(heap, chunk), n + 1;
    }
    WalkStops(heap, n, chunk, lines);
    lines := lines + [Corrupted];
    OutputIsHeapView(heap, lines);
  }

  lemma {:induction false} BasesIncrease(heap: Heap, j: nat, k: nat)
    requires j < k && Walkable(heap, k)
    ensures Base(heap, j) + heap.sizeAt(Base(heap, j)) <= Base(heap, k) && Base(heap, j) < Base(heap, k)
    decreases k
  {
    if j < k - 1 { BasesIncrease(heap, j, k - 1); }
  }

  ghost predicate WholeUpTo(heap: Heap, m: nat) {
    Base(heap, m) == heap.top && forall k :: 0 <= k <= m ==> heap.sizeAt(Base(heap, k)) > 0
  }

  /** The top chunk is printed exactly when the top is one of the chunk bases and no chunk up to it is empty. */
  lemma WalkSucceedsIff(heap: Heap, lines: seq<Line>)
    requires heap.Valid() && IsOutput(heap, lines)
    ensures TopLine(heap) in lines <==> exists m: nat :: WholeUpTo(heap, m)
    ensures Corrupted in lines <==> TopLine(heap) !in lines
  {
    var n: nat :| OutputAt(heap, n, lines);
    ViewsHoldWords(heap, n);
    ReachesTopIff(heap, n);
  }

  lemma ReachesTopIff(heap: Heap, n: nat)
    requires Ends(heap, n)
    ensures ReachesTop(heap, n) <==> exists m: nat :: WholeUpTo(heap, m)
  {
    if ReachesTop(heap, n) {
      forall k | 0 <= k <= n ensures heap.sizeAt(Base(heap, k)) > 0 {
        if k < n { WalkableAt(heap, n, k); }
      }
      assert WholeUpTo(heap, n);
    } else if m: nat :| WholeUpTo(heap, m) {
      assert m < n ==> Passes(heap, m) by {
        if m < n { WalkableAt(heap, n, m); }
      }
      if n <= m { PositiveSizesIncrease(heap, n, m); }
    }
  }

  ghost predicate ChunkLines(lines: seq<Line>) {
    forall q :: 0 <= q < |lines| ==> lines[q].Word? || lines[q].Marker?
  }

  lemma ChunkLinesConcat(a: seq<Line>, b: seq<Line>)
    requires ChunkLines(a) && ChunkLines(b)
    ensures ChunkLines(a + b)
  {
  }

  lemma {:induction false} ViewsHoldWords(heap: Heap, n: nat)
    requires heap.Valid()
    ensures ChunkLines(Views(heap, n))
  {
    if n > 0 {
      ViewsHoldWords(heap, n - 1);
      LinesHoldWords(heap, ChunkAt(heap, n - 1), WordCount(heap, ChunkAt(heap, n - 1)));
      ChunkLinesConcat(Views(heap, n - 1), View(heap, ChunkAt(heap, n - 1)));
    }
  }

  lemma {:induction false} LinesHoldWords(heap: Heap, chunk: Chunk, n: nat)
    ensures ChunkLines(Lines(heap, chunk, n))
  {
    if n > 0 {
      LinesHoldWords(heap, chunk, n - 1);
      ChunkLinesConcat(Lines(heap, chunk, n - 1), WordLines(heap, chunk, n - 1));
    }
  }

  lemma {:induction false} PositiveSizesIncrease(heap: Heap, j: nat, k: nat)
    requires j <= k && forall i :: j <= i < k ==> heap.sizeAt(Base(heap, i)) > 0
    ensures Base(heap, j) <= Base(heap, k)
    decreases k
  {
    if j < k { PositiveSizesIncrease(heap, j, k - 1); }
  }

  /** In the whole output a word of the k-th chunk has colour k mod 5, and index k where the chunk begins. */
  lemma {:induction false} ViewsAreLabelled(heap: Heap, n: nat, q: nat)
    requires heap.Valid() && Walkable(heap, n) && q < |Views(heap, n)| && Views(heap, n)[q].Word?
    ensures exists k :: 0 <= k < n && LabelledBy(heap, k, Views(heap, n)[q])
  {
    var before, view := Views(heap, n - 1), View(heap, ChunkAt(heap, n - 1));
    if q < |before| {
      ViewsAreLabelled(heap, n - 1, q);
    } else {
      var line := view[q - |before|];
      assert Views(heap, n)[q] == line;
      LinesAreLabelled(heap, ChunkAt(heap, n - 1), WordCount(heap, ChunkAt(heap, n - 1)), q - |before|);
      assert PrintsAt(view, q - |before|, line.addr);
      ViewStaysInside(heap, ChunkAt(heap, n - 1), line.addr);
      assert LabelledBy(heap, n - 1, line);
    }
  }

  predicate LabelledBy(heap: Heap, k: nat, line: Line)
    requires line.Word?
  {
    Covers(heap, k, line.addr) && line.color == k % 5
    && line.header == if line.addr == Base(heap, k) then Some(k) else None
  }

  predicate Covers(heap: Heap, k: nat, addr: int) {
    Base(heap, k) <= addr < Base(heap, k) + heap.sizeAt(Base(heap, k))
  }

  ghost predicate InChunk(heap: Heap, n: nat, addr: int) {
    exists k :: 0 <= k < n && Covers(heap, k, addr)
  }

  /** The printed chunks partition the addresses from the first base to the place where the walk stopped. */
  lemma {:induction false} ChunksPartition(heap: Heap, n: nat, addr: int)
    requires Walkable(heap, n)
    ensures heap.first <= addr < Base(heap, n) <==> InChunk(heap, n, addr)
    ensures forall j, k :: 0 <= j < n && 0 <= k < n && Covers(heap, j, addr) && Covers(heap, k, addr) ==> j == k
  {
    if n > 0 {
      ChunksPartition(heap, n - 1, addr);
      if Covers(heap, n - 1, addr) {
        assert 0 <= n - 1 < n && Covers(heap, n - 1, addr);
        if n > 1 { BasesIncrease(heap, 0, n - 1); }
      }
    }
  }

  lemma {:induction false} ViewStaysInside(heap: Heap, chunk: Chunk, addr: int)
    requires heap.Valid() && Prints(View(heap, chunk), addr)
    ensures chunk.base <= addr < chunk.base + chunk.size
  {
    var n := WordCount(heap, chunk);
    WordCountIsRange(heap, chunk);
    if n > 0 {
      LinesShape(heap, chunk, n);
      var last := LastShown(heap, chunk, n);
      if last < n - 1 { AddressGap(heap, chunk, last, n - 1); }
    }
  }

  lemma {:induction false} ViewsPrintInside(heap: Heap, n: nat, addr: int)
    requires heap.Valid() && Walkable(heap, n) && Prints(Views(heap, n), addr)
    ensures InChunk(heap, n, addr)
  {
    ViewsPrint(heap, n, addr);
    if Prints(View(heap, ChunkAt(heap, n - 1)), addr) {
      ViewStaysInside(heap, ChunkAt(heap, n - 1), addr);
      assert Covers(heap, n - 1, addr);
    } else {
      ViewsPrintInside(heap, n - 1, addr);
    }
  }

  /** Every word of every printed chunk can be read back from the output of the whole walk. */
  lemma {:induction false} HeapViewIsLossless(heap: Heap, n: nat, k: nat, i: nat)
    requires heap.Valid() && Walkable(heap, n) && k < n && i < WordCount(heap, ChunkAt(heap, k))
    ensures var addr := Address(heap, ChunkAt(heap, k), i);
            Shown(Views(heap, n), addr) == heap.wordAt(addr)
    decreases n
  {
    if k == n - 1 {
      LastChunkIsRead(heap, k, i);
    } else {
      HeapViewIsLossless(heap, n - 1, k, i);
      WordIsInside(heap, ChunkAt(heap, k), i);
      LaterChunkKeepsShown(heap, n - 1, k, Address(heap, ChunkAt(heap, k), i));
    }
  }

  lemma LastChunkIsRead(heap: Heap, k: nat, i: nat)
    requires heap.Valid() && Walkable(heap, k + 1) && i < WordCount(heap, ChunkAt(heap, k))
    ensures var addr := Address(heap, ChunkAt(heap, k), i);
            Shown(Views(heap, k + 1), addr) == heap.wordAt(addr)
  {
    var chunk := ChunkAt(heap, k);
    var addr := Address(heap, chunk, i);
    WordIsInside(heap, chunk, i);
    LinesPrint(heap, chunk, WordCount(heap, chunk), i);
    ViewsShow(heap, k, addr);
    if !Prints(View(heap, chunk), addr) { LeftOutIsZero(heap, k + 1, addr); }
  }

  lemma LaterChunkKeepsShown(heap: Heap, n: nat, k: nat, addr: int)
    requires heap.Valid() && Walkable(heap, n + 1) && k < n && Covers(heap, k, addr)
    ensures Shown(Views(heap, n + 1), addr) == Shown(Views(heap, n), addr)
  {
    NotPrintedLater(heap, n + 1, k, addr);
    ViewsShow(heap, n, addr);
  }

  lemma ViewsShow(heap: Heap, n: nat, addr: int)
    requires heap.Valid()
    ensures var view := View(heap, ChunkAt(heap, n));
            Shown(Views(heap, n + 1), addr)
            == if Prints(view, addr) then Shown(view, addr) else Shown(Views(heap, n), addr)
  {
    ShownConcat(Views(heap, n), View(heap, ChunkAt(heap, n)), addr);
    assert Views(heap, n + 1) == Views(heap, n) + View(heap, ChunkAt(heap, n));
  }

  lemma LeftOutIsZero(heap: Heap, n: nat, addr: int)
    requires heap.Valid() && Walkable(heap, n) && n > 0 && Covers(heap, n - 1, addr)
    requires !Prints(View(heap, ChunkAt(heap, n - 1)), addr)
    ensures Shown(Views(heap, n - 1), addr) == Shown(View(heap, ChunkAt(heap, n - 1)), addr) == 0
  {
    NotPrintedEarlier(heap, n, addr);
    UnprintedIsZero(Views(heap, n - 1), addr);
    UnprintedIsZero(View(heap, ChunkAt(heap, n - 1)), addr);
  }

  lemma NotPrintedEarlier(heap: Heap, n: nat, addr: int)
    requires heap.Valid() && Walkable(heap, n) && n > 0 && Covers(heap, n - 1, addr)
    ensures !Prints(Views(heap, n - 1), addr)
  {
    if Prints(Views(heap, n - 1), addr) {
      ViewsPrintInside(heap, n - 1, addr);
      ChunksPartition(heap, n, addr);
    }
  }

  lemma NotPrintedLater(heap: Heap, n: nat, k: nat, addr: int)
    requires heap.Valid() && Walkable(heap, n) && k < n - 1 && Covers(heap, k, addr)
    ensures !Prints(View(heap, ChunkAt(heap, n - 1)), addr)
  {
    if Prints(View(heap, ChunkAt(heap, n - 1)), addr) {
      ViewStaysInside(heap, ChunkAt(heap, n - 1), addr);
      ChunksPartition(heap, n, addr);
      assert Covers(heap, n - 1, addr);
    }
  }

  // ---------- the output of the command ----------

  /** The addresses from the first base to that of chunk n are those of the n chunks, each in one of them only. */
  ghost predicate Partitioned(heap: Heap, n: nat) {
    forall addr {:trigger InChunk(heap, n, addr)} ::
      && (heap.first <= addr < Base(heap, n) <==> InChunk(heap, n, addr))
      && forall j, k :: 0 <= j < n && 0 <= k < n && Covers(heap, j, addr) && Covers(heap, k, addr) ==> j == k
  }

  ghost predicate Labelled(heap: Heap, n: nat, line: Line) {
    line.Word? ==> exists k :: 0 <= k < n && LabelledBy(heap, k, line)
  }

  /** The word can be read from the lines, and is left out of them only if it is an inner null of its chunk. */
  ghost predicate Readable(heap: Heap, chunk: Chunk, i: nat, lines: seq<Line>) {
    var addr := Address(heap, chunk, i);
    && Shown(lines, addr) == heap.wordAt(addr)
    && (i == 0 || heap.wordAt(addr) != 0 || addr == chunk.base + chunk.size - heap.ptrsize ==> Prints(lines, addr))
  }

  /** All that the lines say about a heap whose walk ends at chunk n. */
  ghost predicate Describes(heap: Heap, n: nat, lines: seq<Line>)
    requires heap.Valid()
  {
    && Ends(heap, n) && Partitioned(heap, n)
    && lines != [] && lines[|lines| - 1] == LastLine(heap, n)
    && Ordered(lines) && AllLabelled(heap, n, lines) && AllReadable(heap, n, lines)
  }

  ghost predicate AllReadable(heap: Heap, n: nat, lines: seq<Line>)
    requires heap.Valid()
  {
    forall k, i :: 0 <= k < n && 0 <= i < WordCount(heap, ChunkAt(heap, k)) ==>
                     Readable(heap, ChunkAt(heap, k), i, lines)
  }

  ghost predicate AllLabelled(heap: Heap, n: nat, lines: seq<Line>) {
    forall q :: 0 <= q < |lines| ==> Labelled(heap, n, lines[q])
  }

  /** The lines that the command returns hold every word of every chunk, in order, labelled, up to where it stopped. */
  lemma OutputDescribesHeap(heap: Heap, lines: seq<Line>)
    requires heap.Valid() && IsOutput(heap, lines)
    ensures exists n: nat :: Describes(heap, n, lines)
  {
    var n: nat :| OutputAt(heap, n, lines);
    BasesPartition(heap, n);
    ViewsAreOrdered(heap, n);
    AllViewsLabelled(heap, n);
    AllViewsReadable(heap, n);
    LastLineSaysNothing(heap, n, Views(heap, n), LastLine(heap, n));
    assert Describes(heap, n, lines);
  }

  lemma BasesPartition(heap: Heap, n: nat)
    requires Walkable(heap, n)
    ensures Partitioned(heap, n)
  {
    forall addr
      ensures heap.first <= addr < Base(heap, n) <==> InChunk(heap, n, addr)
      ensures forall j, k :: 0 <= j < n && 0 <= k < n && Covers(heap, j, addr) && Covers(heap, k, addr) ==> j == k
    {
      ChunksPartition(heap, n, addr);
    }
  }

  lemma AllViewsLabelled(heap: Heap, n: nat)
    requires heap.Valid() && Walkable(heap, n)
    ensures AllLabelled(heap, n, Views(heap, n))
  {
    var views := Views(heap, n);
    forall q | 0 <= q < |views| ensures Labelled(heap, n, views[q]) {
      if views[q].Word? { ViewsAreLabelled(heap, n, q); }
    }
  }

  lemma AllViewsReadable(heap: Heap, n: nat)
    requires heap.Valid() && Walkable(heap, n)
    ensures AllReadable(heap, n, Views(heap, n))
  {
    forall k: nat, i: nat | k < n && i < WordCount(heap, ChunkAt(heap, k))
      ensures Readable(heap, ChunkAt(heap, k), i, Views(heap, n))
    {
      ViewsAreReadable(heap, n, k, i);
    }
  }

  /** The line of the top chunk, or of the corruption, changes nothing of what the views say. */
  lemma LastLineSaysNothing(heap: Heap, n: nat, views: seq<Line>, last: Line)
    requires heap.Valid() && !last.Word?
    requires Ordered(views) && AllLabelled(heap, n, views) && AllReadable(heap, n, views)
    ensures var lines := views + [last];
            Ordered(lines) && AllLabelled(heap, n, lines) && AllReadable(heap, n, lines)
  {
    forall k: nat, i: nat | k < n && i < WordCount(heap, ChunkAt(heap, k))
      ensures Readable(heap, ChunkAt(heap, k), i, views + [last])
    {
      LastLineShowsNothing(heap, ChunkAt(heap, k), i, views, last);
    }
  }

  lemma ViewsAreReadable(heap: Heap, n: nat, k: nat, i: nat)
    requires heap.Valid() && Walkable(heap, n) && k < n && i < WordCount(heap, ChunkAt(heap, k))
    ensures Readable(heap, ChunkAt(heap, k), i, Views(heap, n))
  {
    HeapViewIsLossless(heap, n, k, i);
    ChunkViewIsLossless(heap, ChunkAt(heap, k), i);
    if Prints(View(heap, ChunkAt(heap, k)), Address(heap, ChunkAt(heap, k), i)) {
      PrintedInViews(heap, n, k, Address(heap, ChunkAt(heap, k), i));
    }
  }

  lemma ViewsPrint(heap: Heap, n: nat, addr: int)
    requires heap.Valid() && n > 0
    ensures Prints(Views(heap, n), addr) <==>
            Prints(Views(heap, n - 1), addr) || Prints(View(heap, ChunkAt(heap, n - 1)), addr)
  {
    PrintsConcat(Views(heap, n - 1), View(heap, ChunkAt(heap, n - 1)), addr);
    assert Views(heap, n) == Views(heap, n - 1) + View(heap, ChunkAt(heap, n - 1));
  }

  lemma {:induction false} PrintedInViews(heap: Heap, n: nat, k: nat, addr: int)
    requires heap.Valid() && k < n && Prints(View(heap, ChunkAt(heap, k)), addr)
    ensures Prints(Views(heap, n), addr)
  {
    if k < n - 1 { PrintedInViews(heap, n - 1, k, addr); }
    ViewsPrint(heap, n, addr);
  }

  lemma LastLineShowsNothing(heap: Heap, chunk: Chunk, i: nat, views: seq<Line>, last: Line)
    requires !last.Word? && Readable(heap, chunk, i, views)
    ensures Readable(heap, chunk, i, views + [last])
  {
    ShownConcat(views, [last], Address(heap, chunk, i));
    PrintsConcat(views, [last], Address(heap, chunk, i));
  }

  lemma {:induction false} ViewsAreOrdered(heap: Heap, n: nat)
    requires heap.Valid() && Walkable(heap, n)
    ensures Ordered(Views(heap, n))
  {
    if n > 0 {
      var before, view := Views(heap, n - 1), View(heap, ChunkAt(heap, n - 1));
      ViewsAreOrdered(heap, n - 1);
      ViewIsOrdered(heap, ChunkAt(heap, n - 1));
      forall q | 0 <= q < |before| && before[q].Word? ensures before[q].addr < Base(heap, n - 1) {
        assert PrintsAt(before, q, before[q].addr);
        ViewsPrintInside(heap, n - 1, before[q].addr);
        ChunksPartition(heap, n - 1, before[q].addr);
      }
      forall r | 0 <= r < |view| && view[r].Word? ensures Base(heap, n - 1) <= view[r].addr {
        assert PrintsAt(view, r, view[r].addr);
        ViewStaysInside(heap, ChunkAt(heap, n - 1), view[r].addr);
      }
      OrderedConcat(before, view, Base(heap, n - 1));
    }
  }

  lemma ViewIsOrdered(heap: Heap, chunk: Chunk)
    requires heap.Valid()
    ensures Ordered(View(heap, chunk))
  {
    if WordCount(heap, chunk) > 0 { LinesShape(heap, chunk, WordCount(heap, chunk)); }
  }

  lemma OrderedConcat(a: seq<Line>, b: seq<Line>, limit: int)
    requires Ordered(a) && Ordered(b)
    requires forall q :: 0 <= q < |a| && a[q].Word? ==> a[q].addr < limit
    requires forall r :: 0 <= r < |b| && b[r].Word? ==> limit <= b[r].addr
    ensures Ordered(a + b)
  {
  }

  /** The walk ends at one chunk only. */
  lemma WalkEndsOnce(heap: Heap, m: nat, n: nat)
    requires Ends(heap, m) && Ends(heap, n)
    ensures m == n
  {
    if m < n { WalkableAt(heap, n, m); }
    if n < m { WalkableAt(heap, m, n); }
  }

  lemma WordIsInside(heap: Heap, chunk: Chunk, i: nat)
    requires heap.Valid() && i < WordCount(heap, chunk)
    ensures chunk.base <= Address(heap, chunk, i) < chunk.base + chunk.size
  {
    var n := WordCount(heap, chunk);
    WordCountIsRange(heap, chunk);
    if i > 0 { AddressGap(heap, chunk, 0, i); }
    if i < n - 1 { AddressGap(heap, chunk, i, n - 1); }
  }

  // ---------- what the command promises ----------

  /** The chunk bases up to where the walk stops: each before is below the top, not empty, and leads to the next. */
  ghost predicate AreBases(heap: Heap, bases: seq<int>) {
    && bases != [] && bases[0] == heap.first
    && (forall k :: 0 <= k < |bases| - 1 ==> LeadsOn(heap, bases, k))
    && (bases[|bases| - 1] >= heap.top || heap.sizeAt(bases[|bases| - 1]) == 0)
  }

  predicate LeadsOn(heap: Heap, bases: seq<int>, k: nat)
    requires k + 1 < |bases|
  {
    bases[k] < heap.top && heap.sizeAt(bases[k]) > 0 && bases[k + 1] == bases[k] + heap.sizeAt(bases[k])
  }

  /** The last line shows the top chunk's two words, or says that the heap is corrupted. */
  predicate EndsAt(heap: Heap, stop: int, lines: seq<Line>) {
    lines != []
    && lines[|lines| - 1] == if stop == heap.top && heap.sizeAt(heap.top) > 0
                             then Top(heap.top, heap.wordAt(heap.top), heap.wordAt(heap.top + heap.ptrsize))
                             else Corrupted
  }

  /** Word i of the chunk can be read from the lines, and is printed unless it is an inner null. */
  ghost predicate ReadsBack(heap: Heap, base: int, i: nat, lines: seq<Line>) {
    var addr := base + i * heap.ptrsize;
    i * heap.ptrsize < heap.sizeAt(base) ==>
      && Shown(lines, addr) == heap.wordAt(addr)
      && (i == 0 || heap.wordAt(addr) != 0 || i * heap.ptrsize == heap.sizeAt(base) - heap.ptrsize ==>
            Prints(lines, addr))
  }

  /** The line shows word i of chunk k: its value, one of five colours, and the index where the chunk begins. */
  predicate ShowsWord(heap: Heap, base: int, k: nat, i: nat, line: Line) {
    && i * heap.ptrsize < heap.sizeAt(base)
    && line == Word(base + i * heap.ptrsize, heap.wordAt(base + i * heap.ptrsize), k % 5,
                    if i == 0 then Some(k) else None)
  }

  ghost predicate ShowsSomeWord(heap: Heap, bases: seq<int>, line: Line) {
    exists k: nat, i: nat :: k < |bases| - 1 && ShowsWord(heap, bases[k], k, i, line)
  }

  /** The output: the words of the chunks passed, in order, markers, and one last line. */
  ghost predicate IsHeapView(heap: Heap, lines: seq<Line>) {
    exists bases: seq<int> :: ViewsChunks(heap, bases, lines)
  }

  ghost predicate ViewsChunks(heap: Heap, bases: seq<int>, lines: seq<Line>) {
    && AreBases(heap, bases) && EndsAt(heap, bases[|bases| - 1], lines) && Ordered(lines)
    && IsJoined(heap, bases, lines[..|lines| - 1])
    && (forall k: nat, i: nat :: k < |bases| - 1 ==> ReadsBack(heap, bases[k], i, lines))
    && (forall q :: 0 <= q < |lines| - 1 ==> lines[q].Marker? || ShowsSomeWord(heap, bases, lines[q]))
  }

  /** The lines are the views of the chunks, one after the other. */
  ghost predicate IsJoined(heap: Heap, bases: seq<int>, lines: seq<Line>)
    requires bases != []
  {
    exists parts: seq<seq<Line>> :: AreViews(heap, bases, parts) && Concatenated(parts) == lines
  }

  ghost predicate AreViews(heap: Heap, bases: seq<int>, parts: seq<seq<Line>>)
    requires bases != []
  {
    && |parts| == |bases| - 1
    && forall k :: 0 <= k < |parts| ==>
                     IsChunkView(heap, Chunk(bases[k], heap.sizeAt(bases[k]), k, k % 5), parts[k])
  }

  lemma {:induction false} ViewsAreJoined(heap: Heap, n: nat) returns (parts: seq<seq<Line>>)
    requires heap.Valid()
    ensures AreViews(heap, Bases(heap, n), parts) && Concatenated(parts) == Views(heap, n)
  {
    if n == 0 {
      parts := [];
    } else {
      var front := ViewsAreJoined(heap, n - 1);
      ViewIsChunkView(heap, ChunkAt(heap, n - 1));
      parts := front + [View(heap, ChunkAt(heap, n - 1))];
      ConcatenatedSnoc(front, View(heap, ChunkAt(heap, n - 1)));
    }
  }

  function Bases(heap: Heap, n: nat): (bases: seq<int>)
    ensures |bases| == n + 1 && forall k :: 0 <= k <= n ==> bases[k] == Base(heap, k)
  {
    if n == 0 then [Base(heap, 0)] else Bases(heap, n - 1) + [Base(heap, n)]
  }

  lemma BasesAreChain(heap: Heap, n: nat)
    requires Ends(heap, n)
    ensures AreBases(heap, Bases(heap, n))
  {
    forall k | 0 <= k < n ensures LeadsOn(heap, Bases(heap, n), k) {
      WalkableAt(heap, n, k);
      assert Base(heap, k + 1) == Base(heap, k) + heap.sizeAt(Base(heap, k));
    }
  }

  lemma IndexInRange(heap: Heap, chunk: Chunk, i: nat)
    requires heap.Valid()
    ensures i < WordCount(heap, chunk) <==> i * heap.ptrsize < chunk.size
  {
    AddressProduct(heap, chunk, i);
    if i < WordCount(heap, chunk) { WordIsInside(heap, chunk, i); }
    if i * heap.ptrsize < chunk.size { InsideRange(heap, chunk, i); }
  }

  lemma ReadableReadsBack(heap: Heap, n: nat, k: nat, i: nat, lines: seq<Line>)
    requires heap.Valid() && k < n && AllReadable(heap, n, lines)
    ensures ReadsBack(heap, Base(heap, k), i, lines)
  {
    var chunk := ChunkAt(heap, k);
    IndexInRange(heap, chunk, i);
    AddressProduct(heap, chunk, i);
    if i < WordCount(heap, chunk) { assert Readable(heap, chunk, i, lines); }
  }

  lemma {:induction false} ViewsShowWords(heap: Heap, n: nat, q: nat)
    requires heap.Valid() && q < |Views(heap, n)| && Views(heap, n)[q].Word?
    ensures ShowsSomeWord(heap, Bases(heap, n), Views(heap, n)[q])
  {
    var k := n - 1;
    var chunk := ChunkAt(heap, k);
    var before, view := Views(heap, k), View(heap, chunk);
    assert Views(heap, n) == before + view;
    if q < |before| {
      ViewsShowWords(heap, k, q);
      var j: nat, i: nat :| j < k && ShowsWord(heap, Bases(heap, k)[j], j, i, before[q]);
      assert ShowsWord(heap, Bases(heap, n)[j], j, i, Views(heap, n)[q]);
    } else {
      assert Views(heap, n)[q] == view[q - |before|];
      var i := WordLineOf(heap, chunk, WordCount(heap, chunk), q - |before|);
      IndexInRange(heap, chunk, i);
      AddressProduct(heap, chunk, i);
      assert ShowsWord(heap, Bases(heap, n)[k], k, i, view[q - |before|]);
    }
  }

  /** Whatever the command returns is the view that is promised. */
  lemma OutputIsHeapView(heap: Heap, lines: seq<Line>)
    requires heap.Valid() && IsOutput(heap, lines)
    ensures IsHeapView(heap, lines)
  {
    OutputDescribesHeap(heap, lines);
    var m: nat :| Describes(heap, m, lines);
    var n: nat :| OutputAt(heap, n, lines);
    WalkEndsOnce(heap, m, n);
    var bases := Bases(heap, n);
    BasesAreChain(heap, n);
    forall k: nat, i: nat | k < n ensures ReadsBack(heap, bases[k], i, lines) {
      ReadableReadsBack(heap, n, k, i, lines);
    }
    ViewsHoldWords(heap, n);
    assert lines[..|lines| - 1] == Views(heap, n);
    var parts := ViewsAreJoined(heap, n);
    forall q | 0 <= q < |lines| - 1 ensures lines[q].Marker? || ShowsSomeWord(heap, bases, lines[q]) {
      assert lines[q] == Views(heap, n)[q];
      if lines[q].Word? { ViewsShowWords(heap, n, q); }
    }
    assert ViewsChunks(heap, bases, lines);
  }
}
