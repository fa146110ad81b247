/** The view of one heap chunk in scripts/visualize_heap.py: its words, and the compressor that hides null words. */
module HeapChunk {
  import opened Options
  import opened Sequences

  /** The glibc heap as the command reads it: GEF yields the chunk at `first`, then always the one at base + size. */
  datatype Heap = Heap(first: int, top: int, ptrsize: int, sizeAt: int -> nat, wordAt: int -> int) {
    predicate Valid() {
      ptrsize > 0
    }
  }

  /** A printed line: the words of chunks, the marker for hidden words, the top chunk, and the error message. */
  datatype Line =
    | Word(addr: int, value: int, color: nat, header: Option<nat>)
    | Marker
    | Top(addr: int, value: int, sizeValue: int)
    | Corrupted

  datatype Chunk = Chunk(base: int, size: nat, index: nat, color: nat)

  // ---------- one chunk ----------

  /** The i-th value of range(base, base + size, ptrsize). */
  function Address(heap: Heap, chunk: Chunk, i: nat): int {
    if i == 0 then chunk.base else Address(heap, chunk, i - 1) + heap.ptrsize
  }

  /** A null word that is neither the first nor the last of its chunk. */
  predicate Null(heap: Heap, chunk: Chunk, i: nat) {
    var current := Address(heap, chunk, i);
    heap.wordAt(current) == 0 && current != chunk.base && current != chunk.base + chunk.size - heap.ptrsize
  }

  /** `aggregate_nuls` when word i is reached. */
  function Aggregate(heap: Heap, chunk: Chunk, i: nat): nat {
    if i == 0 then 0
    else
      var before := Aggregate(heap, chunk, i - 1);
      if Null(heap, chunk, i - 1) then before + 1
      else if before > 2 then 0
      else before
  }

  predicate Hidden(heap: Heap, chunk: Chunk, i: nat) {
    Null(heap, chunk, i) && Aggregate(heap, chunk, i) >= 1
  }

  /** A marker is printed directly before word i. */
  predicate Marked(heap: Heap, chunk: Chunk, i: nat) {
    !Null(heap, chunk, i) && Aggregate(heap, chunk, i) > 2
  }

  function WordLine(heap: Heap, chunk: Chunk, i: nat): Line {
    var current := Address(heap, chunk, i);
    Word(current, heap.wordAt(current), chunk.color, if i == 0 then Some(chunk.index) else None)
  }

  function WordLines(heap: Heap, chunk: Chunk, i: nat): seq<Line> {
    if Hidden(heap, chunk, i) then []
    else Shows(Marked(heap, chunk, i), WordLine(heap, chunk, i))
  }

  function Shows(marked: bool, line: Line): seq<Line> {
    (if marked then [Marker] else []) + [line]
  }

  /** The lines of the first n words. */
  function Lines(heap: Heap, chunk: Chunk, n: nat): seq<Line> {
    if n == 0 then [] else Lines(heap, chunk, n - 1) + WordLines(heap, chunk, n - 1)
  }

  /** len(range(0, size, step)) */
  function Steps(size: int, step: int): (n: nat)
    requires step > 0
    decreases size
  {
    if size <= 0 then 0 else 1 + Steps(size - step, step)
  }

  lemma {:induction false} StepsCover(size: int, step: int)
    requires step > 0
    ensures size <= Steps(size, step) * step
    ensures Steps(size, step) > 0 ==> (Steps(size, step) - 1) * step < size
    ensures Steps(size, step) == 0 <==> size <= 0
    decreases size
  {
    if size > 0 {
      StepsCover(size - step, step);
      var n := Steps(size - step, step);
      assert (1 + n) * step == step + n * step && n * step == step + (n - 1) * step;
    }
  }

  lemma WholeSteps(size: int, step: int)
    requires step > 0 && size > 0 && size % step == 0
    ensures Steps(size, step) * step == size
  {
    var n, q := Steps(size, step), size / step;
    StepsCover(size, step);
    assert size == q * step;
    SmallerFactor(n - 1, q, step);
    SmallerFactor(q, n + 1, step);
  }

  lemma SmallerFactor(a: int, b: int, c: int)
    requires c > 0 && a * c < b * c
    ensures a < b
  {
  }

  /** len(range(base, base + size, ptrsize)) */
  function WordCount(heap: Heap, chunk: Chunk): (n: nat)
    requires heap.Valid()
  {
    Steps(chunk.size, heap.ptrsize)
  }

  function View(heap: Heap, chunk: Chunk): seq<Line>
    requires heap.Valid()
  {
    Lines(heap, chunk, WordCount(heap, chunk))
  }

  lemma {:induction false} AddressGap(heap: Heap, chunk: Chunk, i: nat, j: nat)
    requires heap.Valid() && i < j
    ensures var gap := Address(heap, chunk, j) - Address(heap, chunk, i);
            && gap >= heap.ptrsize
            && (j - i == 1 ==> gap == heap.ptrsize)
            && (j - i == 2 ==> gap == 2 * heap.ptrsize)
            && (j - i >= 2 ==> gap >= 2 * heap.ptrsize)
    decreases j
  {
    if i + 1 < j { AddressGap(heap, chunk, i, j - 1); }
  }

  lemma {:induction false} AddressProduct(heap: Heap, chunk: Chunk, i: nat)
    ensures Address(heap, chunk, i) == chunk.base + i * heap.ptrsize
  {
    if i > 0 {
      AddressProduct(heap, chunk, i - 1);
      assert i * heap.ptrsize == (i - 1) * heap.ptrsize + heap.ptrsize;
    }
  }

  lemma WordCountIsRange(heap: Heap, chunk: Chunk)
    requires heap.Valid()
    ensures var n := WordCount(heap, chunk);
            && (n == 0 <==> chunk.size == 0)
            && Address(heap, chunk, n) >= chunk.base + chunk.size
            && (n > 0 ==> Address(heap, chunk, n - 1) < chunk.base + chunk.size)
  {
    var n, p := WordCount(heap, chunk), heap.ptrsize;
    StepsCover(chunk.size, p);
    AddressProduct(heap, chunk, n);
    if n > 0 {
      AddressProduct(heap, chunk, n - 1);
    }
  }

  /** One word's effect on the counter and on the lines. */
  lemma WordStep(heap: Heap, chunk: Chunk, i: nat)
    ensures Aggregate(heap, chunk, i + 1) ==
            if Null(heap, chunk, i) then Aggregate(heap, chunk, i) + 1
            else if Marked(heap, chunk, i) then 0
            else Aggregate(heap, chunk, i)
    ensures Lines(heap, chunk, i + 1) == Lines(heap, chunk, i) + WordLines(heap, chunk, i)
    ensures Address(heap, chunk, i + 1) == Address(heap, chunk, i) + heap.ptrsize
  {
  }

  /** The loop over one chunk. */
  method PrintChunk(heap: Heap, chunk: Chunk) returns (lines: seq<Line>)
    requires heap.Valid()
    ensures lines == View(heap, chunk)
  {
    lines := [];
    var aggregate := 0;
    var current := chunk.base;
    ghost var i: nat := 0;
    while current < chunk.base + chunk.size
      invariant i <= WordCount(heap, chunk)
      invariant current == Address(heap, chunk, i)
      invariant aggregate == Aggregate(heap, chunk, i)
      invariant lines == Lines(heap, chunk, i)
      decreases chunk.base + chunk.size - current
    {
      InsideRange(heap, chunk, i);
      WordStep(heap, chunk, i);
      FirstWord(heap, chunk, i);
      var value := heap.wordAt(current);
      var skip := false;
      if value == 0 {
        if current != chunk.base && current != chunk.base + chunk.size - heap.ptrsize {
          aggregate := aggregate + 1;
          skip := aggregate > 1;
        }
      }
      if !skip {
        if aggregate > 2 {
          lines := lines + [Marker];
          aggregate := 0;
        }
        lines := lines + [Word(current, value, chunk.color, if current == chunk.base then Some(chunk.index) else None)];
      }
      current := current + heap.ptrsize;
      i := i + 1;
    }
    OutsideRange(heap, chunk, i);
  }

  lemma FirstWord(heap: Heap, chunk: Chunk, i: nat)
    requires heap.Valid()
    ensures Address(heap, chunk, i) == chunk.base <==> i == 0
  {
    if i > 0 { AddressGap(heap, chunk, 0, i); }
  }

  lemma InsideRange(heap: Heap, chunk: Chunk, i: nat)
    requires heap.Valid()
    requires Address(heap, chunk, i) < chunk.base + chunk.size
    ensures i < WordCount(heap, chunk)
  {
    var n := WordCount(heap, chunk);
    WordCountIsRange(heap, chunk);
    if n < i { AddressGap(heap, chunk, n, i); }
  }

  lemma OutsideRange(heap: Heap, chunk: Chunk, i: nat)
    requires heap.Valid() && i <= WordCount(heap, chunk)
    requires Address(heap, chunk, i) >= chunk.base + chunk.size
    ensures i == WordCount(heap, chunk)
  {
    var n := WordCount(heap, chunk);
    WordCountIsRange(heap, chunk);
    if i < n && i < n - 1 { AddressGap(heap, chunk, i, n - 1); }
  }

  // ---------- what the compressor hides ----------

  function NullsBetween(heap: Heap, chunk: Chunk, from: nat, to: nat): nat
    decreases to
  {
    if to <= from then 0
    else NullsBetween(heap, chunk, from, to - 1) + if Null(heap, chunk, to - 1) then 1 else 0
  }

  /** The counter is the number of inner nulls since the last marker, not since the last shown word. */
  lemma {:induction false} CounterSinceMarker(heap: Heap, chunk: Chunk, from: nat, i: nat)
    requires from == 0 || (from < i && Marked(heap, chunk, from))
    requires forall k :: from < k < i ==> !Marked(heap, chunk, k)
    ensures Aggregate(heap, chunk, i) == NullsBetween(heap, chunk, from, i)
    decreases i
  {
    if i > 0 {
      WordStep(heap, chunk, i - 1);
      if from < i - 1 {
        assert !Marked(heap, chunk, i - 1);
        CounterSinceMarker(heap, chunk, from, i - 1);
      } else {
        assert NullsBetween(heap, chunk, from, from) == 0;
        assert Aggregate(heap, chunk, 0) == 0;
      }
    }
  }

  /** A counter above two means that the previous word was hidden. */
  lemma {:induction false} CounterAboveTwo(heap: Heap, chunk: Chunk, i: nat)
    requires Aggregate(heap, chunk, i) > 2
    ensures i > 0 && Hidden(heap, chunk, i - 1)
  {
    if i > 0 { WordStep(heap, chunk, i - 1); }
  }

  /** The counter asks for a marker only behind a hidden word, and always behind two of them. */
  lemma CounterAsksForMarker(heap: Heap, chunk: Chunk, i: nat)
    ensures Marked(heap, chunk, i) ==> i > 0 && Hidden(heap, chunk, i - 1)
    ensures i >= 2 && Hidden(heap, chunk, i - 2) && Hidden(heap, chunk, i - 1) && !Hidden(heap, chunk, i)
            ==> Marked(heap, chunk, i)
  {
    if Marked(heap, chunk, i) {
      CounterAboveTwo(heap, chunk, i);
    }
    if i >= 2 && Hidden(heap, chunk, i - 2) && Hidden(heap, chunk, i - 1) {
      WordStep(heap, chunk, i - 2);
      WordStep(heap, chunk, i - 1);
    }
  }

  /** Word i is the last word of a run of hidden words of the chunk. */
  predicate EndsRun(heap: Heap, chunk: Chunk, i: nat)
    requires heap.Valid()
  {
    && i < WordCount(heap, chunk) && Hidden(heap, chunk, i)
    && (i + 1 < WordCount(heap, chunk) ==> !Hidden(heap, chunk, i + 1))
  }

  /** A marker is printed behind word i, before the next word of the chunk. */
  predicate MarkerFollows(heap: Heap, chunk: Chunk, i: nat)
    requires heap.Valid()
  {
    i + 1 < WordCount(heap, chunk) && Marked(heap, chunk, i + 1)
  }

  lemma {:induction false} LinesArePrefix(heap: Heap, chunk: Chunk, i: nat, n: nat)
    requires i <= n
    ensures Lines(heap, chunk, i) <= Lines(heap, chunk, n)
  {
    if i < n {
      LinesArePrefix(heap, chunk, i, n - 1);
      assert Lines(heap, chunk, n) == Lines(heap, chunk, n - 1) + WordLines(heap, chunk, n - 1);
    }
  }

  /** Behind a hidden run the marker is the next line of the view exactly when the predicate says so. */
  lemma MarkerIsPrinted(heap: Heap, chunk: Chunk, i: nat)
    requires heap.Valid() && EndsRun(heap, chunk, i)
    ensures MarkerFollows(heap, chunk, i) <==> Lines(heap, chunk, i + 1) + [Marker] <= View(heap, chunk)
  {
    if i + 1 < WordCount(heap, chunk) {
      NextWordLines(heap, chunk, i + 1);
    } else {
      assert |View(heap, chunk)| == |Lines(heap, chunk, i + 1)|;
    }
  }

  lemma NextWordLines(heap: Heap, chunk: Chunk, i: nat)
    requires heap.Valid() && i < WordCount(heap, chunk) && !Hidden(heap, chunk, i)
    ensures Marked(heap, chunk, i) <==> Lines(heap, chunk, i) + [Marker] <= View(heap, chunk)
  {
    LinesArePrefix(heap, chunk, i + 1, WordCount(heap, chunk));
    WordStep(heap, chunk, i);
    NextLine(Lines(heap, chunk, i), WordLines(heap, chunk, i), View(heap, chunk), Marker);
  }

  lemma NextLine(before: seq<Line>, own: seq<Line>, lines: seq<Line>, line: Line)
    requires own != [] && before + own <= lines
    ensures before + [line] <= lines <==> own[0] == line
  {
    assert lines[|before|] == (before + own)[|before|] == own[0];
    assert lines[..|before|] == (before + own)[..|before|] == before;
    assert lines[..|before| + 1] == before + [lines[|before|]];
    if before + [line] <= lines { assert (before + [line])[|before|] == line; }
  }

  /** Each marker directly follows a hidden run, and every run of two words or more inside its chunk has one. */
  lemma MarkersFollowHiddenRuns(heap: Heap, chunk: Chunk, i: nat)
    requires heap.Valid() && i < WordCount(heap, chunk)
    ensures MarkerFollows(heap, chunk, i) ==> EndsRun(heap, chunk, i)
    ensures EndsRun(heap, chunk, i) && i > 0 && Hidden(heap, chunk, i - 1)
            ==> (MarkerFollows(heap, chunk, i) <==> i + 1 < WordCount(heap, chunk))
  {
    CounterAsksForMarker(heap, chunk, i + 1);
  }

  /** In a chunk of whole words every run of two words or more has its marker. */
  lemma WholeChunksMarkRuns(heap: Heap, chunk: Chunk, i: nat)
    requires heap.Valid() && chunk.size % heap.ptrsize == 0
    requires EndsRun(heap, chunk, i) && i > 0 && Hidden(heap, chunk, i - 1)
    ensures MarkerFollows(heap, chunk, i)
  {
    WordCountIsRange(heap, chunk);
    LastWordIsShown(heap, chunk);
    MarkersFollowHiddenRuns(heap, chunk, i);
  }

  /** The last marker before word i stands before word `from`; without one, `from` is zero. */
  ghost predicate LastMarker(heap: Heap, chunk: Chunk, from: nat, i: nat) {
    && (from == 0 || (from < i && Marked(heap, chunk, from)))
    && forall k :: from < k < i ==> !Marked(heap, chunk, k)
  }

  /**
    * Exactly when a marker is printed for a run of hidden words: the run does not reach the end of the chunk, and at
    * least two inner nulls stand between the last marker and the last word of the run.
    */
  lemma MarkerFollowsIff(heap: Heap, chunk: Chunk, from: nat, i: nat)
    requires heap.Valid() && EndsRun(heap, chunk, i) && LastMarker(heap, chunk, from, i)
    ensures MarkerFollows(heap, chunk, i) <==>
            i + 1 < WordCount(heap, chunk) && NullsBetween(heap, chunk, from, i) >= 2
  {
    CounterSinceMarker(heap, chunk, from, i);
    WordStep(heap, chunk, i);
  }

  /** A hidden word of the chunk that is followed by a shown word without a marker. */
  predicate Unmarked(heap: Heap, chunk: Chunk, i: nat)
    requires heap.Valid()
  {
    i + 1 < WordCount(heap, chunk)
    && Hidden(heap, chunk, i) && !Hidden(heap, chunk, i + 1) && !Marked(heap, chunk, i + 1)
  }

  /** Exactly which inner nulls vanish without a marker: the second since the last one, alone, with a word behind it. */
  lemma UnmarkedIff(heap: Heap, chunk: Chunk, from: nat, i: nat)
    requires heap.Valid() && i + 1 < WordCount(heap, chunk)
    requires Null(heap, chunk, i) && LastMarker(heap, chunk, from, i)
    ensures Unmarked(heap, chunk, i) <==>
            !Null(heap, chunk, i + 1) && NullsBetween(heap, chunk, from, i) == 1
  {
    CounterSinceMarker(heap, chunk, from, i);
    WordStep(heap, chunk, i);
  }

  /** In a chunk of whole words, as all chunks of glibc are, no run of hidden words reaches the end. */
  lemma LastWordIsShown(heap: Heap, chunk: Chunk)
    requires heap.Valid() && chunk.size > 0 && chunk.size % heap.ptrsize == 0
    ensures !Hidden(heap, chunk, WordCount(heap, chunk) - 1)
  {
    var n, p := WordCount(heap, chunk), heap.ptrsize;
    WordCountIsRange(heap, chunk);
    AddressProduct(heap, chunk, n - 1);
    AddressProduct(heap, chunk, n);
    WholeSteps(chunk.size, p);
  }

  lemma {:induction false} CounterKeepsGrowing(heap: Heap, chunk: Chunk, i: nat, j: nat)
    requires i <= j
    requires forall k :: i <= k < j ==> !Marked(heap, chunk, k)
    ensures Aggregate(heap, chunk, j) >= Aggregate(heap, chunk, i)
    decreases j
  {
    if i < j {
      assert !Marked(heap, chunk, j - 1);
      WordStep(heap, chunk, j - 1);
      CounterKeepsGrowing(heap, chunk, i, j - 1);
    }
  }

  /** Between two unmarked hidden words there is always a marker. */
  lemma UnmarkedAreSeparated(heap: Heap, chunk: Chunk, i: nat, j: nat)
    requires heap.Valid() && i < j && Unmarked(heap, chunk, i) && Unmarked(heap, chunk, j)
    ensures exists k :: i < k < j && Marked(heap, chunk, k)
  {
    WordStep(heap, chunk, i);
    WordStep(heap, chunk, j);
    if forall k :: i < k < j ==> !Marked(heap, chunk, k) {
      CounterKeepsGrowing(heap, chunk, i + 1, j);
    }
  }

  /** A chunk of four words, the inner two null: the second of them is left out, and no marker shows it. */
  lemma VanishedNull(heap: Heap, chunk: Chunk)
    requires heap.Valid() && chunk.size == 4 * heap.ptrsize
    requires heap.wordAt(chunk.base + heap.ptrsize) == heap.wordAt(chunk.base + 2 * heap.ptrsize) == 0
    ensures Unmarked(heap, chunk, 2)
    ensures View(heap, chunk)
         == [WordLine(heap, chunk, 0), WordLine(heap, chunk, 1), WordLine(heap, chunk, 3)]
  {
    FourWords(heap, chunk);
    WordStep(heap, chunk, 0);
    WordStep(heap, chunk, 1);
    WordStep(heap, chunk, 2);
    WordStep(heap, chunk, 3);
    assert Lines(heap, chunk, 0) == [] && Aggregate(heap, chunk, 0) == 0 && Address(heap, chunk, 0) == chunk.base;
    assert Lines(heap, chunk, 1) == [WordLine(heap, chunk, 0)];
    assert Lines(heap, chunk, 2) == [WordLine(heap, chunk, 0), WordLine(heap, chunk, 1)];
    assert Lines(heap, chunk, 3) == Lines(heap, chunk, 2);
  }

  /** A chunk that ends within its fourth word: the run of two nulls at its end is hidden without a marker. */
  lemma VanishedRun(heap: Heap, chunk: Chunk)
    requires heap.Valid() && 3 * heap.ptrsize < chunk.size < 4 * heap.ptrsize
    requires heap.wordAt(chunk.base + heap.ptrsize) == heap.wordAt(chunk.base + 2 * heap.ptrsize) == 0
    requires heap.wordAt(chunk.base + 3 * heap.ptrsize) == 0
    ensures EndsRun(heap, chunk, 3) && Hidden(heap, chunk, 2) && !MarkerFollows(heap, chunk, 3)
    ensures View(heap, chunk) == [WordLine(heap, chunk, 0), WordLine(heap, chunk, 1)]
  {
    FourWords(heap, chunk);
    WordStep(heap, chunk, 0);
    WordStep(heap, chunk, 1);
    WordStep(heap, chunk, 2);
    WordStep(heap, chunk, 3);
    assert Lines(heap, chunk, 0) == [] && Aggregate(heap, chunk, 0) == 0 && Address(heap, chunk, 0) == chunk.base;
    assert Lines(heap, chunk, 1) == [WordLine(heap, chunk, 0)];
    assert Lines(heap, chunk, 2) == [WordLine(heap, chunk, 0), WordLine(heap, chunk, 1)];
    assert Lines(heap, chunk, 4) == Lines(heap, chunk, 3) == Lines(heap, chunk, 2);
  }

  lemma FourWords(heap: Heap, chunk: Chunk)
    requires heap.Valid() && 3 * heap.ptrsize < chunk.size <= 4 * heap.ptrsize
    ensures WordCount(heap, chunk) == 4
  {
    var size, p := chunk.size, heap.ptrsize;
    assert Steps(size - 4 * p, p) == 0;
    assert Steps(size - 3 * p, p) == 1 && Steps(size - 2 * p, p) == 2 && Steps(size - p, p) == 3;
  }

  function Markers(lines: seq<Line>): nat {
    if lines == [] then 0
    else Markers(lines[..|lines| - 1]) + if lines[|lines| - 1].Marker? then 1 else 0
  }

  /** The printed inner nulls. */
  function ShownNulls(heap: Heap, chunk: Chunk, lines: seq<Line>): nat {
    if lines == [] then 0
    else
      ShownNulls(heap, chunk, lines[..|lines| - 1]) + if ShowsInnerNull(heap, chunk, lines[|lines| - 1]) then 1 else 0
  }

  predicate ShowsInnerNull(heap: Heap, chunk: Chunk, line: Line) {
    line.Word? && line.value == 0 && line.addr != chunk.base && line.addr != chunk.base + chunk.size - heap.ptrsize
  }

  lemma CountOneMore(heap: Heap, chunk: Chunk, lines: seq<Line>, line: Line)
    ensures Markers(lines + [line]) == Markers(lines) + if line.Marker? then 1 else 0
    ensures ShownNulls(heap, chunk, lines + [line])
         == ShownNulls(heap, chunk, lines) + if ShowsInnerNull(heap, chunk, line) then 1 else 0
  {
    assert (lines + [line])[..|lines|] == lines;
  }

  lemma CountsOfWord(heap: Heap, chunk: Chunk, before: seq<Line>, i: nat)
    ensures var lines := before + WordLines(heap, chunk, i);
            && Markers(lines) == Markers(before) + (if Marked(heap, chunk, i) then 1 else 0)
            && ShownNulls(heap, chunk, lines) == ShownNulls(heap, chunk, before)
                                                 + if Null(heap, chunk, i) && !Hidden(heap, chunk, i) then 1 else 0
  {
    var line := WordLine(heap, chunk, i);
    if Hidden(heap, chunk, i) {
      assert before + [] == before;
    } else if Marked(heap, chunk, i) {
      CountOneMore(heap, chunk, before, Marker);
      CountOneMore(heap, chunk, before + [Marker], line);
      AppendAssociates(before, [Marker], [line]);
    } else {
      CountOneMore(heap, chunk, before, line);
      AppendAssociates(before, [], [line]);
    }
  }

  lemma {:induction false} CountsOfLines(heap: Heap, chunk: Chunk, n: nat)
    ensures ShownNulls(heap, chunk, Lines(heap, chunk, n))
         == Markers(Lines(heap, chunk, n)) + if Aggregate(heap, chunk, n) > 0 then 1 else 0
  {
    if n > 0 {
      var i := n - 1;
      CountsOfLines(heap, chunk, i);
      WordStep(heap, chunk, i);
      var before, own := Lines(heap, chunk, i), WordLines(heap, chunk, i);
      CountsOfWord(heap, chunk, before, i);
      assert Lines(heap, chunk, n) == before + own;
      assert Markers(Lines(heap, chunk, n)) == Markers(before) + (if Marked(heap, chunk, i) then 1 else 0);
    }
  }

  ghost predicate NullAfterLastMarker(heap: Heap, chunk: Chunk, n: nat) {
    exists i: nat :: IsLastNull(heap, chunk, i, n)
  }

  ghost predicate IsLastNull(heap: Heap, chunk: Chunk, i: nat, n: nat) {
    i < n && Null(heap, chunk, i) && forall k :: i < k < n ==> !Marked(heap, chunk, k)
  }

  lemma {:induction false} CounterIsPositive(heap: Heap, chunk: Chunk, n: nat)
    ensures Aggregate(heap, chunk, n) > 0 <==> NullAfterLastMarker(heap, chunk, n)
  {
    if n > 0 {
      CounterIsPositive(heap, chunk, n - 1);
      WordStep(heap, chunk, n - 1);
      NullStep(heap, chunk, n - 1);
    }
  }

  lemma NullStep(heap: Heap, chunk: Chunk, n: nat)
    ensures NullAfterLastMarker(heap, chunk, n + 1) <==>
            Null(heap, chunk, n) || (!Marked(heap, chunk, n) && NullAfterLastMarker(heap, chunk, n))
  {
    if Null(heap, chunk, n) { assert IsLastNull(heap, chunk, n, n + 1); }
    if !Marked(heap, chunk, n) && NullAfterLastMarker(heap, chunk, n) {
      var i: nat :| IsLastNull(heap, chunk, i, n);
      assert IsLastNull(heap, chunk, i, n + 1);
    }
    if !Null(heap, chunk, n) && NullAfterLastMarker(heap, chunk, n + 1) {
      var i: nat :| IsLastNull(heap, chunk, i, n + 1);
      assert IsLastNull(heap, chunk, i, n);
    }
  }

  /** Exact accounting for a whole chunk: one inner null is shown for each marker, and one more for an open run. */
  lemma NullAccounting(heap: Heap, chunk: Chunk)
    requires heap.Valid()
    ensures ShownNulls(heap, chunk, View(heap, chunk))
         == Markers(View(heap, chunk))
            + if NullAfterLastMarker(heap, chunk, WordCount(heap, chunk)) then 1 else 0
  {
    CountsOfLines(heap, chunk, WordCount(heap, chunk));
    CounterIsPositive(heap, chunk, WordCount(heap, chunk));
  }

  // ---------- what the printed lines say ----------

  /** The index of the last shown word among the first n. */
  function LastShown(heap: Heap, chunk: Chunk, n: nat): (i: nat)
    requires n > 0
    ensures i < n && !Hidden(heap, chunk, i)
    ensures forall k :: i < k < n ==> Hidden(heap, chunk, k)
  {
    if !Hidden(heap, chunk, n - 1) then n - 1
    else
      assert n > 1;
      LastShown(heap, chunk, n - 1)
  }

  ghost predicate Ordered(lines: seq<Line>) {
    forall q, r :: 0 <= q < r < |lines| && lines[q].Word? && lines[r].Word? ==> lines[q].addr < lines[r].addr
  }

  /** A marker stands between two words at least two apart; without a marker at most one word is missing. */
  ghost predicate GapsAreHonest(lines: seq<Line>, ptrsize: int) {
    forall q :: 0 <= q < |lines| ==> HonestAt(lines, q, ptrsize)
  }

  predicate HonestAt(lines: seq<Line>, q: nat, ptrsize: int)
    requires q < |lines|
  {
    match lines[q]
    case Word(addr, _, _, _) =>
      q < |lines| - 1 && lines[q + 1].Word? ==> SmallGap(lines[q + 1].addr - addr, ptrsize)
    case Marker =>
      0 < q < |lines| - 1 && lines[q - 1].Word? && lines[q + 1].Word?
      && lines[q + 1].addr - lines[q - 1].addr >= 2 * ptrsize
    case _ => false
  }

  predicate SmallGap(gap: int, ptrsize: int) {
    gap == ptrsize || gap == 2 * ptrsize
  }

  lemma {:induction false} LongRunsAreMarked(heap: Heap, chunk: Chunk, n: nat)
    requires n > 0 && !Hidden(heap, chunk, n)
    ensures Marked(heap, chunk, n) ==> n - LastShown(heap, chunk, n) >= 2
    ensures !Marked(heap, chunk, n) ==> n - LastShown(heap, chunk, n) <= 2
  {
    CounterAsksForMarker(heap, chunk, n);
  }

  /** The shape of the lines of some words from `base` on, the last one shown by `last`. */
  ghost predicate Shape(base: int, lines: seq<Line>, last: Line, ptrsize: int) {
    && lines != [] && lines[|lines| - 1] == last && last.Word?
    && Ordered(lines) && GapsAreHonest(lines, ptrsize)
    && forall q :: 0 <= q < |lines| && lines[q].Word? ==> base <= lines[q].addr <= last.addr
  }

  /** The lines of the first n words end with the last shown word. */
  ghost predicate Shaped(heap: Heap, chunk: Chunk, lines: seq<Line>, n: nat)
    requires n > 0
  {
    Shape(chunk.base, lines, WordLine(heap, chunk, LastShown(heap, chunk, n)), heap.ptrsize)
  }

  lemma ShapeStep(heap: Heap, chunk: Chunk, before: seq<Line>, n: nat)
    requires heap.Valid() && n > 0 && Shaped(heap, chunk, before, n)
    ensures Shaped(heap, chunk, before + WordLines(heap, chunk, n), n + 1)
  {
    if Hidden(heap, chunk, n) {
      assert before + [] == before;
    } else {
      ShownWordGap(heap, chunk, n);
      var last, line := WordLine(heap, chunk, LastShown(heap, chunk, n)), WordLine(heap, chunk, n);
      AppendKeepsShape(chunk.base, before, last, line, Marked(heap, chunk, n), heap.ptrsize);
    }
  }

  lemma {:induction false} LinesShape(heap: Heap, chunk: Chunk, n: nat)
    requires heap.Valid() && n > 0
    ensures Shaped(heap, chunk, Lines(heap, chunk, n), n)
  {
    if n == 1 {
      assert Lines(heap, chunk, 0) == [] && Lines(heap, chunk, 1) == [WordLine(heap, chunk, 0)];
    } else {
      var i := n - 1;
      var before := Lines(heap, chunk, i);
      LinesShape(heap, chunk, i);
      ShapeStep(heap, chunk, before, i);
      assert Lines(heap, chunk, n) == before + WordLines(heap, chunk, i);
    }
  }

  lemma ShownWordGap(heap: Heap, chunk: Chunk, n: nat)
    requires heap.Valid() && n > 0 && !Hidden(heap, chunk, n)
    ensures var gap := Address(heap, chunk, n) - Address(heap, chunk, LastShown(heap, chunk, n));
            HonestGap(gap, Marked(heap, chunk, n), heap.ptrsize)
  {
    LongRunsAreMarked(heap, chunk, n);
    AddressGap(heap, chunk, LastShown(heap, chunk, n), n);
  }

  /** The gap before a printed word, with a marker in it or without. */
  predicate HonestGap(gap: int, marked: bool, ptrsize: int) {
    if marked then gap >= 2 * ptrsize else SmallGap(gap, ptrsize)
  }

  lemma AppendKeepsShape(base: int, before: seq<Line>, last: Line, line: Line, marked: bool, ptrsize: int)
    requires Shape(base, before, last, ptrsize) && line.Word? && ptrsize > 0
    requires HonestGap(line.addr - last.addr, marked, ptrsize)
    ensures Shape(base, before + Shows(marked, line), line, ptrsize)
  {
    AppendKeepsGaps(before, last, line, marked, ptrsize);
    AppendedWords(before, marked, line);
  }

  lemma AppendedWords(before: seq<Line>, marked: bool, line: Line)
    ensures var lines := before + Shows(marked, line);
            forall q :: 0 <= q < |lines| && lines[q].Word? ==>
                          (q < |before| && lines[q] == before[q]) || (q == |lines| - 1 && lines[q] == line)
  {
  }

  lemma AppendKeepsGaps(before: seq<Line>, last: Line, line: Line, marked: bool, ptrsize: int)
    requires before != [] && before[|before| - 1] == last && last.Word? && line.Word?
    requires GapsAreHonest(before, ptrsize) && HonestGap(line.addr - last.addr, marked, ptrsize)
    ensures GapsAreHonest(before + Shows(marked, line), ptrsize)
  {
    var lines := before + Shows(marked, line);
    assert forall q :: 0 <= q < |before| ==> lines[q] == before[q];
    forall q | 0 <= q < |lines| ensures HonestAt(lines, q, ptrsize) {
      assert q < |before| ==> HonestAt(before, q, ptrsize);
    }
  }

  /** The printed value at an address, and zero where nothing is printed. */
  function Shown(lines: seq<Line>, addr: int): int {
    if lines == [] then 0
    else
      var last := lines[|lines| - 1];
      if last.Word? && last.addr == addr then last.value else Shown(lines[..|lines| - 1], addr)
  }

  predicate Prints(lines: seq<Line>, addr: int) {
    exists q :: 0 <= q < |lines| && PrintsAt(lines, q, addr)
  }

  predicate PrintsAt(lines: seq<Line>, q: int, addr: int) {
    0 <= q < |lines| && lines[q].Word? && lines[q].addr == addr
  }

  lemma {:induction false} ShownConcat(a: seq<Line>, b: seq<Line>, addr: int)
    ensures Shown(a + b, addr) == if Prints(b, addr) then Shown(b, addr) else Shown(a, addr)
  {
    if b == [] {
      assert a + b == a;
    } else {
      var front, last := b[..|b| - 1], b[|b| - 1];
      assert (a + b)[..|a + b| - 1] == a + front;
      ShownConcat(a, front, addr);
      if last.Word? && last.addr == addr {
        assert PrintsAt(b, |b| - 1, addr);
      } else {
        SameWithoutLast(b, addr);
      }
    }
  }

  lemma SameWithoutLast(lines: seq<Line>, addr: int)
    requires lines != [] && !PrintsAt(lines, |lines| - 1, addr)
    ensures Prints(lines, addr) <==> Prints(lines[..|lines| - 1], addr)
  {
    var front := lines[..|lines| - 1];
    if q :| PrintsAt(front, q, addr) { assert PrintsAt(lines, q, addr); }
    if q :| PrintsAt(lines, q, addr) { assert PrintsAt(front, q, addr); }
  }

  /** `lines` shows what the first n words demand at the address of word i. */
  ghost predicate Reads(heap: Heap, chunk: Chunk, lines: seq<Line>, n: nat, i: nat) {
    var addr := Address(heap, chunk, i);
    && (Prints(lines, addr) <==> i < n && !Hidden(heap, chunk, i))
    && (i < n ==> Shown(lines, addr) == heap.wordAt(addr))
  }

  lemma ReadStep(heap: Heap, chunk: Chunk, before: seq<Line>, n: nat, i: nat)
    requires heap.Valid() && Reads(heap, chunk, before, n, i)
    ensures Reads(heap, chunk, before + WordLines(heap, chunk, n), n + 1, i)
  {
    var addr, own := Address(heap, chunk, i), WordLines(heap, chunk, n);
    ShownConcat(before, own, addr);
    PrintsConcat(before, own, addr);
    OwnLines(heap, chunk, n, addr);
    SameWord(heap, chunk, i, n);
    if i == n && Hidden(heap, chunk, i) { UnprintedIsZero(before, addr); }
  }

  lemma {:induction false} LinesPrint(heap: Heap, chunk: Chunk, n: nat, i: nat)
    requires heap.Valid()
    ensures Reads(heap, chunk, Lines(heap, chunk, n), n, i)
  {
    if n == 0 {
      NothingRead(heap, chunk, i);
    } else {
      LinesPrint(heap, chunk, n - 1, i);
      ReadNextWord(heap, chunk, n, i);
    }
  }

  lemma NothingRead(heap: Heap, chunk: Chunk, i: nat)
    ensures Reads(heap, chunk, Lines(heap, chunk, 0), 0, i)
  {
    assert Lines(heap, chunk, 0) == [];
  }

  lemma ReadNextWord(heap: Heap, chunk: Chunk, n: nat, i: nat)
    requires heap.Valid() && n > 0 && Reads(heap, chunk, Lines(heap, chunk, n - 1), n - 1, i)
    ensures Reads(heap, chunk, Lines(heap, chunk, n), n, i)
  {
    ReadStep(heap, chunk, Lines(heap, chunk, n - 1), n - 1, i);
    WordStep(heap, chunk, n - 1);
  }

  lemma SameWord(heap: Heap, chunk: Chunk, i: nat, j: nat)
    requires heap.Valid()
    ensures Address(heap, chunk, i) == Address(heap, chunk, j) <==> i == j
  {
    if i < j { AddressGap(heap, chunk, i, j); }
    if j < i { AddressGap(heap, chunk, j, i); }
  }

  lemma OwnLines(heap: Heap, chunk: Chunk, i: nat, addr: int)
    ensures var own := WordLines(heap, chunk, i);
            && (Prints(own, addr) <==> !Hidden(heap, chunk, i) && addr == Address(heap, chunk, i))
            && (Prints(own, addr) ==> Shown(own, addr) == heap.wordAt(addr))
  {
    var own := WordLines(heap, chunk, i);
    if !Hidden(heap, chunk, i) {
      assert own[|own| - 1] == WordLine(heap, chunk, i);
      assert PrintsAt(own, |own| - 1, Address(heap, chunk, i));
    }
  }

  lemma PrintsConcat(a: seq<Line>, b: seq<Line>, addr: int)
    ensures Prints(a + b, addr) <==> Prints(a, addr) || Prints(b, addr)
  {
    if q :| PrintsAt(a, q, addr) { assert PrintsAt(a + b, q, addr); }
    if q :| PrintsAt(b, q, addr) { assert PrintsAt(a + b, |a| + q, addr); }
    if q :| PrintsAt(a + b, q, addr) { assert PrintsAt(a, q, addr) || PrintsAt(b, q - |a|, addr); }
  }

  lemma {:induction false} UnprintedIsZero(lines: seq<Line>, addr: int)
    requires !Prints(lines, addr)
    ensures Shown(lines, addr) == 0
  {
    if lines != [] {
      assert !PrintsAt(lines, |lines| - 1, addr);
      SameWithoutLast(lines, addr);
      UnprintedIsZero(lines[..|lines| - 1], addr);
    }
  }

  /**
    * The view of a chunk loses nothing: addresses increase, gaps are honest, every word can be read back, and a
    * word is left out only when it is an inner null; so the first word, the last whole word and every non-null
    * word are printed.
    */
  lemma ChunkViewIsLossless(heap: Heap, chunk: Chunk, i: nat)
    requires heap.Valid() && i < WordCount(heap, chunk)
    ensures Ordered(View(heap, chunk)) && GapsAreHonest(View(heap, chunk), heap.ptrsize)
    ensures Shown(View(heap, chunk), Address(heap, chunk, i)) == heap.wordAt(Address(heap, chunk, i))
    ensures i == 0 || heap.wordAt(Address(heap, chunk, i)) != 0
            || Address(heap, chunk, i) == chunk.base + chunk.size - heap.ptrsize
            ==> Prints(View(heap, chunk), Address(heap, chunk, i))
  {
    LinesShape(heap, chunk, WordCount(heap, chunk));
    LinesPrint(heap, chunk, WordCount(heap, chunk), i);
  }

  /** Every printed word carries its chunk's colour, and exactly the word at the base carries the chunk's index. */
  lemma {:induction false} LinesAreLabelled(heap: Heap, chunk: Chunk, n: nat, q: nat)
    requires heap.Valid() && q < |Lines(heap, chunk, n)| && Lines(heap, chunk, n)[q].Word?
    ensures var line := Lines(heap, chunk, n)[q];
            line.color == chunk.color && line.header == if line.addr == chunk.base then Some(chunk.index) else None
  {
    var before, own := Lines(heap, chunk, n - 1), WordLines(heap, chunk, n - 1);
    assert Lines(heap, chunk, n) == before + own;
    if q < |before| {
      LinesAreLabelled(heap, chunk, n - 1, q);
    } else {
      assert Lines(heap, chunk, n)[q] == own[q - |before|];
      FirstWord(heap, chunk, n - 1);
    }
  }

  // ---------- exactly what is printed ----------

  /** Word i of the chunk is null, and neither its first nor its last whole word. */
  predicate InnerNull(heap: Heap, chunk: Chunk, i: nat) {
    heap.wordAt(chunk.base + i * heap.ptrsize) == 0 && i > 0 && i * heap.ptrsize != chunk.size - heap.ptrsize
  }

  ghost function InnerNulls(heap: Heap, chunk: Chunk, from: nat, to: nat): set<nat> {
    set i: nat | from <= i < to && InnerNull(heap, chunk, i)
  }

  lemma InnerNullIsNull(heap: Heap, chunk: Chunk, i: nat)
    requires heap.Valid()
    ensures Null(heap, chunk, i) <==> InnerNull(heap, chunk, i)
  {
    AddressProduct(heap, chunk, i);
    FirstWord(heap, chunk, i);
  }

  lemma {:induction false} NullsAreCounted(heap: Heap, chunk: Chunk, from: nat, n: nat)
    requires heap.Valid()
    ensures NullsBetween(heap, chunk, from, n) == |InnerNulls(heap, chunk, from, n)|
    decreases n
  {
    if n <= from {
      assert InnerNulls(heap, chunk, from, n) == {};
    } else {
      NullsAreCounted(heap, chunk, from, n - 1);
      InnerNullIsNull(heap, chunk, n - 1);
      OneMoreNull(heap, chunk, from, n - 1);
    }
  }

  lemma OneMoreNull(heap: Heap, chunk: Chunk, from: nat, n: nat)
    requires from <= n
    ensures |InnerNulls(heap, chunk, from, n + 1)|
         == |InnerNulls(heap, chunk, from, n)| + if InnerNull(heap, chunk, n) then 1 else 0
  {
    var front := InnerNulls(heap, chunk, from, n);
    assert n !in front;
    assert InnerNulls(heap, chunk, from, n + 1) == if InnerNull(heap, chunk, n) then front + {n} else front;
  }

  /** Exactly which words are printed: all but the inner nulls that follow another one without a marker between. */
  lemma PrintedIff(heap: Heap, chunk: Chunk, from: nat, i: nat)
    requires heap.Valid() && i < WordCount(heap, chunk) && LastMarker(heap, chunk, from, i)
    ensures Prints(View(heap, chunk), chunk.base + i * heap.ptrsize) <==>
            !InnerNull(heap, chunk, i) || InnerNulls(heap, chunk, from, i) == {}
  {
    AddressProduct(heap, chunk, i);
    InnerNullIsNull(heap, chunk, i);
    LinesPrint(heap, chunk, WordCount(heap, chunk), i);
    CounterSinceMarker(heap, chunk, from, i);
    NullsAreCounted(heap, chunk, from, i);
  }

  /** Exactly before which words a marker is printed: those at the end of a run, after three inner nulls or more. */
  lemma MarkedIff(heap: Heap, chunk: Chunk, from: nat, i: nat)
    requires heap.Valid() && i < WordCount(heap, chunk) && LastMarker(heap, chunk, from, i)
    ensures Marked(heap, chunk, i) <==> !InnerNull(heap, chunk, i) && |InnerNulls(heap, chunk, from, i)| >= 3
    ensures !Hidden(heap, chunk, i) ==>
              (Marked(heap, chunk, i) <==> Lines(heap, chunk, i) + [Marker] <= View(heap, chunk))
  {
    InnerNullIsNull(heap, chunk, i);
    CounterSinceMarker(heap, chunk, from, i);
    NullsAreCounted(heap, chunk, from, i);
    if !Hidden(heap, chunk, i) { NextWordLines(heap, chunk, i); }
  }

  /** Each word line of a chunk is that of one of its words. */
  lemma {:induction false} WordLineOf(heap: Heap, chunk: Chunk, n: nat, q: nat) returns (i: nat)
    requires q < |Lines(heap, chunk, n)| && Lines(heap, chunk, n)[q].Word?
    ensures i < n && Lines(heap, chunk, n)[q] == WordLine(heap, chunk, i)
  {
    var before, own := Lines(heap, chunk, n - 1), WordLines(heap, chunk, n - 1);
    assert Lines(heap, chunk, n) == before + own;
    if q < |before| {
      i := WordLineOf(heap, chunk, n - 1, q);
    } else {
      i := n - 1;
    }
  }

  // ---------- what the loop over a chunk promises ----------

  /** The last of the marked words before word i, or zero. */
  function LastBefore(marks: set<nat>, i: nat): nat {
    if i == 0 then 0 else if i - 1 in marks then i - 1 else LastBefore(marks, i - 1)
  }

  /** A marker stands before a word that is no inner null, when three inner nulls or more follow the last marker. */
  ghost predicate AreMarks(heap: Heap, chunk: Chunk, marks: set<nat>, n: nat) {
    forall i: nat :: i < n ==> (i in marks <==> NeedsMarker(heap, chunk, marks, i))
  }

  ghost predicate NeedsMarker(heap: Heap, chunk: Chunk, marks: set<nat>, i: nat) {
    !InnerNull(heap, chunk, i) && |InnerNulls(heap, chunk, LastBefore(marks, i), i)| >= 3
  }

  /** A word is shown unless it is an inner null that is not the first one since the last marker. */
  ghost predicate IsShown(heap: Heap, chunk: Chunk, marks: set<nat>, i: nat) {
    !InnerNull(heap, chunk, i) || InnerNulls(heap, chunk, LastBefore(marks, i), i) == {}
  }

  /** The lines of the first n words, by their marks. */
  ghost function Written(heap: Heap, chunk: Chunk, marks: set<nat>, n: nat): seq<Line> {
    if n == 0 then []
    else
      var addr := chunk.base + (n - 1) * heap.ptrsize;
      Written(heap, chunk, marks, n - 1)
      + (if n - 1 in marks then [Marker] else [])
      + (if IsShown(heap, chunk, marks, n - 1)
         then [Word(addr, heap.wordAt(addr), chunk.color, if n == 1 then Some(chunk.index) else None)] else [])
  }

  /** The view of a chunk: its words at every pointer size below its end, with the inner nulls compressed. */
  ghost predicate IsChunkView(heap: Heap, chunk: Chunk, lines: seq<Line>) {
    exists n: nat, marks: set<nat> ::
      && (n > 0 ==> (n - 1) * heap.ptrsize < chunk.size) && chunk.size <= n * heap.ptrsize
      && AreMarks(heap, chunk, marks, n) && lines == Written(heap, chunk, marks, n)
  }

  ghost function MarksOf(heap: Heap, chunk: Chunk, n: nat): (marks: set<nat>)
    ensures forall i: nat :: i in marks <==> i < n && Marked(heap, chunk, i)
  {
    set i: nat | i < n && Marked(heap, chunk, i)
  }

  lemma {:induction false} LastBeforeIsLastMarker(heap: Heap, chunk: Chunk, n: nat, i: nat)
    requires i <= n
    ensures LastMarker(heap, chunk, LastBefore(MarksOf(heap, chunk, n), i), i)
  {
    if i > 0 && i - 1 !in MarksOf(heap, chunk, n) { LastBeforeIsLastMarker(heap, chunk, n, i - 1); }
  }

  lemma {:induction false} LinesAreWritten(heap: Heap, chunk: Chunk, n: nat, i: nat)
    requires heap.Valid() && i <= n <= WordCount(heap, chunk)
    ensures Lines(heap, chunk, i) == Written(heap, chunk, MarksOf(heap, chunk, n), i)
  {
    if i > 0 {
      LinesAreWritten(heap, chunk, n, i - 1);
      NextIsWritten(heap, chunk, n, i - 1);
    }
  }

  lemma NextIsWritten(heap: Heap, chunk: Chunk, n: nat, k: nat)
    requires heap.Valid() && k < n <= WordCount(heap, chunk)
    requires Lines(heap, chunk, k) == Written(heap, chunk, MarksOf(heap, chunk, n), k)
    ensures Lines(heap, chunk, k + 1) == Written(heap, chunk, MarksOf(heap, chunk, n), k + 1)
  {
    var marks := MarksOf(heap, chunk, n);
    LastBeforeIsLastMarker(heap, chunk, n, k);
    HiddenIff(heap, chunk, LastBefore(marks, k), k);
    AddressProduct(heap, chunk, k);
    WordLinesAre(heap, chunk, k, Lines(heap, chunk, k));
    assert IsShown(heap, chunk, marks, k) <==> !Hidden(heap, chunk, k);
  }

  lemma HiddenIff(heap: Heap, chunk: Chunk, from: nat, i: nat)
    requires heap.Valid() && LastMarker(heap, chunk, from, i)
    ensures Hidden(heap, chunk, i) <==> InnerNull(heap, chunk, i) && InnerNulls(heap, chunk, from, i) != {}
  {
    InnerNullIsNull(heap, chunk, i);
    CounterSinceMarker(heap, chunk, from, i);
    NullsAreCounted(heap, chunk, from, i);
  }

  lemma WordLinesAre(heap: Heap, chunk: Chunk, i: nat, before: seq<Line>)
    ensures before + WordLines(heap, chunk, i)
         == before + (if Marked(heap, chunk, i) then [Marker] else [])
            + (if Hidden(heap, chunk, i) then [] else [WordLine(heap, chunk, i)])
  {
  }

  /** The specification of the loop is the view that is promised. */
  lemma ViewIsChunkView(heap: Heap, chunk: Chunk)
    requires heap.Valid()
    ensures IsChunkView(heap, chunk, View(heap, chunk))
  {
    var n := WordCount(heap, chunk);
    var marks := MarksOf(heap, chunk, n);
    forall i: nat | i < n ensures i in marks <==> NeedsMarker(heap, chunk, marks, i) {
      LastBeforeIsLastMarker(heap, chunk, n, i);
      MarkedIff(heap, chunk, LastBefore(marks, i), i);
    }
    LinesAreWritten(heap, chunk, n, n);
    WordCountIsRange(heap, chunk);
    AddressProduct(heap, chunk, n);
    if n > 0 { AddressProduct(heap, chunk, n - 1); }
  }
}
