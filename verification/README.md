# Verified models of the gef-extras scripts

gef-extras is a set of plugin scripts for GDB with GEF. Most of them wrap other tools, but nine contain an
algorithm of their own. This project models those nine in Dafny and proves what they promise, for all inputs.
`dafny verify dfyconfig.toml` checks everything.

The debugged process, GEF, `nm` and IDA are parameters: memory is a map or a function, a search is a function from
a pattern and a range to hits, the glibc heap is a function from a chunk base to its size, IDB colours are a map.
What a command prints is a sequence of output values. A Python exception that the caller can provoke is `None` or
an explicit outcome, never a precondition.

| file | models | main results |
|---|---|---|
| `XrefTelescope.dfy` | `xref-telescope` | what a search prints can be read back to the tree of exactly the hits that the memory search returns for the pattern's bytes; a bar or tee stands exactly where a later sibling follows; two-sided geometric bound on the lines; both byte orders denote the number written |
| `Dereference.dfy` | `vereference` main loop | exact loop detection; visited addresses are the iterates, distinct and within the limit; the limit that is enough by pigeonhole, and exactly which limits report a chain through all mapped addresses |
| `HeapChunk.dfy` | `visualize-libc-heap-chunks`, one chunk | nothing is lost by hiding null words; exactly which words and markers are printed, and how many |
| `HeapView.dfy` | `visualize-libc-heap-chunks`, the walk | it ends, its chunks partition the arena, and its output is exactly their views and the top chunk or the corruption |
| `BytearrayTable.dfy` | `bytearray` | the command complements its own printed table, and does so twice to the same table; meaning and exact success condition of the `..` expansion |
| `BinCompare.dfy` | `bincompare` | the reported offset starts the final differing run; the grid reads back to the table; the printed bad characters given to `bytearray` exclude exactly the differing bytes |
| `PrototypeTable.dfy` | libc prototype generator | exact condition under which a prototype gives its arguments back; the read loop ends and stores the last prototype of each name |
| `PrototypeLines.dfy` | the same generator on broken lines | a prototype broken over two lines equals the unbroken one exactly when its first line ends in neither `)` nor `;`; over three lines it never does |
| `PrototypeManual.dfy` | the same generator on a whole manual | reading a manual gives exactly the definitions it lists, the last of each name |
| `PeekPointers.dfy` | `peek-pointers` | for every pointer size, unique mode refines the plain scan exactly when the sections are disjoint; reported and remaining sections are conserved |
| `GotAudit.dfy` | `got-audit` | the two dictionaries stay inverse over every session; verdicts agree with the `nm` runs; which files of a memory map are scanned, how often, and which never again |
| `HighlightSession.dfy` | `ida-rpyc highlight` and `synchronize` | restored colours stay the same throughout a run exactly when every highlighted location is unrecorded or still has its recorded colour; synchronize leaves exactly one highlight |

`HexText.dfy` and `Strings.dfy` hold the hexadecimal formatting and the Python string operations that several
scripts share; `Sequences.dfy` and `Options.dfy` are helpers.

## Where a promise fails

Each of these is proved; the member named gives the failing case or the exact condition under which the promise holds.

- The two byte orders of a search pattern mirror each other only for an even number of digits (`ByteOrdersMirror`).
- A pointer loop that closes exactly at the recursion limit, or behind it, is not reported (`LoopNeedsLimitAbove`);
  for a chain through all mapped addresses that is their number (`PigeonholeIsTight`, `LoopMissedAtTheLimit`).
- A hidden null word need not be followed by a `[...]` marker, because the counter is reset by markers only. A lone
  one has none exactly when one inner null stands between it and the last marker (`UnmarkedIff`, with the case
  `VanishedNull`); a run has one exactly when at least two stand there and its chunk goes on (`MarkerFollowsIff`).
  In a chunk that is no multiple of the pointer size even a run of two can go unmarked at the end (`VanishedRun`).
- The range syntax `..` cannot be reached from the `bytearray` command line: cleaning removes the dots first
  (`ExpansionOfCleanText`). An odd number of digits raises an exception.
- `bincompare` pads a short memory only from one byte past its end; a shorter memory always ends in an index error
  (`Compare`).
- An argument that holds a comma, such as a function pointer, is split (`ArgumentsRoundTripIff`); a prototype with
  more arguments than parameter names raises an exception (`GenerateJson`).
- A prototype that is broken right behind a `)` or a `;` is cut there (`BrokenPrototypeIff`), as the shipped
  `x86_64.json` shows for `glob` and `glob64`, which end in `int (*ERRFUNC` (`GlobIsCut`). Of a prototype over three
  lines the third is always lost (`ThirdLineIsLost`), as the entry `int (*CMP` of `scandir` shows.
- `peek-pointers` in unique mode prints a report too many when sections overlap (`OverlapBreaksUnique`).
- A `got-audit` verdict that consults a file which has not been scanned leaves an empty entry behind, so the file is
  never scanned and every later verdict on it is "not exported" (`ConsultedBeforeScanIsNeverScanned`). It happens
  when the file is consulted while it has no executable mapping (`ConsultedDataHidesText`). A file that exports
  nothing is scanned again for each of its executable mappings (`FileIsScannedIff`). So the error for a symbol that
  the file does not export is right whenever the file had no entry before the scan, and with an entry only if that
  entry is still right about the symbol (`VerdictIsRightIff`).
- Highlighting a location that is already highlighted loses its original colour (`AddKeepsRestoredIff`, with the
  case `HighlightedTwiceIsLost`), and
  `synchronize` leaves a stale highlight when the file has been loaded at another base meanwhile
  (`MovedBaseLeavesHighlightIff`).

Where documentation and code differ, the model follows the code: `docs/commands/bytearray.md` speaks of bytes from
0x01 while the table starts at 0x00; `docs/commands/peekpointers.md` shows a message on unreadable memory while the
code lets the exception through; the shipped `x86_64.json` names the fourth register `$r10` while the generator
writes `$rcx`.

## Model

| member | source | states |
|---|---|---|
| XrefTelescope.ByteOrdersMirror | scripts/xref-telescope.py:27-33 | the little-endian byte list of a hex literal is the reverse of the big-endian one if and only if the number of digits is even |
| XrefTelescope.SearchTextMeansNumber | scripts/xref-telescope.py:27-33 | the escaped text searched for an even-digit literal decodes, in the target's own byte order, to the number that was written |
| XrefTelescope.HitsComeFromSearched | scripts/xref-telescope.py:35-45 | a hit is collected if and only if the search finds it in a readable section other than `[vvar]` |
| XrefTelescope.GrownNode | scripts/xref-telescope.py:48-62 | the i-th tree stands for the i-th hit and holds below it the search for that hit's address at one depth less |
| XrefTelescope.DoInvoke | scripts/xref-telescope.py:21-80 | what the command prints for any pattern and depth, 3 without one: a root line, and below it, read back, a tree for each hit that the memory search returns in the readable sections other than `[vvar]`, in map order, for the pattern itself or the escaped bytes of the number it writes, with the hit's address, path, permission and text, and so on for the address of each hit |
| XrefTelescope.Telescope | scripts/xref-telescope.py:21-62 | the recursive command prints exactly the root line and the drawing of the forest of hits, for any depth and heading |
| XrefTelescope.HitForestIsSearch | scripts/xref-telescope.py:27-62 | that forest is the one of the searches described above, at every level |
| XrefTelescope.DrawingRoundTrip | scripts/xref-telescope.py:48-62 | every forest is recovered from its printed lines by a reader that looks at the columns only |
| XrefTelescope.TranscriptRoundTrip | scripts/xref-telescope.py:21-62 | below its root line, what a search prints gives the tree of its hits back, for every pattern and depth |
| XrefTelescope.ColumnsShowLaterSiblings | scripts/xref-telescope.py:52-62 | in every line and column, a tee or bar is drawn if and only if the node of that column has a later sibling |
| XrefTelescope.TranscriptSize | scripts/xref-telescope.py:24-62 | one root line, first and only there; hit lines lie between the geometric sums of the least and greatest number of hits of a search; nothing for a depth of zero or less |
| Dereference.DereferenceFrom | scripts/v8-dereference.py:184-279 | for every memory, start and limit, 10 for a limit of 0, the loop ends and lists a chain of different mapped addresses, each holding the next, a valid one, until it leaves the mapped memory, meets the limit, repeats an address, cannot be read, or holds a word that is no address; that word is shown as instruction, short, long or whole text, or its low 64 bits, each under its exact condition |
| Dereference.ReportIsChase | scripts/v8-dereference.py:226-277 | the report of every first stop is that list |
| Dereference.OneEntryFits | scripts/v8-dereference.py:249-277 | only one entry fits a word |
| Dereference.ReportIsUnique | scripts/v8-dereference.py:226-279 | that report is the only one: the first stop is unique |
| Dereference.LoopMessageIsExact | scripts/v8-dereference.py:226-230 | the loop message appears if and only if some address below the limit repeats an earlier one along valid pointers |
| Dereference.ReportShape | scripts/v8-dereference.py:226-277 | entries are the successive dereferences in order, pairwise distinct unless a loop is reported or the limit ends the list, also when the chain leaves the mapped memory, and at most limit + 1 of them |
| Dereference.EnoughBudgetIsNeverUsedUp | scripts/v8-dereference.py:226-277 | with a limit above the number of mapped addresses, the chase never ends for lack of budget |
| Dereference.LoopNeedsLimitAbove | scripts/v8-dereference.py:226-229 | a chain that first repeats an address at step n is reported as a loop if and only if the limit is above n, or negative |
| Dereference.PigeonholeIsTight | scripts/v8-dereference.py:226-229 | in every memory, a chain through all mapped addresses that stays among them closes, and is reported if and only if the limit is above their number, or negative |
| Dereference.LoopMissedAtTheLimit | scripts/v8-dereference.py:226-229 | such a chain exists: one address that points to itself, with the limits 1 and 2 |
| HeapChunk.PrintChunk | scripts/visualize_heap.py:178-230 | the loop over one chunk prints the lines of the specification for every chunk size |
| HeapChunk.CounterSinceMarker | scripts/visualize_heap.py:190-200 | the counter is the number of inner null words since the last marker, not since the last run |
| HeapChunk.MarkersFollowHiddenRuns | scripts/visualize_heap.py:188-200 | each marker printed directly follows a hidden run, and a run of two or more words is directly followed by a marker if and only if its chunk goes on behind it |
| HeapChunk.MarkerIsPrinted | scripts/visualize_heap.py:188-200 | the marker of a run is a line of the chunk's view, directly behind the lines of the words up to the run's end |
| HeapChunk.MarkerFollowsIff | scripts/visualize_heap.py:190-200 | a hidden run is followed by a marker if and only if its chunk goes on and at least two inner nulls stand between the last marker and its last word |
| HeapChunk.UnmarkedIff | scripts/visualize_heap.py:190-200 | an inner null is left out without a marker if and only if a shown word follows and exactly one inner null stands between the last marker and it |
| HeapChunk.VanishedNull | scripts/visualize_heap.py:188-230 | it happens: of four words, the inner two null, the third is not printed, and the view has no marker |
| HeapChunk.VanishedRun | scripts/visualize_heap.py:188-230 | in a chunk that ends within its fourth word, the last three null, two words are hidden and the view has no marker |
| HeapChunk.WholeChunksMarkRuns | scripts/visualize_heap.py:188-200 | in a chunk that is a multiple of the pointer size every run of two or more hidden words has its marker |
| HeapChunk.LastWordIsShown | scripts/visualize_heap.py:188-195 | the last word of such a chunk is never hidden |
| HeapChunk.UnmarkedAreSeparated | scripts/visualize_heap.py:190-200 | between two hidden words without a marker there is always a marker |
| HeapChunk.NullAccounting | scripts/visualize_heap.py:178-230 | the inner null words printed number the markers, plus one if an inner null follows the last marker |
| HeapChunk.ChunkViewIsLossless | scripts/visualize_heap.py:188-230 | printed addresses increase, a gap without marker misses at most one word, every word can be read back, and the first, the last whole and every non-null word are printed |
| HeapChunk.LinesAreLabelled | scripts/visualize_heap.py:209-218 | each printed word has its chunk's colour, and exactly the word at the base has the chunk's index |
| HeapChunk.PrintedIff | scripts/visualize_heap.py:188-195 | a word is printed unless it is an inner null and another inner null stands between the last marker and it |
| HeapChunk.MarkedIff | scripts/visualize_heap.py:188-200 | a marker is printed before a word if and only if it is no inner null and three inner nulls or more follow the last marker |
| HeapChunk.ViewIsChunkView | scripts/visualize_heap.py:188-230 | the lines of a chunk are exactly its words at every pointer size below its end, with value, colour and index, left out and marked as these two conditions say |
| HeapView.PrintHeap | scripts/visualize_heap.py:173-234 | for every heap the walk ends, and the output is exactly the views of the chunks from the first base on, below the top and not empty, and one last line: the two words of the top chunk, at its address, if the walk reaches a top that is not empty, else the corruption message |
| HeapView.OutputIsHeapView | scripts/visualize_heap.py:173-234 | the same of every output that the specification allows, and that every word can be read back from it |
| HeapView.WalkSucceedsIff | scripts/visualize_heap.py:129-186 | the top chunk is printed, and not the corruption message, if and only if the top is one of the chunk bases and no chunk up to it is empty |
| HeapView.ChunksPartition | scripts/visualize_heap.py:173-188 | the chunks passed cover the addresses from the first base to where the walk stopped, each exactly once |
| HeapView.ViewsAreLabelled | scripts/visualize_heap.py:204-232 | in the joined views of the first n chunks a word of the k-th chunk has colour k mod 5, and index k at the chunk's base |
| HeapView.HeapViewIsLossless | scripts/visualize_heap.py:173-232 | every word of the first n chunks can be read back from their joined views |
| HeapView.OutputDescribesHeap | scripts/visualize_heap.py:173-234 | what the command prints describes the heap up to where it stopped: the chunks passed partition those addresses, every word of them can be read back and only inner nulls are left out, addresses ascend, colours and indices are right, and the last line is that of the top chunk or of the corruption |
| HeapView.WalkEndsOnce | scripts/visualize_heap.py:173-186 | the walk stops at one chunk only |
| BytearrayTable.Expand | scripts/bytearray.py:55-77 | the expansion loop computes the specified expansion, or fails where Python raises |
| BytearrayTable.InsertBetween | scripts/bytearray.py:66-72 | the inner loop inserts the hex text of the open interval |
| BytearrayTable.ExpansionSucceedsIff | scripts/bytearray.py:58-67 | the expansion succeeds if and only if the length is even and every inner `..` has two hex neighbours |
| BytearrayTable.ExpansionDenotes | scripts/bytearray.py:55-77 | a byte is in the expanded text if and only if it is written literally or lies strictly between the neighbours of an inner `..`, chained ones included |
| BytearrayTable.ExpansionOfCleanText | scripts/bytearray.py:53-77 | on cleaned text of even length the expansion is the identity, otherwise it fails |
| BytearrayTable.ExpansionIsIdempotent | scripts/bytearray.py:55-77 | expanding twice is expanding once |
| BytearrayTable.Kept | scripts/bytearray.py:98-104 | the table holds exactly the bytes that are not excluded, strictly ascending |
| BytearrayTable.DumpTable | scripts/bytearray.py:107-124 | the wrapping loop prints the specified dump for every table |
| BytearrayTable.DumpLineCount | scripts/bytearray.py:112-124 | the dump has one line for each 32 bytes begun, never an empty extra one, and one line for an empty table |
| BytearrayTable.DoInvoke | scripts/bytearray.py:39-168 | the whole command: an exception if and only if the option holds an odd number of hex digits of either case, else exactly the bytes that no pair of the digits writes, ascending, and their dump in quoted lines of 32 escapes of two lower-case digits |
| BytearrayTable.DumpIsLines | scripts/bytearray.py:107-124 | the dump is made of such lines, the last one of what remains |
| BytearrayTable.BetweenAscends | scripts/bytearray.py:66-72 | the bytes inserted for a range are all those between its ends, ascending |
| HexText.DigitsAreWritten | scripts/bytearray.py:161-168 | the hex digits and their values are those of the lower-case and the upper-case alphabet |
| BytearrayTable.CleanDump | scripts/bytearray.py:107-168 | cleaning a printed table gives its digits back, across line ends, quotes and escapes |
| BytearrayTable.ComplementInvolution | scripts/bytearray.py:53-168 | run on its own dump the command lists exactly the bytes excluded before, ascending without repeats, and the third run equals the first |
| BinCompare.Compare | scripts/bincompare.py:76-97 | the loop computes table, bad characters and offset, and fails if and only if the memory is shorter than the file |
| BinCompare.CorruptionIsFinalRun | scripts/bincompare.py:79-96 | the offset is -1 if and only if the last byte matches, and otherwise starts the longest run of differing bytes that reaches the end |
| BinCompare.BadBytesInOrder | scripts/bincompare.py:88-94 | the bad bytes are the file's bytes at exactly the differing offsets, in order |
| BinCompare.PrintGrid | scripts/bincompare.py:103-112 | the nested loops print the specified grid |
| BinCompare.GridRoundTrip | scripts/bincompare.py:103-137 | two rows for each 16 bytes; without the padding the file rows and the memory rows give the two table columns back |
| BinCompare.GridRows | scripts/bincompare.py:103-137 | file and memory rows alternate, have 16 cells, and the file row is captioned with the offset in hex |
| BinCompare.DoInvoke | scripts/bincompare.py:46-137 | the whole command: each error by its exact condition, else every cell, caption and source of the grid, the offset from which on all bytes differ up to the end, 0 included, and the text of the differing bytes in order, each absent exactly when there is nothing to report |
| BinCompare.OutcomeIsOutcome | scripts/bincompare.py:58-137 | the specified outcome is that one |
| BinCompare.BadCharactersRoundTrip | scripts/bincompare.py:88-94 | the printed list given to `bytearray -b` excludes exactly the bytes that differed |
| PrototypeTable.NameRoundTrip | scripts/libc_function_args/tables/generator.py:17-20 | a printed prototype gives its name back, whatever its arguments contain |
| PrototypeTable.BeforeLast | scripts/libc_function_args/tables/generator.py:25 | dropping the last part and joining again selects what stands before the last occurrence |
| PrototypeTable.ArgumentsRoundTripIff | scripts/libc_function_args/tables/generator.py:23-28 | it gives its arguments back if and only if there is one and each is trimmed and free of commas; parentheses inside do no harm |
| PrototypeTable.LinesAreTheFile | scripts/libc_function_args/tables/generator.py:87-95 | the lines that are read make up the file, none skipped or read twice |
| PrototypeTable.LinesEndAtNewlines | scripts/libc_function_args/tables/generator.py:88 | every line but the last holds exactly one line end, its last character |
| PrototypeTable.ReadPrototypes | scripts/libc_function_args/tables/generator.py:85-116 | on every file the loop ends at its end, also when the recorded position lags, and stores the prototypes of its lines |
| PrototypeManual.ManualRoundTrip | scripts/libc_function_args/tables/generator.py:85-116 | for any manual of text lines and one-line definitions behind ` -- Function: `, each function gets the arguments of its last definition, and no other name changes |
| PrototypeTable.ParseWithoutList | scripts/libc_function_args/tables/generator.py:17-28 | a line without an argument list has its last word as name, and one empty argument |
| Strings.RemoveJoinsParts | scripts/libc_function_args/tables/generator.py:99 | removing the marker leaves what stands between its occurrences |
| PrototypeTable.LastPrototypeWins | scripts/libc_function_args/tables/generator.py:109-116 | a name keeps its last prototype, and other names are left alone |
| PrototypeLines.BrokenPrototypeIff | scripts/libc_function_args/tables/generator.py:97-107 | a prototype on one line and the same one broken inside its argument list give the same entries if and only if the first line ends in neither `)` nor `;`, whatever the indentation and the semicolons at the end |
| PrototypeLines.BrokenPrototype | scripts/libc_function_args/tables/generator.py:97-107 | the same entries whenever the first line ends in neither, a break before the argument list included |
| PrototypeLines.ThirdLineIsLost | scripts/libc_function_args/tables/generator.py:100-107 | the third line of a prototype has no effect, and its entries always differ from those of the prototype on one line |
| PrototypeLines.GlobIsCut | scripts/libc_function_args/tables/generator.py:97-107 | the manual's `glob`, broken behind `(*ERRFUNC)`, loses the rest of that argument and the last one |
| PrototypeTable.GenerateJson | scripts/libc_function_args/tables/generator.py:31-38 | the table is written if and only if no prototype has more arguments than there are parameter names |
| PrototypeTable.ParameterMapRoundTrip | scripts/libc_function_args/tables/generator.py:35-38 | with distinct parameter names the arguments can be read back from it in order |
| PeekPointers.DoInvoke | scripts/peekpointers.py:28-74 | an error for a start that is no multiple of 4096; else every word from the start on is looked at, one pointer size apart, up to an invalid address, or an exception at a valid one that cannot be read; without unique mode r is reported if and only if r is about one of these words, its value known, with the first section around it; in unique mode each word is told with the first of the sections that the reports before it left; addresses ascend, and the sections left are the initial ones without those reported |
| PeekPointers.PeekIsPeek | scripts/peekpointers.py:52-73 | the specified scan yields that |
| PeekPointers.WalkIsMaximal | scripts/peekpointers.py:52-73 | it reads every word from the start, one pointer size apart, and stops only at an invalid or unreadable address |
| PeekPointers.PlainScanIsComplete | scripts/peekpointers.py:52-71 | the plain scan reports a word if and only if its value is known and inside a section, with the first such section |
| PeekPointers.SectionsAreConserved | scripts/peekpointers.py:56-71 | at every step the reported and the remaining sections are together the initial ones |
| PeekPointers.OverlapBreaksUnique | scripts/peekpointers.py:56-71 | for any two overlapping sections and any pointer size there is a readable page on which unique mode prints two reports where the plain scan has a first report for one section only |
| PeekPointers.UniqueModeRefinesIff | scripts/peekpointers.py:55-71 | for every pointer size, unique mode prints the plain scan's first report for each section, in order, in every memory, if and only if the sections are disjoint |
| GotAudit.NmLineRoundTrip | scripts/got_audit.py:112-116 | a printed `nm` line gives its symbol back without the version, if and only if its kind is one of the seven |
| GotAudit.GotAuditCommand.GetSymbolsFromPath | scripts/got_audit.py:107-119 | the new dictionaries and scan history after one file, the dictionaries still in agreement with the history |
| GotAudit.GotAuditCommand.DoInvoke | scripts/got_audit.py:122-130 | the new state, and exactly which nm runs an invocation adds, in map order: one for each executable section of a file without an entry, unless a section before it gave the file one |
| GotAudit.SectionsScanned | scripts/got_audit.py:125-129 | the specified scan adds these runs |
| GotAudit.GotAuditCommand.BuildLine | scripts/got_audit.py:132-158 | no mapping if and only if no section contains the address, else the file of the first one that does; duplicates are the files whose nm runs list the symbol, in the order in which they first did, if there are two or more and the symbol is not expected; not exported if and only if the file is neither `[vdso]` nor the entry's own and no run on it lists the symbol; such a file, and no other, is left with an entry |
| GotAudit.JudgeIsVerdict | scripts/got_audit.py:132-158 | the specified verdict is that one in every state that agrees with its history |
| GotAudit.ParseLineIs | scripts/got_audit.py:111-116 | a line exports a symbol if and only if it has three words, its kind is one of the seven letters, and the third word is the symbol and perhaps a version behind it |
| Strings.WordsAreUnique | scripts/got_audit.py:112 | there is one way to cut a line into words, the one that splitting finds |
| Strings.WordsAreFound | scripts/got_audit.py:112 | splitting cuts a line into words with white space around them |
| Strings.WhiteSpace | scripts/got_audit.py:112 | white space is the 29 characters that Python counts as such |
| GotAudit.LookupIsFirst | scripts/got_audit.py:135-139 | the verdict is about the first section that contains the address |
| GotAudit.ReachableIsConsistent | scripts/got_audit.py:107-158 | in every reachable state both dictionaries hold exactly the relation that the `nm` runs listed, without repeated files |
| GotAudit.VerdictsAgreeWithScans | scripts/got_audit.py:132-158 | a duplicate is reported if and only if two distinct files exported an unexpected symbol, with exactly those files, and "not exported" if and only if no run on the consulted file listed it |
| GotAudit.VerdictsAreIndependent | scripts/got_audit.py:145-153 | however many entries are asked about, no verdict changes until the next scan |
| GotAudit.KnownFilesAreFrozen | scripts/got_audit.py:125-153 | a file with an entry is never scanned again, and its symbols never change |
| GotAudit.ConsultedBeforeScanIsNeverScanned | scripts/got_audit.py:125-154 | a file consulted before its scan is never scanned, and every later verdict that consults it says "not exported" |
| GotAudit.ConsultedDataHidesText | scripts/got_audit.py:122-154 | it happens in the command's own order: a file mapped without execute permission, consulted, and then mapped executable is never scanned, and a symbol it exports is reported as not exported |
| GotAudit.FileIsScannedIff | scripts/got_audit.py:122-130 | for every memory map: a file has an entry afterwards if and only if it had one, or can be read, is mapped executable and exports something; without an entry it is scanned once if it exports something, else once for each executable mapping, and with an entry never |
| GotAudit.NotExportedIff | scripts/got_audit.py:122-154 | in any session, after a scan and any further queries, "not exported" is said of a consulted file if and only if its entry from before the scan lacks the symbol, or, without such an entry, the scan does not find the symbol: the file is not mapped executable, cannot be read or does not export it |
| GotAudit.VerdictIsRightIff | scripts/got_audit.py:122-154 | for a file that is mapped executable the verdict agrees with what the file exports if and only if it had no entry before the scan, or that entry is right about the symbol |
| HighlightSession.Session.HighlightAdd | scripts/ida_interact.py:78-195 | the location, measured from the start of the first mapping if the file is position independent, gets the colour, and its colour before is recorded; without a mapping nothing changes |
| HighlightSession.Session.HighlightDel | scripts/ida_interact.py:78-227 | a recorded location gets its recorded colour back and loses the record, and everything else stays as it is |
| HighlightSession.Session.Synchronize | scripts/ida_interact.py:131-148 | in the file's range the last highlight, if any, is deleted and the program counter highlighted in green instead; outside it nothing changes |
| HighlightSession.ExecuteFollows | scripts/ida_interact.py:131-148 | the specified step does that |
| HighlightSession.InsideIff | scripts/ida_interact.py:135-140 | the program counter is in range if and only if it lies behind the start of some mapping and before the end of some mapping |
| HighlightSession.DelKeepsRestored | scripts/ida_interact.py:220-226 | undoing any highlight keeps the restored colours |
| HighlightSession.AddKeepsRestoredIff | scripts/ida_interact.py:193-194 | adding one keeps them if and only if the location is unrecorded or still has its recorded colour |
| HighlightSession.RunKeepsRestoredIff | scripts/ida_interact.py:131-227 | the restored colours are the initial ones at every point of a run if and only if each location it highlights is at that moment unrecorded or still has its recorded colour |
| HighlightSession.HighlightedTwiceIsLost | scripts/ida_interact.py:186-195 | from a clean session, two highlights of one location leave the first one's colour as the colour to restore, unless it was the original |
| HighlightSession.DeletingAllRestores | scripts/ida_interact.py:214-227 | deleting every recorded location in any order gives them back and records nothing |
| HighlightSession.SynchronizeRuns | scripts/ida_interact.py:131-148 | over every run with one load base only the last location differs from the original, and only its original colour is recorded |
| HighlightSession.MovedBaseLeavesHighlightIff | scripts/ida_interact.py:142-147 | after any run of synchronize, the next one leaves exactly one highlight, with all colours restorable, if and only if there was none yet, or the load base has not moved, or it highlights the same location again and that had the highlight's colour originally |

## Left out

- GDB, GEF, RPyC, IDA and `nm` themselves, terminal colours, argument parsing, configuration and file or network access: services and user interface, which enter as parameters.
- `is_hex`, `lookup_address`, `dereference`, `align_address` and the chunk iterator of GEF: not part of this model; each is a parameter, and the heap model takes the next chunk at base + size and a chunk's data two pointer sizes after its base.
- Text inside a line other than what the properties speak of: hexdumps, symbol names, permissions, dereference hints and ranges in the heap view.
- A memory error while the heap view reads a word: the word function is total.
- The compressed-pointer branch of `dereference_from`: it calls into the debugged process; the model starts at the main loop.
- `collect_known_values` in scripts/visualize_heap.py: its only use is commented out.
- Removal of `\x` and quotes in `hex2bin`: the command calls it on pairs of digits, which it leaves unchanged.
- Forms other than two digits that Python's `int(x, 16)` accepts next to `..`: the expansion is modelled on hex digits and dots.
- Selecting the sections of `peek-pointers` by name, and the section and symbol shown in its message.
- The list of expected duplicate symbols in scripts/got_audit.py: finite data, a parameter of the class.
- Decoding of the manual's bytes as UTF-8: positions count characters, and only their order matters to the loop.
- The order of dictionary keys in the written JSON files.
- scripts/assemble.py, archs/, structs/, os/, the remote session managers and the remaining scripts: wrappers, finite data or single branches that would only add easy members.
