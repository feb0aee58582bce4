# Verified models of WebKit's keyword compiler, checksums, threads, parsers and queues

Each file models one component of the repository and proves what that component
promises. `dafny verify dfyconfig.toml` checks everything.

**Keyword matcher compiler** (`KeywordTrie`, `KeywordNodes`, `KeywordWeights`,
`CompareMacros`, `KeywordMatcher`, `KeywordTheorems`, `KeywordGenerator`).
`KeywordLookupGenerator.py` builds a trie of keywords, merges chains into a radix
tree, sorts siblings by weight and emits a decision tree whose leaves are
word-packed `COMPARE_n` macros. The trie exists twice: as a value with the
functions `Insert`, `Coalesce` and `FillOut`, and as the class `Trie`, updated in
place on the heap, whose methods are proved equal to those functions. The emitted
code is an abstract syntax (`Block`, `Arm`, `Test`, `Guard`) with an interpreter
over byte-addressed memory in which an out-of-range load is a fault. The main
theorem says that the interpreter is a plain table look-up. `Generate` is the whole
script, from the list of keywords to both matchers and `maxTokenLength`; as in the
source, the node that `coalesce` returns for the root is dropped.

**CRC-32 and PNG** (`Bits`, `Crc`, `CrcMachine`, `Png`, `ChecksumReader`). Machine
words are sequences of 32 bits. The byte-at-a-time table loop is proved equal to the
bit-serial reflected CRC of section 3.4 of RFC 2083, that one to 32-bit machine
arithmetic with the source's constants, and every burst error of at most 32 bits is
proved to change the checksum. `printPNG` is proved to insert exactly one tEXt chunk
after IHDR (sections 3.2 and 4.2.7 of RFC 2083), and `read_checksum_from_png.py` to
read the image's checksum back from it.

**Respawning threads** (`Threads`, `ThreadRuns`). `JavaScriptThreading.cpp` as an
interleaved state machine: every thread's program counter, the owner of the mutex, the
stop flag and the set of thread ids, for an arbitrary number n of threads (the source
uses 4). `ThreadRuns` says why a worker ends and which way each thread takes alone.

**Test-file parsers** (`ScanString`, `TestLine`, `TestLineLimits`). The cursor loops of
`testRegExp.cpp` with `sscanf`'s `%d` and `%04x`, proved against printers. The
printer of subjects is any choice of spellings for each character.

**Command lines** (`CommandLine`). The apostrophe tokenizer and `parseInputLine` of
`DumpRenderTreeCommon.cpp`, in a release build and in a debug build, where `next()`
asserts that there is a next piece.

**Dependency closure** (`CygwinPackages`), **bounded work queue** (`WorkQueue`) and
**frame window** (`FpsTimer`): a recursion over a possibly cyclic graph, an array
queue with re-entrant submissions, and a purged list of times of day, each proved
against a mathematical specification: the least closed set, a first-in first-out
sequence, and the history of absolute times.

## Where the code differs from what one would expect

- `coalesce` on the root: the merged node is dropped, so a table whose keywords share
  a first character still has an unmerged root (`KeywordTrie.CoalescedTable`).
- A stretch of more than eight characters of a keyword, without another keyword's end
  or a branch in it, makes the generated header refer to a macro that does not exist;
  `KeywordTheorems.DefinedIffShort` says exactly when, and
  `KeywordTheorems.LongKeywordNeedsMissingMacro` gives such tables.
- The root weight after `fillOut` is the weight of the listed keywords present
  exactly when no listed string that is not a keyword is a place where keywords branch
  (`KeywordWeights.RootWeight`); with "form" and "fort" the root weighs more, because
  "for" is listed (`KeywordWeights.RootCanOutweighItsKeywords`).
- `stopJavaScriptThreads` can miss a thread in two ways: a worker past its check may
  still replace itself after the snapshot (`Threads.SnapshotCanMissAThread`), and a
  worker that has replaced itself may still have to clean up
  (`Threads.SnapshotCanMissALeaver`). All threads are done once those of the snapshot are
  joined exactly when there is neither kind of worker at the snapshot
  (`Threads.JoiningIsEnoughIff`).
- `WorkQueue::queue` asserts room even when the queue is frozen, so 1024 accepted
  items since the last clear make the next submission fail, frozen or not
  (`WorkQueue.RunIsFifo`, with a run in `WorkQueue.FrozenFullQueueFails`).
- An empty piece does not always end a command line: exactly when the pieces before it
  end in a `--timeout` where an option is expected, `parseInputLine` reads on behind it
  (`CommandLine.EmptyPieceEndsTheLineIff`, with a line in
  `CommandLine.TimeoutSkipsAnEmptyPiece`). A debug build fails an assertion on exactly
  the lines whose pieces up to the first empty one, or up to the end of the line, end in
  such a `--timeout` (`CommandLine.AssertionFailsIff`).
- A test line whose subject has no closing quote can be accepted, because -1 becomes the
  position of the opening quote; `TestLineLimits.UnterminatedIsAcceptedIff` says exactly
  when, and `TestLineLimits.UnterminatedCanBeAccepted` gives a line.
- The bytes behind the zero that ends a test line can change its record: exactly when the
  offset or the result runs to the end of the line
  (`TestLineLimits.StaleBytesAreIgnoredIff`, with a line in
  `TestLineLimits.StaleBytesCanMatter`).
- `read_checksum` takes the first `tEXtchecksum` and zero of the file, so it finds the
  comment of `printPNG` exactly when the file's first 33 bytes and the zero behind them
  hold no such key (`ChecksumReader.FoundIff`); a PNG header, whose compression method is
  zero, cannot hold it (`ChecksumReader.ChecksumRoundTrip`).
- A `\u` escape reads its number as `sscanf` does and then skips four bytes in any case:
  spaces, a sign, 0x and fewer digits are accepted (`ScanString.ScanHexReads`).
- `numFrames` counts a frame that is a whole day old as recent
  (`FpsTimer.ADayOldFrameIsCounted`); `FpsTimer.CountIsRightIff` is the exact
  condition under which the count is right.

## Model

| member | source | states |
|---|---|---|
| KeywordTrie.InsertKeepsShape | Source/JavaScriptCore/KeywordLookupGenerator.py:103-109 | inserting keeps one character per node, distinct siblings and no dead ends |
| KeywordTrie.InsertFinds | Source/JavaScriptCore/KeywordLookupGenerator.py:103-109 | after inserting a key exactly that key's token changes, for every string looked up |
| KeywordTrie.BuildMeans | Source/JavaScriptCore/KeywordLookupGenerator.py:214-217 | the trie built from the lines finds a string exactly when it is a keyword, with the token of its last line |
| KeywordTrie.CoalesceAllIsPointwise | Source/JavaScriptCore/KeywordLookupGenerator.py:112-116 | no sibling is lost to a collision in the rebuilt dictionary; each is replaced by its coalesced node, and first characters stay distinct |
| KeywordTrie.CoalesceKeepsShape | Source/JavaScriptCore/KeywordLookupGenerator.py:111-126 | afterwards every node below has a value or at least two children, and siblings have non-empty prefixes with distinct first characters |
| KeywordTrie.CoalesceKeepsTable | Source/JavaScriptCore/KeywordLookupGenerator.py:111-126 | coalescing changes no look-up, neither in the node left behind nor in the node returned |
| KeywordTrie.CoalescedTable | Source/JavaScriptCore/KeywordLookupGenerator.py:215-218 | with the root's returned node dropped, the coalesced trie is a compact radix trie of exactly the keyword table |
| KeywordWeights.OrderSorts | Source/JavaScriptCore/KeywordLookupGenerator.py:137 | the sort is a permutation, descending by weight and stable |
| KeywordWeights.FillOutReorders | Source/JavaScriptCore/KeywordLookupGenerator.py:128-138 | fillOut only reorders siblings, sets every full prefix, and leaves siblings in non-increasing weight order everywhere |
| KeywordWeights.FillOutIsStable | Source/JavaScriptCore/KeywordLookupGenerator.py:128-138 | a node keeps its prefix and value, its own weight is the one listed for its full prefix, and its children are the filled ones by descending weight, those of equal weight in their old order |
| KeywordWeights.ReorderingKeepsTable | Source/JavaScriptCore/KeywordLookupGenerator.py:137 | no reordering of siblings changes a look-up |
| KeywordWeights.FillOutAddsNodes | Source/JavaScriptCore/KeywordLookupGenerator.py:130-138 | a node's weight is the sum of the listed weights of all full prefixes at and below it |
| KeywordNodes.NodeIffStop | Source/JavaScriptCore/KeywordLookupGenerator.py:111-126 | a compact radix trie has a node at a non-empty string if and only if the string is a keyword or two keywords go on differently behind it |
| KeywordNodes.ShortIff | Source/JavaScriptCore/KeywordLookupGenerator.py:111-126 | all its chunks are at most 8 long if and only if no stretch of more than 8 characters of a keyword is without a keyword end or a branch |
| KeywordWeights.RootWeight | Source/JavaScriptCore/KeywordLookupGenerator.py:128-138 | the root weighs at least the listed keywords present, and exactly that if and only if no listed string that is not a keyword is empty or a place where keywords branch |
| KeywordWeights.RootCanOutweighItsKeywords | Source/JavaScriptCore/KeywordLookupGenerator.py:41-60 | with the weights of the source and the keywords form and fort the root weighs more than the listed keywords |
| KeywordWeights.ListedWeightsQualify | Source/JavaScriptCore/KeywordLookupGenerator.py:41-60 | the weights of the source are positive and listed once each, as RootWeight needs |
| KeywordWeights.ListedWeightsTotal | Source/JavaScriptCore/KeywordLookupGenerator.py:40-60 | the eighteen observed weights add up to one |
| CompareMacros.PairPacks | Source/JavaScriptCore/KeywordLookupGenerator.py:248-253 | packing two characters never leaves the 16 or 32 bits of the macro's type |
| CompareMacros.QuadPacks | Source/JavaScriptCore/KeywordLookupGenerator.py:250-255 | packing four characters never leaves the 32 or 64 bits of the macro's type |
| CompareMacros.Compare2IsPlain | Source/JavaScriptCore/KeywordLookupGenerator.py:260-263 | the packed comparison of two characters holds exactly when both are equal |
| CompareMacros.Compare4IsPlain | Source/JavaScriptCore/KeywordLookupGenerator.py:265-279 | the same for four, as one wide load or as two pairs |
| CompareMacros.CompareIsPlain | Source/JavaScriptCore/KeywordLookupGenerator.py:222-302 | for n from 2 to 8, both character types and all three sets of definitions, COMPARE_n holds exactly when the n characters are equal one by one, including the overlapping n = 7, and never faults in range |
| KeywordMatcher.TestIsPrefix | Source/JavaScriptCore/KeywordLookupGenerator.py:153-164 | in a reached state an arm's test, widened to re-read a character or not, holds exactly when the text starts with the child's full prefix |
| KeywordMatcher.RunFinds | Source/JavaScriptCore/KeywordLookupGenerator.py:140-174 | running the code of a subtree finds the shortest keyword below it that the text reads, and falls through when there is none |
| KeywordMatcher.RunArmsFinds | Source/JavaScriptCore/KeywordLookupGenerator.py:152-174 | the chain of tests takes the only arm that can lead to a keyword |
| KeywordTheorems.MaxLengthIsLongest | Source/JavaScriptCore/KeywordLookupGenerator.py:176-182 | maxLength of the final trie is the length of the longest keyword, and 0 for no keywords |
| KeywordTheorems.DefinedIffShort | Source/JavaScriptCore/KeywordLookupGenerator.py:158-164 | the emitted code uses only defined macros if and only if no stretch of more than 8 characters of a keyword is without a keyword end or a branch |
| KeywordTheorems.LongKeywordNeedsMissingMacro | Source/JavaScriptCore/KeywordLookupGenerator.py:158-164 | any table of a single keyword longer than 8 makes the code use a macro that is not defined |
| KeywordTheorems.ThreesAreWidened | Source/JavaScriptCore/KeywordLookupGenerator.py:153-164 | in the code printed for any trie three characters are compared on their own only at the very start of the text |
| KeywordTheorems.FinalTreeMeans | Source/JavaScriptCore/KeywordLookupGenerator.py:215-219 | the trie that is printed is a sorted, compact radix trie of exactly the keyword table |
| KeywordTheorems.CompilerCorrect | Source/JavaScriptCore/KeywordLookupGenerator.py:140-212 | on any text of at least maxTokenLength characters the emitted code returns the token, length and name of the shortest keyword that the text starts with and a non-identifier character follows, and falls through exactly when there is none; keywords need not be identifiers |
| KeywordTheorems.KeywordIffRead | Source/JavaScriptCore/KeywordLookupGenerator.py:140-212 | for keywords of identifier-part characters, k's token is returned if and only if the text reads k followed by a non-identifier character, and IDENT if and only if it reads none |
| KeywordTheorems.LookupIsUnique | Source/JavaScriptCore/KeywordLookupGenerator.py:193-199 | the look-up specification allows one outcome only |
| KeywordTheorems.ReadBound | Source/JavaScriptCore/KeywordLookupGenerator.py:189-195 | with memory cut after maxTokenLength characters the code never faults and returns the same, so no load is at or past maxTokenLength |
| KeywordTheorems.SiblingOrderIsHarmless | Source/JavaScriptCore/KeywordLookupGenerator.py:152-171 | any permutation of siblings, at any nodes, of a trie that the code can be run on gives a matcher with the same outcome on every text |
| KeywordGenerator.Trie.Insert | Source/JavaScriptCore/KeywordLookupGenerator.py:103-109 | the in-place insertion leaves the heap trie as the function on values says, touching only its own nodes |
| KeywordGenerator.Trie.Coalesce | Source/JavaScriptCore/KeywordLookupGenerator.py:111-126 | the in-place merge: both what it returns and what it leaves behind |
| KeywordGenerator.Trie.FillOut | Source/JavaScriptCore/KeywordLookupGenerator.py:128-138 | full prefixes, weights and sorted siblings, in place |
| KeywordGenerator.Trie.PrintSubTree | Source/JavaScriptCore/KeywordLookupGenerator.py:140-174 | the printing loop emits the decision tree that the theorems are about |
| KeywordGenerator.Trie.MaxLength | Source/JavaScriptCore/KeywordLookupGenerator.py:176-182 | the loop computes the longest full prefix |
| KeywordGenerator.Generate | Source/JavaScriptCore/KeywordLookupGenerator.py:214-219 | the whole script gives the two correct matchers and maxTokenLength = longest keyword + 1 |
| Crc.Calculator.MakeCrcTable | Tools/DumpRenderTree/CyclicRedundancyCheck.cpp:36-48 | entry i is eight steps of the bit-serial register on i |
| Crc.Calculator.ComputeCrc | Tools/DumpRenderTree/CyclicRedundancyCheck.cpp:50-63 | returns the bit-serial CRC-32 of every buffer, whether or not the static table was computed before; `CrcMachine.ChecksumIs` gives that value in machine arithmetic |
| Crc.PolynomialAsWritten | Tools/DumpRenderTree/CyclicRedundancyCheck.cpp:42 | the negative constant is 0xEDB88320 |
| CrcMachine.OnesAsWritten | Tools/DumpRenderTree/CyclicRedundancyCheck.cpp:59-62 | the start value and the final complement are 0xffffffff |
| CrcMachine.ChecksumIs | Tools/DumpRenderTree/CyclicRedundancyCheck.cpp:36-63 | for every buffer the checksum is what shifting a 32-bit machine word that starts at 0xffffffff, with 0xedb88320 as polynomial and 0xffffffff as complement, gives |
| CrcMachine.KnownChecksums | Tools/DumpRenderTree/CyclicRedundancyCheck.cpp:50-63 | the checksum of one zero byte is 0xd202ef8d, that of four zero bytes 0x2144df1c |
| CrcMachine.ResidueIff | Tools/DumpRenderTree/CyclicRedundancyCheck.cpp:50-63 | a buffer with four bytes behind it has the checksum 0x2144df1c if and only if the four bytes are the buffer's checksum, least significant byte first |
| Crc.TableStepFeeds | Tools/DumpRenderTree/CyclicRedundancyCheck.cpp:61 | one table look-up is feeding eight message bits |
| Crc.StepIsLinear | Tools/DumpRenderTree/CyclicRedundancyCheck.cpp:41-44 | the one-bit step is linear over exclusive or |
| Crc.StepIsInjective | Tools/DumpRenderTree/CyclicRedundancyCheck.cpp:41-44 | the one-bit step loses nothing |
| Crc.Resumes | Tools/DumpRenderTree/CyclicRedundancyCheck.cpp:59-62 | the checksum of a concatenation is resumed from the intermediate register |
| Crc.BurstIsDetected | Tools/DumpRenderTree/CyclicRedundancyCheck.cpp:50-63 | buffers of equal length that differ, and only inside 32 consecutive bits at any bit position, have different checksums |
| Crc.FourByteBurstIsDetected | Tools/DumpRenderTree/CyclicRedundancyCheck.cpp:50-63 | the same for four consecutive bytes |
| Png.AppendIntToVector | Tools/DumpRenderTree/PixelDumpSupport.cpp:79-87 | appends four bytes, most significant first |
| Png.BigEndianIsNumber | Tools/DumpRenderTree/PixelDumpSupport.cpp:83-86 | those four bytes, read as a PNG number, are the number |
| Png.ConvertChecksumToPNGComment | Tools/DumpRenderTree/PixelDumpSupport.cpp:89-105 | appends prefix, checksum and the CRC of what follows the length field |
| Png.PrefixAsWritten | Tools/DumpRenderTree/PixelDumpSupport.cpp:92-93 | the prefix in the source is 17 bytes long: the length 41, "tEXt", "checksum" and a zero, byte by byte |
| Png.ParseOfStream | Tools/DumpRenderTree/PixelDumpSupport.cpp:91 | parsing a printed list of chunks gives the list back |
| Png.StreamOfParse | Tools/DumpRenderTree/PixelDumpSupport.cpp:91 | printing a parsed stream gives the stream back |
| Png.HeaderSplits | Tools/DumpRenderTree/PixelDumpSupport.cpp:107-112 | offset 33 is the end of the IHDR chunk of every stream that starts with a 13-byte one |
| Png.SpliceInserts | Tools/DumpRenderTree/PixelDumpSupport.cpp:122-137 | splicing any chunk in at that offset yields the same chunks in order with it inserted after the first |
| Png.SpliceInsertsComment | Tools/DumpRenderTree/PixelDumpSupport.cpp:89-138 | the output parses to the input's chunks with exactly one comment chunk after IHDR, whose length field is 41 and whose CRC field is the CRC of its type and data |
| Png.WrittenPngParses | Tools/DumpRenderTree/PixelDumpSupport.cpp:114-138 | with room for all of it, what printPNG writes parses to the input's chunks in order with exactly one chunk after IHDR, of type tEXt, whose data are "checksum", a zero and the checksum |
| Png.SendBody | Tools/DumpRenderTree/PixelDumpSupport.cpp:122-137 | the block loop sends every byte of the body once, in order, and a prefix of it when the stream fills up |
| Png.PrintPNG | Tools/DumpRenderTree/PixelDumpSupport.cpp:114-138 | the announced Content-Length is the length of that body, which is what is written when every write is full |
| ChecksumReader.FindIsFirst | Tools/Scripts/webkitpy/common/read_checksum_from_png.py:33-36 | the search yields the first occurrence of the key at or behind a position, and none exactly when there is none |
| ChecksumReader.FirstBehindHeader | Tools/DumpRenderTree/PixelDumpSupport.cpp:92-125 | at or behind offset 33 of what printPNG writes the key "tEXtchecksum" and zero is first found at 37, and the 32 bytes behind it are the checksum |
| ChecksumReader.FoundIff | Tools/Scripts/webkitpy/common/read_checksum_from_png.py:30-38 | the reader stops at the comment printPNG wrote if and only if the first 33 bytes and the zero behind them do not hold the key |
| ChecksumReader.ReadsWhatWasWritten | Tools/Scripts/webkitpy/common/read_checksum_from_png.py:30-39 | then it returns the checksum, even when the stream took no more than the first 82 bytes |
| ChecksumReader.ChecksumRoundTrip | Tools/Scripts/webkitpy/common/read_checksum_from_png.py:30-39 | for every PNG file with compression method zero and every checksum: print, then read, gives the checksum |
| Threads.StepKeepsInv | Tools/DumpRenderTree/JavaScriptThreading.cpp:61-143 | every step of every thread keeps the invariant |
| Threads.SetInvariant | Tools/DumpRenderTree/JavaScriptThreading.cpp:107-143 | at most one thread is in a locked region; a thread removing itself finds its id; the snapshot has n members; whenever the mutex is free after start the set has n members and is exactly the threads that have not respawned |
| Threads.ChildWaitsForRegistration | Tools/DumpRenderTree/JavaScriptThreading.cpp:69-73 | a child that its parent has not registered yet is at its first lock and cannot take it |
| Threads.ShutdownBound | Tools/DumpRenderTree/JavaScriptThreading.cpp:97-113 | once the flag is set at most n more threads are created in any schedule, and none of them respawns |
| Threads.Progress | Tools/DumpRenderTree/JavaScriptThreading.cpp:61-119 | the holder of the mutex can always step, and when it is free every unfinished worker can |
| Threads.FlaggedStepCounts | Tools/DumpRenderTree/JavaScriptThreading.cpp:81-119 | once the flag is set every step uses up part of a finite amount |
| Threads.EveryScheduleEnds | Tools/DumpRenderTree/JavaScriptThreading.cpp:81-143 | once the flag is set every schedule has a bounded length, and where none can go on all workers are done and the snapshot is taken |
| Threads.SpawnsIffPastCheck | Tools/DumpRenderTree/JavaScriptThreading.cpp:97-113 | after the flag is set another thread can still be created if and only if some worker is past its check and has not respawned yet |
| Threads.JoiningIsEnoughIff | Tools/DumpRenderTree/JavaScriptThreading.cpp:138-146 | at the snapshot: in every schedule all threads are done once those of the snapshot are, if and only if no worker is past its check without having respawned and every worker that has respawned is done |
| Threads.FinishOthers | Tools/DumpRenderTree/JavaScriptThreading.cpp:81-119 | from any flagged state some schedule finishes all other threads and never moves a given waiting one |
| Threads.SnapshotCoversAllIff | Tools/DumpRenderTree/JavaScriptThreading.cpp:138-146 | at the snapshot: in every continuation all threads outside the snapshot are done, if and only if no worker is past its check without having respawned and every worker that has respawned is done |
| Threads.SnapshotCanMissALeaver | Tools/DumpRenderTree/JavaScriptThreading.cpp:107-119 | a reachable state in which the snapshot is taken, no further thread can be created, and a worker outside the snapshot has still to clean up, and can be left behind when the others are joined |
| Threads.SnapshotCanMissAThread | Tools/DumpRenderTree/JavaScriptThreading.cpp:138-146 | a reachable state in which the snapshot is taken and a worker still respawns, so not every thread is joined |
| ThreadRuns.EndsOnlyFlagged | Tools/DumpRenderTree/JavaScriptThreading.cpp:97-119 | in every reachable state a worker that cleans up or is done without having replaced itself implies that the stop flag is set |
| ThreadRuns.NWorkersUntilStop | Tools/DumpRenderTree/JavaScriptThreading.cpp:97-129 | after start and until stop sets the flag, whenever the mutex is free exactly n workers are neither done nor replaced, and they are the set |
| ThreadRuns.FirstRound | Tools/DumpRenderTree/JavaScriptThreading.cpp:69-101 | a new thread alone makes its context, its script, evaluates, allocates and reads the flag, one lock after the other, in ten steps |
| ThreadRuns.BackToTheCheck | Tools/DumpRenderTree/JavaScriptThreading.cpp:81-105 | a worker that does not respawn, alone, comes back to reading the flag through evaluating and allocating, in seven steps |
| ThreadRuns.AfterTheCheck | Tools/DumpRenderTree/JavaScriptThreading.cpp:97-119 | a worker that has read a clear flag goes on to the random choice; one that has read a set flag cleans up and is done |
| ThreadRuns.ReplacesItself | Tools/DumpRenderTree/JavaScriptThreading.cpp:103-119 | a worker that respawns, alone, exchanges its id in the set for that of one new thread and then cleans up and is done |
| ThreadRuns.StartAlone | Tools/DumpRenderTree/JavaScriptThreading.cpp:121-129 | start alone creates n threads in front of their first lock and registers them all |
| ThreadRuns.StopAlone | Tools/DumpRenderTree/JavaScriptThreading.cpp:131-143 | stop alone sets the flag, lets go of the mutex, and then copies the set as it is |
| ScanString.ScanInto | Source/JavaScriptCore/testRegExp.cpp:247-311 | for every buffer and terminator the index loop with its escape flag returns the index, or -1, and appends the text of the scan that the round trips below invert |
| ScanString.ScanFindsTerminator | Source/JavaScriptCore/testRegExp.cpp:299-310 | an index returned is that of a terminator, and what was in the builder before stays in front |
| ScanString.FourHexDigits | Source/JavaScriptCore/testRegExp.cpp:286-294 | four hexadecimal digits are read as their number, which fits a UChar |
| ScanString.ScanInvertsSpelling | Source/JavaScriptCore/testRegExp.cpp:247-311 | whichever spelling is chosen for each character - itself, a backslash and a byte with the tabulated meaning, or \u and four hexadecimal digits - scanning up to the terminator returns its index and appends exactly the string |
| ScanString.ScanFails | Source/JavaScriptCore/testRegExp.cpp:247-311 | behind any spelled text, the end of the buffer, a lone backslash, \u with fewer than four bytes left and an unreadable \u each give -1, with the text appended |
| ScanString.ScanHexReads | Source/JavaScriptCore/testRegExp.cpp:289-290 | %04x skips spaces and reads at most four characters: a sign, 0x, and as many hexadecimal digits as there are; with no digit it converts nothing |
| ScanString.UnicodeWraps | Source/JavaScriptCore/testRegExp.cpp:285-294 | whatever number is read behind \u, also a negative one, the character appended is that number modulo 65536, and the scan goes on six bytes further |
| ScanString.EscapeSpells | Source/JavaScriptCore/testRegExp.cpp:254-295 | every 16-bit character has a spelling, so the round trip covers every string |
| ScanString.ScanInvertsEscape | Source/JavaScriptCore/testRegExp.cpp:247-311 | for every string, terminator, surrounding text: scanning the escaped string returns the terminator's index and appends exactly the string |
| TestLine.ParseTestLine | Source/JavaScriptCore/testRegExp.cpp:330-400 | the cursor loops return null exactly when the parser on values rejects the line, and otherwise its record |
| TestLine.ReadVector | Source/JavaScriptCore/testRegExp.cpp:375-397 | the loop appends the pairs up to the closing parenthesis or the end of the line, and fails on an unreadable pair or a missing comma |
| TestLine.ScanIntOfPrint | Source/JavaScriptCore/testRegExp.cpp:346 | every printed integer, also negative, is converted back and the cursor ends behind it |
| TestLine.ScanIntReads | Source/JavaScriptCore/testRegExp.cpp:346 | %d skips spaces and reads a sign and all decimal digits, leading zeros included; with no digit it converts nothing |
| TestLine.PrintedPairsAreRead | Source/JavaScriptCore/testRegExp.cpp:375-397 | the vector loop reads every printed list of pairs back |
| TestLine.PairsThenWhat | Source/JavaScriptCore/testRegExp.cpp:375-397 | behind printed pairs the end of the line rejects, the closing parenthesis accepts, and a comma starts anew |
| TestLine.VectorRejects | Source/JavaScriptCore/testRegExp.cpp:375-397 | a vector is rejected when no separator follows a pair, or a comma and then something else than a pair; a comma before the parenthesis or the end of the line is accepted |
| TestLine.FieldsReject | Source/JavaScriptCore/testRegExp.cpp:359-365 | behind offset and result, anything but the opening parenthesis rejects the line |
| TestLine.HeaderOfSubject | Source/JavaScriptCore/testRegExp.cpp:334-340 | a closed subject is accepted if and only if a comma and a space follow before the end of the line |
| TestLine.PrintedExample | Source/JavaScriptCore/testRegExp.cpp:330-400 | the characters of one printed line, one by one |
| TestLine.ParseInvertsPrint | Source/JavaScriptCore/testRegExp.cpp:330-400 | printing any record with an even-length vector, with any spelling of its subject, and parsing it gives the record back, whatever stale bytes follow the line |
| TestLine.RoundTrip | Source/JavaScriptCore/testRegExp.cpp:330-400 | the same with the standard escapes, for every subject |
| TestLine.ParsedRecordsRoundTrip | Source/JavaScriptCore/testRegExp.cpp:330-400 | every record the parser returns, from any line, has an even-length vector, and printing and parsing it gives it back |
| TestLineLimits.UnterminatedIsAcceptedIff | Source/JavaScriptCore/testRegExp.cpp:334-347 | a line in which the scan finds no closing quote is accepted if and only if its subject starts with a comma and a space and the fields can be read from inside it |
| TestLineLimits.UnterminatedCanBeAccepted | Source/JavaScriptCore/testRegExp.cpp:337-340 | a line with one quote only that is accepted |
| TestLineLimits.VectorAgrees | Source/JavaScriptCore/testRegExp.cpp:375-397 | the pair loop never depends on what is behind the zero that ends the line |
| TestLineLimits.StaleBytesAreIgnoredIff | Source/JavaScriptCore/testRegExp.cpp:344-365 | the bytes behind the zero that ends the line never change the record, if and only if neither offset nor result runs to the end of the line |
| TestLineLimits.StaleBytesCanMatter | Source/JavaScriptCore/testRegExp.cpp:349-357 | a line whose record depends on those bytes |
| CygwinPackages.Downloader.AddPackageAndDependencies | Tools/CygwinDownloader/cygwin-downloader.py:117-125 | the recursion ends on every graph; it adds marks and names together, closes what it adds under known requirements, and adds nothing that some closed set with the package lacks |
| CygwinPackages.Downloader.Select | Tools/CygwinDownloader/cygwin-downloader.py:127-129 | names_to_download is the least closed set containing the packages needed at the start, and needs_download holds exactly on it |
| CygwinPackages.Downloader.Download | Tools/CygwinDownloader/cygwin-downloader.py:131-135 | the needed packages are downloaded once each in the order of the names, numbered from 1 to the announced total |
| CygwinPackages.DownloadAll | Tools/CygwinDownloader/cygwin-downloader.py:113-135 | the whole run: the packages downloaded are the least closed set, once each, and the count ends at its size |
| CygwinPackages.ClosureIsReachability | Tools/CygwinDownloader/cygwin-downloader.py:117-125 | the least closed set is exactly what is reached from the roots through known requirements |
| WorkQueue.RunIsFifo | Tools/DumpRenderTree/WorkQueue.cpp:56-93 | in every run the assertion never fails if and only if no submission comes after 1024 accepted items since the last clear; then the queue is first-in first-out, every submitted item is in exactly one of rejected, dequeued, pending, cleared, and the rejected and dequeued ones are those the run says |
| WorkQueue.FrozenFullQueueFails | Tools/DumpRenderTree/WorkQueue.cpp:56-64 | 1024 accepted items, a freeze and one submission: the assertion fails although the queue would only reject |
| WorkQueue.MixedRunIsFifo | Tools/DumpRenderTree/WorkQueue.cpp:56-108 | every run that mixes queue, dequeue, freeze, clear and processWork, whatever the items do: its events are a trace of the operations, said without running them; no assertion fails if and only if there is room for every submission attempted; up to a failure, first-in first-out since the last clear and each submitted item in exactly one place |
| WorkQueue.DriveAll | Tools/DumpRenderTree/WorkQueue.cpp:56-108 | such a run on the array ends in the state of the value, or fails where it does |
| WorkQueue.ProcessWorkIsARun | Tools/DumpRenderTree/WorkQueue.cpp:95-108 | whatever items submit or freeze while they run, processWork ends, takes items in order, drops none, returns true only with an empty queue, and fails the assertion only on a full array |
| WorkQueue.ProcessIsWork | Tools/DumpRenderTree/WorkQueue.cpp:95-108 | the events of processWork are, item by item in queue order, the dequeue and all actions of the item, none behind an item that starts a load; on a failed assertion the last item stops right before the action that failed; otherwise the queue is empty or the last item started a load |
| WorkQueue.OnlyALoadStopsTheWork | Tools/DumpRenderTree/WorkQueue.cpp:97-107 | of the items invoked, the last one started a load exactly when the result is false, and no other did |
| WorkQueue.Queue.Enqueue | Tools/DumpRenderTree/WorkQueue.cpp:56-67 | the array keeps refining the sequence: the item is last in the queue, or rejected by a frozen one; a full array fails the assertion and changes nothing |
| WorkQueue.Queue.Dequeue | Tools/DumpRenderTree/WorkQueue.cpp:69-77 | returns the oldest pending item, or none |
| WorkQueue.Queue.Count | Tools/DumpRenderTree/WorkQueue.cpp:79-82 | the number of pending items |
| WorkQueue.Queue.Clear | Tools/DumpRenderTree/WorkQueue.cpp:84-93 | every pending item is cleared and its slot is null |
| WorkQueue.Queue.ProcessWork | Tools/DumpRenderTree/WorkQueue.cpp:95-108 | the loop with its re-entrant invocations ends with the outcome and queue of the specification |
| WorkQueue.Queue.Drive | Tools/DumpRenderTree/WorkQueue.cpp:56-93 | any sequence of operations on the array fails the assertion exactly when there is no room, and otherwise ends in the state of the value |
| CommandLine.SplitInvertsJoin | Tools/DumpRenderTree/DumpRenderTreeCommon.cpp:30-40 | splitting pieces joined with apostrophes gives the pieces back |
| CommandLine.JoinInvertsSplit | Tools/DumpRenderTree/DumpRenderTreeCommon.cpp:30-40 | the pieces of a line hold no apostrophe and join to the line |
| CommandLine.CommandTokenizer.Pump | Tools/DumpRenderTree/DumpRenderTreeCommon.cpp:30-40 | the next piece becomes current; at the end of the line, the empty one; a leading apostrophe leaves the tokenizer at the empty first piece |
| CommandLine.CommandTokenizer.Next | Tools/DumpRenderTree/DumpRenderTreeCommon.cpp:42-49 | successive calls yield the pieces of the line split at apostrophes, in order, and then empty ones; in a debug build the assertion fails exactly when the next piece is empty |
| CommandLine.ParseInputLine | Tools/DumpRenderTree/DumpRenderTreeCommon.cpp:62-85 | in both builds the loop over the tokenizer is the parser over the pieces, dying and failing the assertion on the same lines |
| CommandLine.Defaults | Tools/DumpRenderTree/DumpRenderTreeCommon.cpp:62-72 | a path alone is tested with a timeout of 30000 and without pixels; a line without a path, or with an apostrophe in front, is fatal |
| CommandLine.OptionsAsWritten | Tools/DumpRenderTree/DumpRenderTreeCommon.cpp:73-76 | the options are exactly --timeout, -p and --pixel-test, and the separator is the apostrophe |
| CommandLine.AtoiInvertsPrint | Tools/DumpRenderTree/DumpRenderTreeCommon.cpp:75 | every printed integer is read back |
| CommandLine.AtoiReads | Tools/DumpRenderTree/DumpRenderTreeCommon.cpp:75 | a timeout is read as far as it is a number: spaces, a sign, digits, and then anything; without a digit it is 0 |
| CommandLine.ParseInvertsPrint | Tools/DumpRenderTree/DumpRenderTreeCommon.cpp:62-85 | a line made of a path and any list of options parses to the effect of the options in order |
| CommandLine.ParseFront | Tools/DumpRenderTree/DumpRenderTreeCommon.cpp:62-85 | any line, by its pieces up to the first empty one: an argument among them that is no option is fatal, otherwise all options take effect, and only a --timeout at the end fails the assertion or reads on |
| CommandLine.UnknownArgumentDies | Tools/DumpRenderTree/DumpRenderTreeCommon.cpp:71-82 | behind a path and any complete options, with any timeout tokens, an argument that is no option is fatal and an empty piece ends the line, whatever follows |
| CommandLine.DiesIff | Tools/DumpRenderTree/DumpRenderTreeCommon.cpp:66-81 | without an empty piece a line is fatal if and only if it has no path or an argument in an option's place that is no option |
| CommandLine.EmptyPieceEndsTheLineIff | Tools/DumpRenderTree/DumpRenderTreeCommon.cpp:71-82 | for every accepted line: what follows an empty piece behind it never matters if and only if the line does not end in a --timeout in an option's place |
| CommandLine.AssertionFailsIff | Tools/DumpRenderTree/DumpRenderTreeCommon.cpp:42-49 | in a debug build an empty piece always ends the line, the assertion fails if and only if the line before it is accepted and ends in a --timeout in an option's place, and otherwise both builds agree |
| CommandLine.EveryCommandHasALine | Tools/DumpRenderTree/DumpRenderTreeCommon.cpp:62-85 | every command with a non-empty apostrophe-free path, an apostrophe-free hash only for pixel tests, and any timeout is parsed from its printed line |
| CommandLine.TimeoutSkipsAnEmptyPiece | Tools/DumpRenderTree/DumpRenderTreeCommon.cpp:73-75 | a line on which they differ: the path and --timeout alone are accepted with timeout 0, but with an empty piece and x behind them the release build dies and the debug build fails its assertion |
| FpsTimer.TimeOfDayIsRemainder | Tools/QtTestBrowser/fpstimer.cpp:47 | the time of day at an absolute time is its remainder after whole days |
| FpsTimer.ElapsedIsAgeWithoutDays | Tools/QtTestBrowser/fpstimer.cpp:51-53 | the corrected difference of two times of day is the age less whole days, across midnight |
| FpsTimer.KeptFrames | Tools/QtTestBrowser/fpstimer.cpp:77-79 | how many of n frames are kept after any number of purges: between min(n, 8001) and 10000 |
| FpsTimer.CountIsRightIff | Tools/QtTestBrowser/fpstimer.cpp:45-58 | the count is never too small, and right if and only if the newest kept frame older than the span does not look recent without whole days |
| FpsTimer.CountIsRightWithinADay | Tools/QtTestBrowser/fpstimer.cpp:45-58 | when the kept frames span less than a day the count is the smaller of the kept count and the number of all frames no older than the span |
| FpsTimer.ADayOldFrameIsCounted | Tools/QtTestBrowser/fpstimer.cpp:51-55 | a frame exactly a day old is counted within one second |
| FpsTimer.Timer.NumFrames | Tools/QtTestBrowser/fpstimer.cpp:45-58 | the backwards loop counts the trailing frames that look no older than the span; when the kept frames span less than a day that is the smaller of the kept count and the recent frames of the whole history; between min(total, 8001) and 10000 frames are kept |
| FpsTimer.Timer.TimerEvent | Tools/QtTestBrowser/fpstimer.cpp:73-80 | the kept frames stay the last ones of the history; events of other timers are ignored |
| FpsTimer.Timer.Stop | Tools/QtTestBrowser/fpstimer.cpp:65-71 | forgets all frames, unless the timer's identifier is 0 |

## Left out

- Reading the keyword file, redirected output and the literal text of the generated C: the model starts from pairs of keyword and token and ends at an abstract syntax.
- The big-endian packing macros, one of which refers to itself with two arguments.
- Python's iteration order of dictionaries: it is modelled as insertion order, and `KeywordTheorems.SiblingOrderIsHarmless` shows that any other order gives the same matcher.
- KeywordWeights.RootWeight: weights are exact decimals, because floating-point rounding is not what the sort is for.
- KeywordWeights.FillOutAddsNodes: the sums are exact for the same reason.
- KeywordTheorems.CompilerCorrect: needs keywords whose characters fit the buffer's character type and no stretch of more than eight characters without a keyword end or a branch; `KeywordTheorems.DefinedIffShort` shows that the second condition is when the generated header compiles.
- CompareMacros.CompareIsPlain: a character literal stands for its code, so literals from 128 on, which are negative where C's char is signed or have more than one character, are not modelled; keywords are ASCII.
- Png.PrintPNG: the input has at least 33 bytes, as the source assumes without checking; bitmap contexts, MD5 hashing and the text of the header lines are not modelled.
- Threads: joining and clearing after the snapshot, failure of thread creation, a second call of start, and what scripts and garbage collection do under the lock.
- ScanString.ScanInvertsSpelling: `\u` followed by fewer than four hexadecimal digits, by spaces, by a sign or by 0x is not a spelling; `ScanString.ScanHexReads` says what it reads.
- TestLineLimits.UnterminatedIsAcceptedIff: "the fields can be read" is the parser of the fields itself, not a description of the texts it accepts.
- TestLine.ParseTestLine: integers are unbounded, so a conversion that overflows an int is not modelled.
- `parseRegExpLine` and the regular-expression engine: an unterminated pattern's -1 becomes an index there, so nothing about rejected patterns is claimed.
- CommandLine.AtoiInvertsPrint: integers are unbounded, so a timeout that overflows an int is not modelled.
- CygwinPackages: downloading, parsing setup.ini, sorting the names, and Python's recursion limit; the order of the names is an arbitrary permutation.
- WorkQueue.Queue.ProcessWork: what an item does is an arbitrary list of submissions and freezes and a boolean; an item that clears or dequeues while it runs is not modelled.
- WorkQueue.Queue.Enqueue: a failed assertion ends the run; a build without assertions would write past the array, which is not modelled.
- FpsTimer.Timer.NumFrames: the clock does not go back in absolute time, so changes of the system clock or of summer time are not modelled.
- The copies of the checksum, PNG and tokenizer code under Tools/WebKitTestRunner, which repeat the same logic.
- Bindings, launchers, browser windows and message dispatch, which would only add setters and foreign calls.
