# Packet inspection: matchers, batching and worker pool

A Dafny model of the packet-inspection program's three multi-pattern matchers, of the buffer and device
memory that feed the GPU matcher, and of the worker pool that runs them.

| file | models |
|---|---|
| Strings, TrieSpec | suffixes; the specification of the automaton: longest suffix in the trie, failure node, merged outputs, naive search |
| Automaton, TrieGrowth, SearchQueue, FailureSearch, CPUInspection | the Aho-Corasick tables in flat arrays: trie loop, the queue of the breadth-first search, failure links and merged outputs, `findNextState`, the scan |
| BitMask | the output sets as the bits of an int |
| WuManber, WMCPUInspection | the Wu-Manber tables and the skipping scan of the CPU matcher |
| FlatTable, WMGPUInspection, WMKernel | the flattened hash table, its builder, and the kernel that matches against it |
| Batching, DeviceLayout, GPUInspection | packet buffering, packing, the single device allocation, and the scanning kernel |
| ThreadPool, PoolSafety | the pool as a transition system with any number of workers and clients, and its invariants over every run |
| PoolHistory | what the steps of a run alone tell: tasks asked for, added and ended, whole calls, and workers left alone |
| Agreement | the matchers against one another |

Characters are numbers 0 to 126, which `Packet` ensures for payloads (src/util/Packet.cpp:70-74). A scan's
matches are recorded as result values; the program computes them and discards or prints them. Condition variables
follow IEEE Std 1003.1-2017, pthread_cond_wait. Ghost parameters carry the trie or pattern list a table stands for.

Some promises of the code are false as it stands. Each has its exact condition, and an input where the condition does not show one:

- The scan equals naive search exactly when the word list does not mix empty and non-empty words
  (`ScanIsNaive`; `EmptyWordMissed` gives the text).
- The automaton's `maxs_` rows hold every state exactly when two words share their first character, and also the row
  read past the last exactly when two words share two characters or two words each start like an earlier one
  (`AllocationFits`); for a single word there is always one row too few (`SingleWordOverrun`).
- The loop bound `ch <= MAXC_` reads past a row. Every entry so read is blank exactly when no word holds a NUL, save
  as second character after the character that starts the first non-empty word (`OverrunExact`); and the search dequeues
  every state exactly once under the same condition (`OnceExactly`). For "a" and "b NUL" it dequeues a state twice
  (`DequeuedTwice`), and for "x NUL", "a" and "b NUL" it merges a wrong output (`WrongMerge`). For the finished links and
  outputs the condition is only proved sufficient; with the bound `ch < MAXC_` none is needed. The builder is proved for both.
- The output sets fit the bits of an int exactly for at most 32 words (`MasksSuffice`): `1 << i` has no bit for word 32.
- The Wu-Manber scan stays inside the shift table on every text exactly when the table covers the hashes of all blocks
  (`CoversExactly`). With 152 rules "aaa" and blocks of two characters it reads past the end in the text "aad"
  (`TableReadPastEnd`); with blocks of one character the built table always covers (`ExcWuManberCore1_1`).
- It also misses no occurrence exactly when, besides, no shift jumps over the end of a pattern inside the pattern alone
  (`SkippingExact`, `CompleteExactly`); for the rules "ab", "ha" and "cc" the match of "ab" in "ab" is lost (`CollisionMisses`).
- The flattened table misses an occurrence exactly when its last block hashes to 0, and reports a pattern that does not
  end there exactly when the text read is a suffix of the pattern and the memory before the text ends with its rest
  (`KernelErrs`; `MissedBlock`, `MissedPair` and `FalseHit` give inputs for the program's own hash).
- The size index of a bucket points at its first entry exactly when its first pattern is not repeated in it, and the
  bucket is read right exactly when the sizes read from there are its own (`BuiltRepresents`); it is misread for any
  pattern listed twice before a longer one that starts with it (`RepeatMisread`).
- The builder writes exactly one size entry per (non-zero hash, pattern) pair into `tbHSizePadHash`, so its M entries
  overflow exactly when there are more than M pairs (`BuildMatchingMachine1_1`): never for patterns of one length
  (`EqualLengthsFit`), but with eleven pairs for M = 6 in `SizeRowsOverrun`.
- Batches fit a thread's size and begin slices over all runs of payloads of at least k bytes exactly when k >= 1
  (`SlicesSuffice`; `SliceOverflow` gives the run).
- The pointers `exec` computes are the builder's exactly when as many threads are registered as the builder was told (`PointersAgree`).
- Destroying the pool runs every added task exactly when the queue is empty at the moment the pool is set to stopped
  and nothing is pushed afterwards (`StopOutcome`; `TaskDropped` gives a run).

## Model

| member | source | states |
|---|---|---|
| `TrieSpec.LongestStep` | src/inspection/CPUinspection.cpp:192-202 | reading one character takes the longest suffix in the trie to the longest suffix of it extended: the rule the goto and failure tables implement |
| `TrieSpec.FailureStep` | src/inspection/CPUinspection.cpp:198-199 | following a failure link does not change where the next character leads |
| `TrieSpec.MergedMeaning` | src/inspection/CPUinspection.cpp:181 | the merged output of a node is exactly the words that are its suffixes, apart from the empty words lost at depth one |
| `Automaton.GotoMeaning` | src/inspection/CPUinspection.cpp:101-128 | a goto entry is -1 (0 at the root) exactly when the extended word is no prefix of any word, else the state of that prefix |
| `Automaton.FindNextState` | src/inspection/CPUinspection.cpp:192-202 | ends in the state of the longest suffix; the links followed are those of the tables, and each costs a character of depth |
| `Automaton.FollowLink` | src/inspection/CPUinspection.cpp:198-199 | a link followed strictly lowers the depth and keeps the target |
| `TrieGrowth.SumLengths` | src/inspection/CPUinspection.cpp:78-83 | `maxs_` is the summed word length |
| `TrieGrowth.TotalLengthConcat` | src/inspection/CPUinspection.cpp:78-83 | and so the length of the words put end to end |
| `TrieGrowth.InsertWord` | src/inspection/CPUinspection.cpp:104-121 | one word keeps states and prefixes one to one, leaves unused rows blank, and marks the word at its own node only |
| `TrieGrowth.BuildTrie` | src/inspection/CPUinspection.cpp:86-121 | the trie of all words, with each node's own words as its output |
| `TrieGrowth.CloseRoot` | src/inspection/CPUinspection.cpp:126-128 | missing root entries become 0 and no other entry changes |
| `TrieGrowth.StateCount` | src/inspection/CPUinspection.cpp:99-121 | the states are one more than the distinct non-empty prefixes |
| `TrieGrowth.NodeCount` | src/inspection/CPUinspection.cpp:78-88 | prefixes never exceed the summed length; by how much it exceeds them, told from the words |
| `TrieGrowth.AllocationFits` | src/inspection/CPUinspection.cpp:86-88 | exactly when the `maxs_` rows hold the states, and exactly when they also hold the row read past the last |
| `TrieGrowth.SingleWordOverrun` | src/inspection/CPUinspection.cpp:86-88 | for a single word the `maxs_` rows are one too few |
| `FailureSearch.MeetChild` | src/inspection/CPUinspection.cpp:183-184 | a child enters the queue for the first time, and the queue stays ordered by depth |
| `FailureSearch.FailureIsSettled` | src/inspection/CPUinspection.cpp:174-181 | the state whose output is merged into a child already has its final output |
| `SearchQueue.OverrunExact` | src/inspection/CPUinspection.cpp:162-166 | every entry read past a row is blank exactly when the words are clear of NULs |
| `SearchQueue.PushesCount` | src/inspection/CPUinspection.cpp:162-184 | a state is pushed once for its parent, and once more for the state before the parent when it is read past that row |
| `SearchQueue.DequeueCount` | src/inspection/CPUinspection.cpp:140-187 | how often a completed search dequeues each state |
| `SearchQueue.OnceExactly` | src/inspection/CPUinspection.cpp:140-187 | a completed search dequeues every state exactly once, exactly when it stops at the last column or the words are clear of NULs |
| `SearchQueue.DequeuedTwice` | src/inspection/CPUinspection.cpp:162-184 | a finished table and the search over it that dequeues a state twice |
| `SearchQueue.WrongMerge` | src/inspection/CPUinspection.cpp:169-181 | words for which, after the turn that reads past a row, the output of a state holds a word that is no suffix of its own |
| `FailureSearch.SeedQueue` | src/inspection/CPUinspection.cpp:140-150 | exactly the root's children are queued, in column order, linked to the root |
| `FailureSearch.FollowFailure` | src/inspection/CPUinspection.cpp:172-179 | the failure loop reaches the longest proper suffix in the trie |
| `FailureSearch.VisitChild` | src/inspection/CPUinspection.cpp:164-185 | the child's link and merged output become final and nobody else's change |
| `FailureSearch.ExpandState` | src/inspection/CPUinspection.cpp:155-187 | dequeuing a state meets exactly its children, pushed in column order |
| `FailureSearch.EmptyQueue` | src/inspection/CPUinspection.cpp:153-187 | the queue loop ends, first in first out |
| `FailureSearch.BuildFailures` | src/inspection/CPUinspection.cpp:140-187 | all links and outputs are final; the dequeue order is what the queue makes of the goto table, each state once, by non-decreasing depth |
| `FailureSearch.Pigeonhole` | src/inspection/CPUinspection.cpp:153-187 | no more states enter the queue than there are: the search ends |
| `CPUInspectionModule.CPUInspection.BuildMatchingMachine` | src/inspection/CPUinspection.cpp:73-190 | finished tables of the allocated sizes for the word list, the number of states, and the dequeue order, for the bound as written and as `<`; the root and unused rows keep link -1 |
| `CPUInspectionModule.Advance` | src/inspection/CPUinspection.cpp:50-54 | after each character the state is that of the longest suffix in the trie, and the output is that node's; CPU and GPU |
| `CPUInspectionModule.CPUInspection.Exec` | src/inspection/CPUinspection.cpp:46-58 | the outputs met along the text; the failure links the tables make it follow are at most as many as the characters |
| `CPUInspectionModule.ReportedMeaning` | src/inspection/CPUinspection.cpp:48-58 | a word is reported exactly where it ends; an empty word only where the character starts no word |
| `CPUInspectionModule.ScanIsNaive` | src/inspection/CPUinspection.cpp:48-58 | when the scan equals naive search on all texts, in both directions |
| `CPUInspectionModule.EmptyWordMissed` | src/inspection/CPUinspection.cpp:126-128 | the text on which an empty word is missed |
| `BitMask.BitDoubles` | src/inspection/CPUinspection.cpp:120 | bit i is the i-th power of two |
| `BitMask.MarkMask` | src/inspection/CPUinspection.cpp:120 | setting bit i adds word i |
| `BitMask.MergeMasks` | src/inspection/CPUinspection.cpp:181 | or-ing two masks merges the sets, and the result is zero exactly when both are empty |
| `BitMask.MirrorMark` | src/inspection/CPUinspection.cpp:120 | marking a word's end keeps the int table in step with the output sets |
| `BitMask.MirrorMerge` | src/inspection/CPUinspection.cpp:181 | merging one entry into another keeps the int table in step with the output sets |
| `BitMask.MasksSuffice` | src/inspection/CPUinspection.cpp:120 | every set of indices of n words has a mask exactly when n is at most 32 |
| `BitMask.IntTableRepresents` | src/inspection/CPUinspection.cpp:54-181 | for at most 32 words the finished int table represents the finished output sets, and its `== 0` test says that nothing is reported |
| `WuManber.StopsInside` | src/inspection/WMCPUinspection.cpp:347-427 | inside an occurrence the scan moves as inside the pattern alone |
| `WuManber.SkippingExact` | src/inspection/WMCPUinspection.cpp:347-427 | the scan stops at every occurrence of a pattern in every text, exactly when it jumps over none inside the pattern and the table covers all block hashes |
| `WuManber.CoversExactly` | src/inspection/WMCPUinspection.cpp:347-427 | no text makes the scan read the shift table past its end, exactly when the table covers the hashes of all blocks |
| `WuManber.FoundInTable` | src/inspection/WMCPUinspection.cpp:347-427 | on a text on which it stays inside the table, the scan stops at every occurrence of a pattern it never skips inside the pattern alone |
| `WuManber.WalkAt` | src/inspection/WMCPUinspection.cpp:347-427 | told from the table alone: the scan stands exactly at the places that start at m and go on by the entry, or by one where that is 0, and checks patterns exactly where it is 0 |
| `WuManber.WalkInTable` | src/inspection/WMCPUinspection.cpp:347-427 | it stays inside the table exactly when each of these places has an entry |
| `WuManber.LastEndMeaning` | src/inspection/WMCPUinspection.cpp:829-836 | the offset kept per pattern is the last place where its block is a prefix of the bucket's block |
| `WuManber.CandidateMeaning` | src/inspection/WMCPUinspection.cpp:844-850 | what the candidate list holds |
| `WuManber.ShiftBound` | src/inspection/WMCPUinspection.cpp:856-868 | a block's shift is at most max(0, m - q) wherever it ends at q in a pattern, and at most m - B + 1 |
| `WuManber.ShiftExact` | src/inspection/WMCPUinspection.cpp:812-868 | a block's shift is m - B + 1 if no pattern has a block that is its prefix, else the least distance max(0, m - q) from the last such block of a pattern, and some pattern attains it |
| `WuManber.ShiftTableExact` | src/inspection/WMCPUinspection.cpp:806-885 | the shift table is that of the index exactly when each entry is 0 for an empty bucket and else the shift of its last block, told from the patterns |
| `WuManber.NoCollisionLastIsLeast` | src/inspection/WMCPUinspection.cpp:811-871 | without collisions the last block of each bucket has the least shift |
| `WuManber.TableBounded` | src/inspection/WMCPUinspection.cpp:806-885 | every entry lies between 0 and m - B + 1 |
| `WuManber.TableSafe` | src/inspection/WMCPUinspection.cpp:806-885 | if each bucket's last block has the least shift, the entry of a block ending at q in a pattern is at most max(0, m - q), so no occurrence is jumped over |
| `WuManber.CollidingOrder` | src/inspection/WMCPUinspection.cpp:1387-1400 | the index of the colliding rules lists their blocks in the order in which they are cut |
| `WuManber.CollisionMisses` | src/inspection/WMCPUinspection.cpp:856-868 | three rules whose blocks 'b' and 'h' collide under the program's hash: the built table loses a match |
| `WMCPUInspectionModule.WMCPUInspection.TmhMenorPadrao` | src/inspection/WMCPUinspection.cpp:887-898 | the least pattern length |
| `WMCPUInspectionModule.WMCPUInspection.PrecarregaTabelaHash` | src/inspection/WMCPUinspection.cpp:933-963 | lists the pattern once under the hash, changing no other bucket |
| `WMCPUInspectionModule.WMCPUInspection.CutBlocksOf` | src/inspection/WMCPUinspection.cpp:973-1003 | one pattern is cut into all its blocks and listed under exactly their hashes |
| `WMCPUInspectionModule.WMCPUInspection.VecPermu1_1` | src/inspection/WMCPUinspection.cpp:965-1007 | every bucket lists, without duplicates, exactly the patterns with a block of that hash |
| `WMCPUInspectionModule.WMCPUInspection.IndexBlock` | src/inspection/WMCPUinspection.cpp:1387-1400 | one block is added to its bucket once, growing the table when it is short |
| `WMCPUInspectionModule.WMCPUInspection.TabelaHash` | src/inspection/WMCPUinspection.cpp:1375-1413 | every bucket lists, without duplicates and in the order in which they are first cut, exactly the pattern blocks of that hash, across all resizes; the last holds only the sentinel "*"; the size is the number of blocks, or two more than the greatest hash when that is larger |
| `WMCPUInspectionModule.IndexStepLists` | src/inspection/WMCPUinspection.cpp:1387-1400 | indexing a block keeps the buckets exact and the table no longer than needed |
| `WMCPUInspectionModule.IndexStepOrder` | src/inspection/WMCPUinspection.cpp:1387-1400 | and keeps them in the order of first occurrence |
| `WMCPUInspectionModule.CStr` | src/inspection/WMCPUinspection.cpp:819-822 | a pattern taken as a C string is cut at its first NUL |
| `WMCPUInspectionModule.WMCPUInspection.PatternCandidate` | src/inspection/WMCPUinspection.cpp:816-851 | a pattern gives one candidate, from its last matching block, or none |
| `WMCPUInspectionModule.WMCPUInspection.Lowered` | src/inspection/WMCPUinspection.cpp:845-849 | the loop that keeps a candidate from being negative |
| `WMCPUInspectionModule.WMCPUInspection.BlockShift` | src/inspection/WMCPUinspection.cpp:812-868 | the shift of the block, told from the patterns |
| `WMCPUInspectionModule.WMCPUInspection.TabelaShift` | src/inspection/WMCPUinspection.cpp:806-885 | each entry is the shift of the bucket's last block, told from the patterns, or 0 |
| `WMCPUInspectionModule.WMCPUInspection.BuildMatchingMachine1_1` | src/inspection/WMCPUinspection.cpp:525-614 | the three tables of the pattern list |
| `WMCPUInspectionModule.EndsWith` | src/inspection/WMCPUinspection.cpp:1538-1556 | the backward comparison decides whether the text ends with the pattern, also when the pattern is longer |
| `WMCPUInspectionModule.MatchPadroes1_1` | src/inspection/WMCPUinspection.cpp:1533-1564 | of the listed patterns, exactly those the text ends with |
| `WMCPUInspectionModule.SuffixIsListed` | src/inspection/WMCPUinspection.cpp:1533-1538 | a pattern ending at a position is listed under the hash of the block ending there |
| `WMCPUInspectionModule.ScanText` | src/inspection/WMCPUinspection.cpp:347-427 | records a pattern and end position exactly when the pattern ends there and the scan stops there, up to a read past the shift table; tells whether there is one; and has stood exactly at the places of the walk through the table |
| `WMCPUInspectionModule.ScanFromWalk` | src/inspection/WMCPUinspection.cpp:347-427 | the matches are the pattern ends at the places of the walk with entry 0 |
| `WMCPUInspectionModule.WMCPUInspection.ExcWuManberCore1_1` | src/inspection/WMCPUinspection.cpp:322-431 | the same for the built tables; no read past the end when they cover all block hashes, as they do for blocks of one character |
| `FlatTable.XorBits` | src/inspection/WMGPUinspection.cu:53 | a bit of `c ^ i` is set exactly when just one of the two has it |
| `FlatTable.XorAdds` | src/inspection/WMGPUinspection.cu:53 | below a power of two it is the sum |
| `FlatTable.ProgramHashSum` | src/inspection/WMGPUinspection.cu:50-55 | the program's hash of a block of any length is the sum of its characters times `c ^ i`, modulo M |
| `FlatTable.HashLoop` | src/inspection/WMGPUinspection.cu:654-672 | the hash accumulated in the builder and in the kernel is one function of the block |
| `FlatTable.RollHashReduced` | src/inspection/WMGPUinspection.cu:665-669 | every hash is below M |
| `FlatTable.ProgramHashOne` | src/inspection/WMGPUinspection.cu:50-55 | the program's hash of a single character |
| `FlatTable.AppendHolds` | src/inspection/WMGPUinspection.cu:679-791 | appending a pattern extends its bucket in both packed arrays, contiguously and in order |
| `FlatTable.AppendFrame` | src/inspection/WMGPUinspection.cu:679-791 | and leaves every other bucket as it was |
| `FlatTable.LastCopyZero` | src/inspection/WMGPUinspection.cu:726 | the size index is the bucket's first entry exactly when its first pattern is not repeated |
| `FlatTable.DataFits` | src/inspection/WMGPUinspection.cu:409-416 | whichever hashes are expanded, the characters written never exceed the computed capacity |
| `FlatTable.DataFull` | src/inspection/WMGPUinspection.cu:409-416 | they reach it exactly when every pattern is appended once for each of its blocks |
| `FlatTable.UsedByOneMore` | src/inspection/WMGPUinspection.cu:611-678 | expanding one more hash writes exactly its bucket's characters and sizes |
| `FlatTable.SizesFit` | src/inspection/WMGPUinspection.cu:429-440 | size entries never exceed the (hash, pattern) pairs, and reach them when every hash is expanded |
| `WMKernel.EqualLengthsFit` | src/inspection/WMGPUinspection.cu:429-440 | patterns of one length never overflow the M size entries |
| `WMKernel.SizeRowsOverrun` | src/inspection/WMGPUinspection.cu:429-440 | six rules that write eleven entries for M = 6 |
| `WMGPUInspectionModule.WMGPUInspection.constructor` | src/inspection/WMGPUinspection.cu:409-440 | empty arrays of the computed sizes, the size array as long as asked; hash 0 counts as exhausted from the start |
| `WMGPUInspectionModule.WMGPUInspection.AppendPattern` | src/inspection/WMGPUinspection.cu:679-791 | one pattern copied, counted and indexed |
| `WMGPUInspectionModule.WMGPUInspection.ExpandPattern` | src/inspection/WMGPUinspection.cu:611-815 | a pattern is appended exactly once if some block has the hash, else not at all |
| `WMGPUInspectionModule.WMGPUInspection.PrecarregaTabelaHash` | src/inspection/WMGPUinspection.cu:597-838 | expands one hash over all patterns, keeping every earlier bucket, and exhausts it |
| `WMGPUInspectionModule.WMGPUInspection.ExpandBlock` | src/inspection/WMGPUinspection.cu:840-902 | a block's hash is expanded unless it already is, so each hash is expanded at most once |
| `WMGPUInspectionModule.WMGPUInspection.VecPermu1_1` | src/inspection/WMGPUinspection.cu:851-928 | exactly the non-zero hashes of pattern blocks are expanded |
| `WMGPUInspectionModule.BuildMatchingMachine1_1` | src/inspection/WMGPUinspection.cu:378-558 | the packed table of the patterns; exactly one size entry per (non-zero hash, pattern) pair, characters within capacity |
| `WMKernel.BuiltRepresents` | src/inspection/WMGPUinspection.cu:597-838 | the size index points at the bucket's first entry exactly when its first pattern is not repeated; the bucket is represented exactly when the sizes read from the index are its own |
| `WMKernel.ShiftedSizes` | src/inspection/WMGPUinspection.cu:597-838 | a bucket whose first pattern occurs again k places on is represented only if every size from there repeats the size k places before |
| `WMKernel.RepeatMisread` | src/inspection/WMGPUinspection.cu:726 | every table built for a pattern listed twice and a longer one starting with it misreads their bucket |
| `WMKernel.DistinctRepresents` | src/inspection/WMGPUinspection.cu:378-558 | for distinct patterns every bucket does; bucket 0 is empty |
| `WMKernel.CompareEntry` | src/inspection/WMGPUinspection.cu:66-88 | the backward comparison through packed characters decides whether the memory up to the index ends with the entry's pattern |
| `WMKernel.CheckBucket` | src/inspection/WMGPUinspection.cu:58-91 | entry by entry, which patterns of the bucket end here, and the offset stored by the last that does |
| `WMKernel.StoredMeaning` | src/inspection/WMGPUinspection.cu:83-87 | the stored offset is where the match of the bucket's last matching entry starts, 0 when none matches |
| `WMKernel.KernelHash` | src/inspection/WMGPUinspection.cu:50-56 | the kernel's hash is the builder's hash of the block that ends at index + B |
| `WMKernel.Kernel` | src/inspection/WMGPUinspection.cu:43-94 | the kernel body at one index |
| `WMKernel.KernelFinds` | src/inspection/WMGPUinspection.cu:46-91 | for every pattern of at least a block: it is flagged exactly when the memory up to index + B ends with it and the block does not hash to 0 |
| `WMKernel.MemoryMatch` | src/inspection/WMGPUinspection.cu:65-82 | for a pattern longer than the text read that means the text ends it and the memory before the text ends with the rest |
| `WMKernel.KernelErrs` | src/inspection/WMGPUinspection.cu:46-91 | against the text alone: exactly which occurrences are missed and which false hits are reported |
| `WMKernel.MissedBlock` | src/inspection/WMGPUinspection.cu:50-59 | a pattern whose last block hashes to 0 under the program's hash is missed in its own text |
| `WMKernel.MissedPair` | src/inspection/WMGPUinspection.cu:50-59 | with blocks of two characters and M = 800, a pattern ending in "c " is missed in its own text |
| `WMKernel.FalseHit` | src/inspection/WMGPUinspection.cu:65-82 | a pattern reported in a text of one character |
| `WMKernel.InsideText` | src/inspection/WMGPUinspection.cu:62-88 | a pattern no longer than the text read is compared with text only |
| `WMKernel.ScanFlat` | src/inspection/WMCPUinspection.cpp:42-93 | the host loop gives the kernel's flags and stored offset at every index |
| `Batching.ReceiveKeeps` | src/inspection/GPUinspection.cu:95-140 | one packet keeps the size exact and the order, and flushes only a batch below the limit or a single packet |
| `Batching.RunKeepsPackets` | src/inspection/GPUinspection.cu:95-140 | over every run the flushed batches followed by the buffer are the packets received, in order |
| `Batching.FlushedAtLimit` | src/inspection/GPUinspection.cu:95-140 | over every run a batch goes exactly when the next packet brings the bytes held to the limit, and what is left waits |
| `Batching.PacketOfBatch` | src/inspection/GPUinspection.cu:126-137 | packet k of the i-th flushed batch is the packet received after those of the earlier batches |
| `Batching.BatchesFitSlices` | src/inspection/GPUinspection.cu:119-122 | without empty payloads no batch has more packets than a slice has entries |
| `Batching.SliceOverflow` | src/inspection/GPUinspection.cu:95-122 | limit + 1 empty payloads are flushed as one batch |
| `Batching.SlicesSuffice` | src/inspection/GPUinspection.cu:95-122 | over all runs of payloads of at least k bytes every batch fits its slices, exactly when k >= 1 |
| `Batching.Clip` | src/inspection/GPUinspection.cu:128 | of a packet its first bytes are kept, all of them up to the limit |
| `Batching.CopyPayload` | src/inspection/GPUinspection.cu:130 | the copied bytes, zeros after the first NUL, with everything before them kept |
| `Batching.Pack` | src/inspection/GPUinspection.cu:119-135 | every packet of the batch lies in its own segment: in order, disjoint, in bounds, clipped to the limit |
| `GPUInspectionModule.GPUInspection.Exec` | src/inspection/GPUinspection.cu:95-140 | the buffer after one packet is that of the state machine, and a flush carries the packed batch |
| `GPUInspectionModule.GPUInspection.GetIndex` | src/inspection/GPUinspection.cu:379-390 | a thread's place, registering it when new, without moving others |
| `GPUInspectionModule.IndexStable` | src/inspection/GPUinspection.cu:379-390 | an index once given is kept and belongs to one thread |
| `GPUInspectionModule.KernelScan` | src/inspection/GPUinspection.cu:21-34 | the kernel loop over a segment is the automaton scan of its bytes |
| `GPUInspectionModule.KernelExec` | src/inspection/GPUinspection.cu:16-36 | thread `id` scans packet `id` if there is one |
| `GPUInspectionModule.LaunchKernel` | src/inspection/GPUinspection.cu:187 | exactly n / 128 + 1 blocks of 128 bodies run, and they reach every packet |
| `GPUInspectionModule.LaunchIsScan` | src/inspection/GPUinspection.cu:16-36 | a flush reports one result for each byte of a packet up to the limit: up to the first NUL, what the CPU scan reports there on the whole payload |
| `GPUInspectionModule.RunIsScan` | src/inspection/GPUinspection.cu:95-187 | over every run, each flushed batch reports for the packets received what the CPU scan reports on them up to the limit, each in its turn |
| `GPUInspectionModule.SegmentBytes` | src/inspection/GPUinspection.cu:126-131 | a packet's segment holds its bytes up to the limit, and NULs from its first NUL on |
| `DeviceLayout.RegionsTile` | src/inspection/GPUinspection.cu:340-346 | all regions `exec` uses tile the single allocation without gap or overlap |
| `DeviceLayout.TilesDisjoint` | src/inspection/GPUinspection.cu:145-163 | so any two are disjoint |
| `DeviceLayout.TilesInside` | src/inspection/GPUinspection.cu:145-163 | and each lies inside |
| `DeviceLayout.PacketsTile` | src/inspection/GPUinspection.cu:165-166 | the packed bytes of the threads tile their array |
| `DeviceLayout.ThreadRegions` | src/inspection/GPUinspection.cu:145-163 | which region each pointer of a thread is |
| `DeviceLayout.ThreadsInOrder` | src/inspection/GPUinspection.cu:157-163 | the slices of an earlier thread end before those of a later one |
| `DeviceLayout.KindsApart` | src/inspection/GPUinspection.cu:147-163 | counts, tables, size slices and begin slices of any two threads are apart and inside |
| `DeviceLayout.PointersAgree` | src/inspection/GPUinspection.cu:355-359 | the table pointers of `exec` are the builder's exactly when all threads have registered |
| `PoolSafety.LockKeptByWorker` | src/ThreadPool/ThreadPool.cpp:86-119 | worker steps keep the mutex with exactly the thread that holds it |
| `PoolSafety.LockKeptByClient` | src/ThreadPool/ThreadPool.cpp:69-71 | so do client steps |
| `PoolSafety.MutualExclusion` | src/ThreadPool/ThreadPool.cpp:86-144 | at most one thread is inside a locked section, in every reachable state |
| `PoolSafety.WakeKeptByWorker` | src/ThreadPool/ThreadPool.cpp:90-119 | worker steps, spurious wakeups included, lose no wakeup |
| `PoolSafety.WakeKeptByClient` | src/ThreadPool/ThreadPool.cpp:132-144 | nor do client steps |
| `PoolSafety.TasksKeptByWorker` | src/ThreadPool/ThreadPool.cpp:101-128 | worker steps keep the queue the unpopped rest and every ticket with one worker |
| `PoolSafety.TasksKeptByClient` | src/ThreadPool/ThreadPool.cpp:132-144 | so do client steps |
| `PoolSafety.StopKeptByWorker` | src/ThreadPool/ThreadPool.cpp:101-114 | nobody parks or exits out of turn |
| `PoolSafety.StopKeptByClient` | src/ThreadPool/ThreadPool.cpp:63-84 | after the broadcast nobody is parked, and joined workers have exited |
| `PoolSafety.MainKeptByClient` | src/ThreadPool/ThreadPool.cpp:36-53 | the pool state and worker count follow the starting and stopping thread |
| `PoolSafety.InvKept` | src/ThreadPool/ThreadPool.cpp:36-144 | every step of every thread keeps the invariant |
| `PoolSafety.ReachableInv` | src/ThreadPool/ThreadPool.cpp:36-144 | it holds in every state of every run |
| `PoolSafety.NoLostWakeup` | src/ThreadPool/ThreadPool.cpp:90-144 | while a worker is parked in a started pool, every queued task has an awake idle worker, up to the one whose signal is still to come |
| `PoolSafety.QueuedMeansBusy` | src/ThreadPool/ThreadPool.cpp:90-144 | a task waits in the queue with no worker coming for it only while every worker has a task in hand |
| `PoolSafety.QueueProgress` | src/ThreadPool/ThreadPool.cpp:86-144 | a started pool never gets stuck on queued tasks: some worker can move, not counting spurious wakeups, or a client in a locked section can |
| `PoolSafety.PoppedPrefix` | src/ThreadPool/ThreadPool.cpp:116-124 | the popped tasks are the first added, in order, each with one worker and run at most once |
| `PoolSafety.DestroyOutcome` | src/ThreadPool/ThreadPool.cpp:63-84 | when destroy returns exactly the popped tasks have run, once each |
| `PoolSafety.StopOutcome` | src/ThreadPool/ThreadPool.cpp:63-84 | every added task has run when destroy returns, exactly when the queue was empty as the pool was set to stopped and nothing was pushed since |
| `PoolSafety.EveryTaskRunsOnce` | src/capture/libPCAP.cpp:218-218 | if nothing is pushed after the queue was seen empty, every added task has run exactly once when destroy returns |
| `PoolSafety.StoppedPopsNothing` | src/ThreadPool/ThreadPool.cpp:109-114 | once stopped, always stopped, and no task is popped |
| `PoolSafety.RankFalls` | src/ThreadPool/ThreadPool.cpp:101-114 | after the broadcast every worker step brings the workers closer to exit and no client step undoes it |
| `PoolSafety.ShutdownBounded` | src/ThreadPool/ThreadPool.cpp:63-84 | after the broadcast, however threads interleave, nobody parks, nothing is popped and the workers take at most five steps each |
| `PoolSafety.ShutdownProgress` | src/ThreadPool/ThreadPool.cpp:73-114 | until all have exited some worker can move, or a client holding the mutex can |
| `PoolSafety.DestroyCanMove` | src/ThreadPool/ThreadPool.cpp:75-84 | once all have exited the joins go through |
| `PoolHistory.AddedInOrder` | src/ThreadPool/ThreadPool.cpp:132-144 | over every run, told from its steps: each client's tasks are added in the order in which it gave them to `add_task`, at most the last still pending, and nothing else is added |
| `PoolHistory.AskedIsAdded` | src/ThreadPool/ThreadPool.cpp:132-144 | every task is added as often as it is given to `add_task`, up to callers who have not pushed yet |
| `PoolHistory.AskedRunOnce` | src/capture/libPCAP.cpp:218-218 | if nothing is pushed after the queue was seen empty and no call is pending, every task given to `add_task` has run as often as it was given when destroy returns |
| `PoolHistory.EndsMatch` | src/ThreadPool/ThreadPool.cpp:116-128 | over every run, each worker has ended a task once for each ticket it took whose task counts as ended |
| `PoolHistory.AddTaskAppends` | src/ThreadPool/ThreadPool.cpp:132-144 | an uninterrupted call puts its task at the end of the queue, wakes those signalled and changes nothing else |
| `PoolHistory.StartFinishes` | src/ThreadPool/ThreadPool.cpp:36-53 | the starting loop creates the workers still missing |
| `PoolHistory.StopBroadcasts` | src/ThreadPool/ThreadPool.cpp:63-75 | an uninterrupted stop leaves the pool stopped and every parked worker awake |
| `PoolHistory.RebroadcastWakesNobody` | src/ThreadPool/ThreadPool.cpp:75-83 | the broadcasts between the joins find nobody parked |
| `PoolHistory.SpuriousReparks` | src/ThreadPool/ThreadPool.cpp:90-100 | a worker woken spuriously with nothing to do waits again, and the pool is as before |
| `PoolHistory.WorkersSettle` | src/ThreadPool/ThreadPool.cpp:86-128 | while clients stand still outside the locked sections, the workers take an exact number of steps, never stuck before, and then all are parked, the queue is empty and every added task has run |
| `PoolSafety.TaskDropped` | src/ThreadPool/ThreadPool.cpp:63-84 | a run in which destroy returns with an added task never begun |
| `Agreement.ReportsMeaning` | src/inspection/CPUinspection.cpp:48-58 | the automaton reports a non-empty word exactly where it ends |
| `Agreement.CompleteExactly` | src/inspection/WMCPUinspection.cpp:347-427 | over all texts the scan stays inside the shift table and misses nothing, exactly when it skips nothing inside any pattern and the table covers all block hashes |
| `Agreement.BuiltComplete` | src/inspection/WMCPUinspection.cpp:525-614 | built tables skip nothing for patterns without NUL when each bucket's last block has the least shift, in particular without collisions; they are then complete exactly when they cover all block hashes |
| `Agreement.SkippingAgrees` | src/inspection/WMCPUinspection.cpp:347-427 | on a text on which it stays inside the table, a scan that skips nothing and the automaton report the same words at the same places |
| `Agreement.TableReadPastEnd` | src/inspection/WMCPUinspection.cpp:347-427 | rules without collisions and texts on which the shift table is read past its end, one with a match that is never reached |
| `Agreement.FlatAgrees` | src/inspection/WMGPUinspection.cu:46-91 | the flat-table matcher agrees with the automaton at an index exactly when, if the block hashes to 0, nothing ends there, and otherwise no pattern straddles the start of the text |

## Left out

- CPUInspectionModule.CPUInspection.BuildMatchingMachine: takes the number of rows beyond `maxs_` and the last column read as parameters (the program has no extra row and reads up to MAXC_) and requires that the rows suffice, since the program writes out of bounds otherwise, and, for the program's bound only, that the words are clear of NULs; for other words the queue is exact (`OnceExactly`) but the tables are not promised.
- FailureSearch.BuildFailures: for the bound as written, nothing is promised of links and outputs for words not clear of NULs; how often each state is dequeued is (`DequeueCount`).
- FailureSearch.EmptyQueue: likewise.
- FailureSearch.ExpandState: likewise.
- CPUInspectionModule.CPUInspection.Exec: output sets are sets of indices; the program's int table is related to them write by write (`MirrorMark`, `MirrorMerge`) and after the build (`IntTableRepresents`), for up to 32 words.
- WMCPUInspectionModule.WMCPUInspection.BuildMatchingMachine1_1: block size and hash are parameters, with 1 <= B <= m and hashes below M; the program derives them in floating point (`BlcStr`, `Hash`).
- WMCPUInspectionModule.MatchPadroes1_1: the matches are a set; the order in which the program prints them is not modelled.
- WMCPUInspectionModule.WMCPUInspection.ExcWuManberCore1_1: where the program would read the shift table past its end, the model stops and says so; the program goes on from whatever memory holds there.
- WMGPUInspectionModule.WMGPUInspection.constructor: the length of the size array is a parameter; the program gives it M.
- WMGPUInspectionModule.BuildMatchingMachine1_1: the size array gets as many rows as the caller says, at least one per (hash, pattern) pair; the program gives it M.
- WMKernel.Kernel: characters compared before the start of the text come from a parameter at least as long as the patterns, since the program does not stop there.
- WMKernel.ScanFlat: one index after another; the launch grid of the device version does not reach all indices in general.
- GPUInspectionModule.GPUInspection.Exec: statistics, timing, copies to the device and streams; a flush is a value handed to the kernel.
- GPUInspectionModule.LaunchKernel: kernel threads one after another; they write nothing shared.
- PoolSafety.ReachableInv: `pthread_create` and `pthread_join` succeed, and a destroyed pool is not started again.
- PoolSafety.EveryTaskRunsOnce: the `busy_` mask, updated outside the lock, and `hasTasks`, read outside it.
- The builder of the GPU matcher repeats the CPU's trie and failure loops (src/inspection/GPUinspection.cu:214-335); they are modelled once.
- Packet capture, rule-file reading, console output, signals, statistics: input and output only; word lists and payloads are arguments.
- `excWuManberCore` and its prefix table: superseded by the 1_1 version.
- Integer overflow of counters, sums and hashes: numbers are unbounded.
- Fairness of the scheduler: shutdown is a bound on worker steps plus progress, not a temporal formula.
