# Huffman code tables, modelled in Dafny

This project models the core of a small Java Huffman-coding program. The model covers three parts of the program, and then proves what each part promises.

1. **Frequency counting.**
   - `WorkerThread.processCommand` counts every character of a string into an `int[]`, in place.
   - `Huffman.processCommand` splits the string into `splitter` index ranges, one per worker. Worker `w` counts its own range into a shared array.
2. **Tree construction.** `Huffman.buildTree` seeds a priority queue with one leaf for each symbol whose count is positive. It then repeatedly polls the two lightest trees and offers back the node joining them.
3. **Code listing.** `Huffman.printCodes` walks the tree. It keeps a shared `StringBuffer` prefix, extended with `'0'`/`'1'` around each recursive call, and prints one `(symbol, frequency, code)` line per leaf.

Modules:

| file | module | contents |
|---|---|---|
| `frequencies.dfy` | `Frequencies` | Java `char` as a 16-bit `CodeUnit`; specification functions for counting (`Occurrences`, `Tally`, `Total`); where an out-of-range character stops counting (`CountedLength`) |
| `worker_thread.dfy` | `WorkerThread` | the whole-string counting loop; the "ABRACADABRA" run: count, build, print |
| `partition.dfy` | `Partition` | the workers' index ranges (`Lower`/`Upper`) and the per-range counting loop; all workers run one after another |
| `tree.dfy` | `HuffmanTree` | the `Tree` datatype (leaf or node), its weight, its leaves, and the leaf multiset of a forest |
| `queue.dfy` | `PriorityQueues` | `TreeQueue`, the `PriorityQueue<HuffmanTree>`: offer, poll a lightest tree, size |
| `build.dfy` | `HuffmanBuild` | `buildTree` as a method on a queue object, proved against the specification function `Seed` |
| `codes.dfy` | `HuffmanCodes` | a `StringBuffer` class; `printCodes` as a recursive method over it, proved against the specification function `CodeTable` |

How the Java is modelled:

- **Loops and state.**
  - Every loop of the modelled code is a Dafny loop with invariants.
  - The count arrays are Dafny `array<int>`s updated in place.
  - The priority queue and the string buffer are classes whose methods change their fields.
- **Exceptions.** A character that is not a valid index into the count array raises `ArrayIndexOutOfBoundsException`. The handler sits outside the loop. The model therefore stops counting at that character and keeps the increments already made. The array length is a parameter of the model, not fixed to 256.
- **Null results.**
  - `poll` on an empty queue returns `None`, Java's `null`.
  - With an all-zero count table, `buildTree` therefore returns `None`. The `assert trees.size() > 0` is disabled by default in Java.
  - `printCodes(null)` prints nothing. The composition of `buildTree` and `printCodes` in `WorkerThread.BuildAndPrint` gives the empty list of lines in that case.
- **Tie-breaks.** `HuffmanTree.compareTo` is not part of this model. `java.util.PriorityQueue` leaves open which of several equally light trees `poll` returns. So `Poll` promises only "a lightest tree", and nothing here depends on a particular tie-break.
- **Single symbol.** A usual Huffman convention gives a lone symbol a one-bit code such as `"0"`. This program applies no such convention: it prints that symbol with the prefix it was handed, which is the empty string for a fresh `StringBuffer` (`Huffman.java:62-66`, `:142`). The model follows the code. `HuffmanCodes.FreshPrefixTable` and `HuffmanCodes.CodeTableSingleLeaf` prove that a lone symbol gets the empty code. With two or more symbols, every code is non-empty.

## Model

All source paths are under `Huffman/src/huffman/`.

| member | source | states |
|---|---|---|
| Frequencies.CountedLengthStops | Huffman/src/huffman/WorkerThread.java:45-54 | Counting stops at the first character that is no valid index: every character before it is one, and the one it stops at is not |
| Frequencies.CountedLengthAllBelow | Huffman/src/huffman/WorkerThread.java:48-49 | The whole text is counted if and only if every character is a valid index of the table |
| Frequencies.OccurrencesSnoc | Huffman/src/huffman/WorkerThread.java:49 | One more character adds one to its own count and nothing to any other |
| Frequencies.OccurrencesAppend | Huffman/src/huffman/Huffman.java:127-129 | Counting a concatenation gives the sum of the counts of the parts |
| Frequencies.OccurrencesMultiset | Huffman/src/huffman/WorkerThread.java:48-49 | The count of a character is its multiplicity in the text's multiset of characters |
| Frequencies.TallySnoc | Huffman/src/huffman/WorkerThread.java:49 | Counting one more character `c` into the table increments entry `c` and leaves every other entry unchanged |
| Frequencies.TallyAppend | Huffman/src/huffman/Huffman.java:127-129 | The table of a concatenation is the entry-wise sum of the parts' tables |
| Frequencies.TotalIncrement | Huffman/src/huffman/WorkerThread.java:49 | One increment adds one to the table's total |
| Frequencies.TotalPlus | Huffman/src/huffman/WorkerThread.java:48-49 | The total of an entry-wise sum is the sum of the totals |
| Frequencies.TallyTotal | Huffman/src/huffman/WorkerThread.java:48-49 | When every character is a valid index, the counts gained over all entries add up to the text's length |
| Frequencies.ZerosTotal | Huffman/src/huffman/WorkerThread.java:23 | A fresh `new int[n]` sums to zero |
| WorkerThread.ProcessCommand | Huffman/src/huffman/WorkerThread.java:43-56 | Returns the same array. Each entry has grown by the occurrences of its character in the part counted before any out-of-range character. The table total has grown by the length of that part, which is the whole text when all characters fit |
| WorkerThread.CountFresh | Huffman/src/huffman/WorkerThread.java:23-30 | A fresh 256-entry table counted over a text holds, at each index, that character's occurrences in the counted part; when all characters are below 256, in the whole text |
| WorkerThread.AbracadabraOccurrences | Huffman/src/huffman/WorkerThread.java:24 | "ABRACADABRA" holds A five times, B and R twice, C and D once, and nothing else |
| WorkerThread.CountAbracadabra | Huffman/src/huffman/WorkerThread.java:23-30 | The counts for "ABRACADABRA" are A=5, B=2, R=2, C=1, D=1 and 0 for every other entry |
| WorkerThread.AbracadabraSeed | Huffman/src/huffman/Huffman.java:41-45 | From the "ABRACADABRA" counts, buildTree seeds exactly the leaves A:5, B:2, C:1, D:1, R:2, in index order |
| WorkerThread.BuildAndPrint | Huffman/src/huffman/WorkerThread.java:34-37 | The lines printed for a count table carry exactly the seeded leaves (none for an all-zero table) and form a prefix code. A lone symbol gets the empty code; with two or more symbols no code is empty |
| WorkerThread.Run | Huffman/src/huffman/WorkerThread.java:12-41 | The run on "ABRACADABRA" prints five lines, one per letter with its count, forming a prefix code of non-empty codes |
| Partition.Limit | Huffman/src/huffman/Huffman.java:116 | A worker's share `len / splitter` is the largest count of which `splitter` copies fit in the text's length |
| Partition.Lower | Huffman/src/huffman/Huffman.java:127 | A worker's first index `(w-1)*(len/splitter)` lies within the text |
| Partition.Upper | Huffman/src/huffman/Huffman.java:117-122 | A worker's end bound, `w*(len/splitter)` or `len` for the last worker, lies between its first index and the text's length |
| Partition.Owner | Huffman/src/huffman/Huffman.java:115-122 | Every index of the text lies in the range of some worker between 1 and `splitter` |
| Partition.PartitionsOrdered | Huffman/src/huffman/Huffman.java:115-127 | A lower-numbered worker's range ends before a higher-numbered one's starts, so the ranges are pairwise disjoint |
| Partition.PartitionsTile | Huffman/src/huffman/Huffman.java:115-127 | Every index lies in the range of exactly one worker: the ranges tile `[0, len)` |
| Partition.PartitionsAdjacent | Huffman/src/huffman/Huffman.java:115-127 | Worker 1 starts at 0, each later worker starts where the previous one ends, and the last ends at the text's length |
| Partition.WorkerRange | Huffman/src/huffman/Huffman.java:115-122 | The computed start and upper bound are the worker's range, inside the text |
| Partition.CountRange | Huffman/src/huffman/Huffman.java:124-135 | Counting a range adds to each entry the occurrences of its character in the range, up to the first out-of-range character; the rest of the range is not counted |
| Partition.ProcessCommand | Huffman/src/huffman/Huffman.java:114-135 | Worker `which` adds to each entry the occurrences of its character in the counted part of its own range, and changes nothing else |
| Partition.CountAllWorkers | Huffman/src/huffman/Huffman.java:202-209 | Running workers 1..splitter, one after another, adds to each entry the sum of the workers' counts |
| Partition.OccurrencesRange | Huffman/src/huffman/Huffman.java:127-129 | A range of valid characters is counted in full, and counting up to `hi` is counting up to `lo` plus the range `[lo, hi)` |
| Partition.WorkersCountPrefix | Huffman/src/huffman/Huffman.java:115-131 | When all characters are valid indices, workers 1..w together count exactly the text up to the end of worker w's range |
| Partition.WorkersBefore | Huffman/src/huffman/Huffman.java:115-131 | When all characters are valid indices, the workers before w together count exactly the text up to the start of worker w's range |
| Partition.WorkersCountWholeText | Huffman/src/huffman/Huffman.java:115-131 | When all characters are valid indices, whatever `splitter` is, the workers together count each character as often as it occurs, and the increments total the text's length |
| HuffmanTree.LeavesAreLeaves | Huffman/src/huffman/Huffman.java:55 | Every tree has at least one leaf, and its leaf list holds leaves only |
| HuffmanTree.WeightIsLeafSum | Huffman/src/huffman/Huffman.java:55 | A tree built by merging weighs as much as its leaves together |
| HuffmanTree.ForestPermutation | Huffman/src/huffman/Huffman.java:38 | The total weight and the leaves of the queued trees do not depend on the queue's internal order |
| HuffmanTree.LeafBagOfLeaves | Huffman/src/huffman/Huffman.java:41-45 | A forest of leaves is its own multiset of leaves |
| HuffmanTree.MergeKeepsForest | Huffman/src/huffman/Huffman.java:50-55 | Polling `a`, polling `b` and offering `Node(a, b)` keeps the forest's leaves and total weight |
| PriorityQueues.TreeQueue.constructor | Huffman/src/huffman/Huffman.java:38 | A new queue is empty |
| PriorityQueues.TreeQueue.Size | Huffman/src/huffman/Huffman.java:49 | `size()` is the number of queued trees, counted with multiplicity |
| PriorityQueues.TreeQueue.Offer | Huffman/src/huffman/Huffman.java:55 | `offer` adds one copy of the tree and keeps everything else |
| PriorityQueues.TreeQueue.Poll | Huffman/src/huffman/Huffman.java:51-52 | `poll` on an empty queue returns null and changes nothing; otherwise it removes one copy of a tree that weighs no more than any queued tree, and returns it |
| HuffmanBuild.Sym | Huffman/src/huffman/Huffman.java:43 | `(char)i` keeps the index itself when it is below 65536 |
| HuffmanBuild.SeedSound | Huffman/src/huffman/Huffman.java:41-45 | Every seeded tree is the leaf `(charFreqs[i], (char)i)` of an index `i` with a positive count |
| HuffmanBuild.SeedComplete | Huffman/src/huffman/Huffman.java:41-45 | Every index with a positive count has its leaf seeded |
| HuffmanBuild.SeedCount | Huffman/src/huffman/Huffman.java:41-45 | Exactly as many leaves are seeded as there are indices with a positive count |
| HuffmanBuild.SeedEmpty | Huffman/src/huffman/Huffman.java:41-47 | Nothing is seeded exactly when no count is positive |
| HuffmanBuild.SeedWeight | Huffman/src/huffman/Huffman.java:41-45 | With no negative counts, the seeded leaves weigh the table's total |
| HuffmanBuild.SeedStep | Huffman/src/huffman/Huffman.java:42-44 | Index `i` adds its leaf to the seed exactly when its count is positive |
| HuffmanBuild.SeedSkip | Huffman/src/huffman/Huffman.java:42 | Indices with no positive count add nothing to the seed |
| HuffmanBuild.SeedAreLeaves | Huffman/src/huffman/Huffman.java:43 | Only leaves are seeded |
| HuffmanBuild.SeedQueue | Huffman/src/huffman/Huffman.java:38-45 | The first loop leaves a fresh queue holding exactly the seeded leaves, offered in index order |
| HuffmanBuild.Merged | Huffman/src/huffman/Huffman.java:50-55 | The first polled tree weighs no more than the second, which weighs no more than any tree left; the new node and the trees left keep the left-no-heavier ordering |
| HuffmanBuild.MergeStep | Huffman/src/huffman/Huffman.java:51-55 | One poll-poll-offer: the queue before held the two polled trees and the rest, and after it holds the rest and their node. The first polled tree weighs no more than the second, and the second no more than any tree left. The queue shrinks by one and keeps its leaves, total weight and ordering |
| HuffmanBuild.ReplaysStep | Huffman/src/huffman/Huffman.java:49-56 | A replay of the merge log extends by one merge whose before-state is where the replay stood |
| HuffmanBuild.ReplaysShrink | Huffman/src/huffman/Huffman.java:49-56 | Replaying a merge log shrinks the queue by exactly one tree per merge |
| HuffmanBuild.MergeAll | Huffman/src/huffman/Huffman.java:49-56 | The merge loop ends with one tree, or none if the queue was empty. The leaves, total weight and ordering are kept. The merge log replays the loop, one merge per pass, from the queue's contents before the loop to those after it, and every logged merge took two lightest trees |
| HuffmanBuild.BuildTree | Huffman/src/huffman/Huffman.java:37-58 | None exactly when no count is positive. Otherwise the result holds exactly the seeded leaves and weighs their total; every left subtree weighs no more than its sibling; the merges are one fewer than the leaves, each of two lightest trees, and replaying them leads from the seeded leaves to the returned tree; with no tree there are no merges |
| HuffmanCodes.StringBuffer.constructor | Huffman/src/huffman/Huffman.java:142 | `new StringBuffer()` is empty |
| HuffmanCodes.StringBuffer.Length | Huffman/src/huffman/Huffman.java:74 | `length()` is the number of buffered characters |
| HuffmanCodes.StringBuffer.Append | Huffman/src/huffman/Huffman.java:72 | `append(c)` adds `c` at the end |
| HuffmanCodes.StringBuffer.DeleteCharAt | Huffman/src/huffman/Huffman.java:74 | `deleteCharAt(i)` removes the character at `i` and keeps the rest in order |
| HuffmanCodes.PrintCodes | Huffman/src/huffman/Huffman.java:60-81 | The buffer ends with the contents it had on entry, and the lines printed are the code table of the tree under the entry prefix |
| HuffmanCodes.CodeTableLeaves | Huffman/src/huffman/Huffman.java:62-79 | One line per leaf, left subtree before right: line `i` carries leaf `i`'s symbol and frequency |
| HuffmanCodes.CodeTableExtends | Huffman/src/huffman/Huffman.java:72-79 | Every code starts with the prefix printCodes was called with |
| HuffmanCodes.CodeTablePaths | Huffman/src/huffman/Huffman.java:68-79 | Each code, past the entry prefix, is the root-to-leaf path to its own leaf, with '0' for left and '1' for right |
| HuffmanCodes.PrefixFreeJoin | Huffman/src/huffman/Huffman.java:72-79 | Prefix-free lines below `prefix+'0'` and below `prefix+'1'` together stay prefix-free |
| HuffmanCodes.CodeTablePrefixFree | Huffman/src/huffman/Huffman.java:62-79 | No printed code is a prefix of another line's code |
| HuffmanCodes.CodeTableSingleLeaf | Huffman/src/huffman/Huffman.java:62-66 | A code equals the entry prefix if and only if the tree is a single leaf |
| HuffmanCodes.FreshPrefixTable | Huffman/src/huffman/Huffman.java:142 | From an empty buffer, the lines list the tree's leaves and form a prefix code. A single leaf gets the empty code, and otherwise no code is empty |

## Left out

- **Concurrency.**
  - The `ExecutorService`/`Future`/`Callable` machinery of `main` and `call` is not modelled; the workers run one after another (`Partition.CountAllWorkers`).
  - The `synchronized` blocks are not modelled. They lock the per-task `Huffman` object, not the shared array, so they do not serialise the increments, and the interleavings they allow are not captured.
- **Per-worker tree building.** `buildTree` and `printCodes` at the end of `Huffman.processCommand` (`Huffman.java:137-145`) are not modelled. They run on an array that other workers may still be updating, so their output depends on timing. `buildTree` and `printCodes` are modelled on a fixed array, as `WorkerThread.run` uses them.
- **Program glue.** `main` is not modelled: argument parsing, the `Scanner` prompts, `Integer.parseInt`, the early `buildTree` on the all-zero array, and wall-clock timing. Neither is `reader`, which does file I/O.
- **Output.** Console output is not modelled: the start/end messages, the table header, the stack trace printed by the exception handler, and the formatting of each line. `printCodes` returns its lines as `(symbol, frequency, code)` records instead.
- **Integer width.** Counts and tree weights are unbounded integers; Java's 32-bit `int` overflow is not modelled. `whichThread * limit` cannot overflow, since it never exceeds the text length.
- **Queue details.**
  - `PriorityQueue`'s heap layout and tie-break order are not modelled, and neither is `HuffmanTree.compareTo`. `Poll` returns some lightest tree, so exact code strings are not fixed when weights tie.
  - The source of `HuffmanTree`, `HuffmanLeaf` and `HuffmanNode` is not part of this model; the datatype `HuffmanTree.Tree` stands for all three. A node's weight is taken to be the sum of its children's weights. `new HuffmanNode(a, b)` is taken to put `a` on the left.
- **Optimality.** The program never states or checks that the code has the least weighted path length, and the model does not prove it.
- **Disabled assertions.** Java's `assert` statements (`Huffman.java:47`, `:61`) are off by default and are modelled as absent. An all-zero table gives `None`, and a null tree prints nothing.
- **Caller obligations.** `Partition.ProcessCommand` and `Partition.CountAllWorkers` require `1 <= which <= splitter` and `splitter >= 1`.
  - `main` creates tasks only for `1 <= which <= splitter`.
  - With `splitter <= 0`, `Executors.newFixedThreadPool` throws before any worker runs.
