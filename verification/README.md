# Verified models of the window statistics, barrier, ini, dictionary, heap, queue and argument code

This Dafny project models the stateful C modules of the repository and proves what they are for.

* **Window statistics.** `TreeShape` and `BinTree` are the reference-counted search tree of
  `lib_bintree.c` with its cached extremes and recycled nodes: a heap of linked `Node` objects,
  whose picture (`Tree`) is a ghost value; every method says which function of the picture it
  computes, and the `...Means` lemmas say what that function does to the multiset of keys.
  `Puffer`, `SlidingWindow`, `Plugins`, `Ranks`, `Percentile` and `PercentileRuns` are the ring, the
  window limited by number and age, the cyclic value store, and the minimum/maximum, sum and percentile
  plugins.
  The fast structures are proved to agree with scanning or sorting the live values.
* **Barrier** and **BlockingQueue.** Concurrent code as state machines whose steps are what one
  thread does between taking the mutex and giving it up. Theorems are about every sequence of
  steps, so about every schedule; sleepers are explicit, wakeups by broadcast or signal (and
  spurious ones, where stated).
* **Heap** (`lib_heap.c`) with hole-moving sift loops and its reallocation policy.
* **Dictionary** (`etc_dict.c`), for any hash function.
* **Ini files** (`etc_iniparser.c`): `IniText` reads and prints single lines, `IniLines` states what every kind
  of line means, `Ini` saves and loads dictionaries, `IniFiles` states what whole files hold, and
  `IniRoundTrip` composes saving and loading. The scan sets are those of section 7.19.6.2 of C99.
* **Arguments** (`etc_argtable2.c`): `IntText` and `ArgInt` are the integer scanner (`strtol` as in
  section 7.20.1.4 of C99), `IntRoundTrip` scans what was written, `ArgTable` the untagged matching, the error list and the count checks.

## Where the code departs from its intent

Each point is modelled as the code has it, except for the one marked as an assumption. The exact
condition for the code to be right is proved, with inputs that show it going wrong otherwise.

* `src/lib/lib_swplugins.c:357-358` deletes an expiring key from both trees. `RemPipe` states that the
  window loses exactly that value if and only if the trees do not both hold the key.
  `PercentileRuns.DuplicateRun` is, for every percentage, a run with never more than two equal live
  values in which what is published is wrong; with `RunPercentile` and `OnceIsSafe` this makes the
  plugin right in every run with at most m equal live values if and only if m <= 1 (as far as the
  third point allows).
* `src/lib/lib_bintree.c:368-373` and `421-434` book the predecessor's references instead of the removed node's, so
  `duplicate_counter` drifts. `Drift` is that error, `Loss` is what one deletion adds to it, and
  every method states the drift it causes. The tree itself is always right; `BinTrees.DriftRun` is a
  run after which the counters are not. Inserting a node with several references (`303`, `316`) also
  drifts, by that number less one. The percentile plugin takes its counters from there: `RemPipe`
  states by how much they fall short and that publishing goes by them; they stay exact if and only if
  no reference is lost. In `PercentileRuns.DriftRun` the trees hold exactly the live values and
  nothing is published although enough are live.
* `src/lib/lib_swplugins.c:339` looks at the lower tree's maximum without checking that there is one.
  `LowerTreeNeverEmpty` proves that this is safe if and only if p >= 50 or p divides 100,
  `RunPercentile` goes on exactly until an add that does it, and `StrandingRun` is, for every other p,
  a run of distinct values that gets there.
* `src/lib/lib_threading.c:175-213` keeps rounds apart if and only if there are at most 2^31 participants
  (`SafeUpToTheFlag`).
* `src/cmp/cmp_predefs.h:122,149` test the ring with `if`. `SoundExactlyOneToOne` proves the queue sound if
  and only if there is one producer and one consumer; `SpuriousFault` shows that spurious wakeups break
  it even then.
* `src/lib/lib_puffers.c:213-231` checks nothing. `Write` and `Read` state that the ring survives a write
  if and only if it is not full, and a read if and only if it is not empty.
* `src/lib/lib_heap.c:83` computes its start index in 32-bit unsigned arithmetic. `StartInside` proves
  that it is an index of the array if and only if there are at least two elements.
* `src/etc/etc_iniparser.c:698,703` overwrite the error count. `FailsExactly` proves that a file is refused
  if and only if it ends in a syntax error after which no line stores anything; `ErrorForgotten` shows
  both kinds of file.
* `src/etc/etc_iniparser.c:255,702` put names into buffers of 1025 characters. The model says where they
  are overrun (`Overlong`, `Overrun`) and nothing about what happens then.
* Assumption: `src/etc/etc_iniparser.c:685` reads the character before the buffer on a line of blanks
  only. The model takes that character not to be a backslash.
* `src/etc/etc_argtable2.c:1840`: after a prefix, `strtol` accepts blanks, a sign and (base 16) another
  0x. The grammar `IsIntForm` says exactly that, so it is wider than the comment above the function.

## Model

| member | source | states |
|---|---|---|
| TreeShape.InsertedBag | src/lib/lib_bintree.c:300-322 | inserting a reference adds exactly its key, as often as it counts, to the multiset of keys |
| TreeShape.InsertedKept | src/lib/lib_bintree.c:305-316 | the data pointer of the inserted key is the new one, every other key keeps its own |
| TreeShape.InsertedSearch | src/lib/lib_bintree.c:300-322 | insertion keeps the search order and with it the uniqueness of keys |
| TreeShape.RemovedMeans | src/lib/lib_bintree.c:381-438 | popping a key, also through its in-order predecessor, keeps the search order, removes all its references and touches no other key's count or data |
| TreeShape.DereffedMeans | src/lib/lib_bintree.c:326-376 | dropping a reference removes exactly one occurrence of the key; the data pointer stays until the last one goes |
| TreeShape.FindBag | src/lib/lib_bintree.c:455-467 | the node found on the search path carries exactly the multiplicity of its key; none is found exactly for absent keys |
| TreeShape.RightmostMax | src/lib/lib_bintree.c:441-446 | the rightmost node holds the greatest key |
| TreeShape.LeftmostMin | src/lib/lib_bintree.c:448-453 | the leftmost node holds the least key |
| TreeShape.BagSize | src/lib/lib_bintree.c:250-258 | node count plus extra references is the size of the multiset |
| TreeShape.LinkedGraft | src/lib/lib_bintree.c:357-363 | relinking one child pointer of the heap replaces exactly one subtree of the picture |
| BinTrees.BinTree.constructor | src/lib/lib_bintree.c:71-80 | an empty tree with empty caches and no drift |
| BinTrees.BinTree.SearchValue | src/lib/lib_bintree.c:455-467 | the node with the key, or null, and the last node passed on the way |
| BinTrees.BinTree.GetRightestValue | src/lib/lib_bintree.c:441-446 | the loop ends at the rightmost node |
| BinTrees.BinTree.GetLeftestValue | src/lib/lib_bintree.c:448-453 | the loop ends at the leftmost node |
| BinTrees.BinTree.MakeNode | src/lib/lib_bintree.c:469-481 | a fresh or recycled node with one reference and no links, which the tree does not contain |
| BinTrees.BinTree.TrashNode | src/lib/lib_bintree.c:483-502 | recycles up to 32 nodes, none of them twice or linked; cached extremes that pointed at the node are refreshed |
| BinTrees.BinTree.InsertIntoTree | src/lib/lib_bintree.c:300-322 | the recursive relinking yields the picture of the insertion and reports the node that holds the data; counters by key present or not |
| BinTrees.BinTree.CacheExtremes | src/lib/lib_bintree.c:281-298 | after an insertion the cached top and bottom are the true extremes again |
| BinTrees.BinTree.InsertNode | src/lib/lib_bintree.c:227-230 | inserting a node with several references: the tree is right, the counters drift by all but one of them |
| BinTrees.BinTree.InsertData | src/lib/lib_bintree.c:232-238 | the multiset gains the key, the key's pointer is the new one, nothing else changes, no drift |
| BinTrees.BinTree.DerefFromTree | src/lib/lib_bintree.c:326-376 | refines dropping a reference; the drift grows by exactly `Loss` |
| BinTrees.BinTree.DerefReplace | src/lib/lib_bintree.c:346-375 | the node takes over its predecessor's entry, whose node is unlinked and recycled |
| BinTrees.BinTree.PopFromTree | src/lib/lib_bintree.c:381-438 | refines removing a key with all references, returns its detached node, states what is booked |
| BinTrees.BinTree.PopReplace | src/lib/lib_bintree.c:398-437 | popping a node with two children returns a node with the popped entry and leaves the predecessor's entry in the tree |
| BinTrees.BinTree.DeleteValue | src/lib/lib_bintree.c:240-243 | the multiset loses one occurrence of the key, other pointers stay, drift grows by `Loss` |
| BinTrees.BinTree.PopNode | src/lib/lib_bintree.c:260-265 | the multiset loses every occurrence of the key; null exactly when there is none; exact booking |
| BinTrees.BinTree.PopTopData | src/lib/lib_bintree.c:184-193 | takes one reference to the greatest key, without drift; none exactly when empty |
| BinTrees.BinTree.PopBottomData | src/lib/lib_bintree.c:195-204 | takes one reference to the least key, without drift |
| BinTrees.BinTree.GetTopData | src/lib/lib_bintree.c:206-210 | the cached pointer is that of the greatest key, none exactly when empty |
| BinTrees.BinTree.GetBottomData | src/lib/lib_bintree.c:212-217 | the cached pointer is that of the least key, none exactly when empty |
| BinTrees.BinTree.HasValue | src/lib/lib_bintree.c:219-224 | true exactly for the keys in the multiset |
| BinTrees.BinTree.GetNodenum | src/lib/lib_bintree.c:250-253 | the number of distinct keys |
| BinTrees.BinTree.GetRefnum | src/lib/lib_bintree.c:255-258 | the size of the multiset less the drift |
| BinTrees.DriftRun | src/lib/lib_bintree.c:367-375 | after inserting 2, 1, 1, 3 and deleting 2 three references are held and two are counted |
| Ranks.RequiredShare | src/lib/lib_swplugins.c:217-226 | the required number of values makes at least one whole rank for p >= 50, and at most one below, exactly one if and only if p divides 100 |
| Ranks.Clamp | src/lib/lib_swplugins.c:211 | percentages are kept within 10..90: below they become 10, above 90 |
| Ranks.RequiredExactly | src/lib/lib_swplugins.c:217-226 | the required number is the greatest for which the smaller share, p or 100-p, is no more than one rank |
| Ranks.SettledClose | src/lib/lib_swplugins.c:281-326 | balanced, the lower tree is within one of p*n/100, and on the seam side the candidates need |
| Ranks.AscendingUnique | src/lib/lib_swplugins.c:254-278 | a multiset has one ascending arrangement, so the k-th smallest is well defined |
| Ranks.NearestRankMeans | src/lib/lib_swplugins.c:254-278 | at least p in a hundred values are not above the nearest rank and fewer are below it; for the second candidate more are not above it and no more are below it |
| Ranks.TwoTreesSorted | src/lib/lib_swplugins.c:254-278 | the sorted window is the lower tree's keys in order followed by the upper tree's |
| Ranks.LowerTreeNeverEmpty | src/lib/lib_swplugins.c:339 | every settled state has a lower maximum if and only if p >= 50 or p divides 100 |
| Percentiles.CandidatesRight | src/lib/lib_swplugins.c:254-278 | what is read off two trees at their share is the nearest-rank percentile of their union, both candidates when p*n/100 is whole |
| Percentiles.RatioMeans | src/lib/lib_swplugins.c:263-300 | comparing the counters' ratio with the target compares 100*Mxc with p*n |
| Percentiles.LossBound | src/lib/lib_bintree.c:368-373 | a deletion loses nothing when every key is referenced once |
| Percentiles.LossMeans | src/lib/lib_bintree.c:367-375 | what a deletion loses are the references beyond the first to the next smaller key |
| Percentiles.TwiceDeleted | src/lib/lib_swplugins.c:357-358 | deleting from both bags removes one value in all if and only if they do not both hold it |
| Percentiles.SafeMeans | src/lib/lib_swplugins.c:357-358 | a value that is live once, like the next smaller one, is deleted from one tree only and without loss |
| Percentiles.Percentile.constructor | src/lib/lib_swplugins.c:201-228 | p clamped to 10..90, two empty trees, nothing published |
| Percentiles.Percentile.Pipe | src/lib/lib_swplugins.c:254-278 | publishes the lower maximum, the upper minimum or both, by the ratio of the counters |
| Percentiles.Percentile.ReduceMaxtree | src/lib/lib_swplugins.c:315-322 | the lower maximum crosses the seam: union, order and drift stay, both counters follow |
| Percentiles.Percentile.ReduceMintree | src/lib/lib_swplugins.c:305-312 | the upper minimum crosses the seam |
| Percentiles.Percentile.Shrink | src/lib/lib_swplugins.c:314-322 | the loop ends, with the lower tree at p*n/100 rounded up |
| Percentiles.Percentile.Grow | src/lib/lib_swplugins.c:304-312 | the loop ends, with the lower tree at p*n/100 rounded down |
| Percentiles.Percentile.Balancer | src/lib/lib_swplugins.c:281-326 | terminates, moves values across the seam only, ends within one of p*n/100 |
| Percentiles.Percentile.AddPipe | src/lib/lib_swplugins.c:328-350 | for any counters: the window gains the value, the counters follow, and what is published is read off the trees by the counters; exact counters stay exact, and then it is right |
| Percentiles.Percentile.Store | src/lib/lib_swplugins.c:328-345 | the value goes into the lower tree while too few are live or when it does not exceed the lower maximum; both trees stay ordered against each other |
| Percentiles.Percentile.RemPipe | src/lib/lib_swplugins.c:352-373 | from any valid state: what both deletions leave, one value gone if and only if the key is not in both trees, the counters short by exactly the references lost, and what is published read off the trees by the counters |
| Percentiles.Percentile.Gather | src/lib/lib_swplugins.c:361-369 | below the required number everything moves into the lower tree |
| Percentiles.Percentile.Resettle | src/lib/lib_swplugins.c:361-372 | what follows the deletions keeps the window, the sum of the counters and the drift, and publishes by the counters |
| PercentileRuns.RunPercentile | src/lib/lib_swplugins.c:328-373 | over every run in which each expiring value and the next smaller one are live once, each published result is the nearest rank of the sorted live values; the run is cut short only by an add without a lower maximum, which no p >= 50 and no p dividing 100 meets |
| PercentileRuns.OnceIsSafe | src/lib/lib_swplugins.c:352-373 | runs without equal live values are among them |
| PercentileRuns.StrandingRun | src/lib/lib_swplugins.c:328-373 | for every p < 50 that does not divide 100: adding 1, 2, ... up to one more than required and expiring the 1 leaves no lower maximum, with enough values live |
| PercentileRuns.DuplicateRun | src/lib/lib_swplugins.c:357-358 | for every p a run with at most two equal live values after which as many values as required are live, the trees hold one less and nothing right is published |
| PercentileRuns.DriftRun | src/lib/lib_bintree.c:367-375 | for every p that requires five values or more, a run after which the trees hold exactly the live values and what is published is wrong |
| Puffers.Puffer.constructor | src/lib/lib_puffers.c:174-189 | an empty ring |
| Puffers.Puffer.Write | src/lib/lib_puffers.c:213-220 | appends to the contents, wrapping around; a full ring, and no other, is broken: its oldest item overwritten, its count beyond its size |
| Puffers.Puffer.Read | src/lib/lib_puffers.c:222-231 | takes the oldest item; an empty ring, and no other, is broken: no item, and a count of -1 |
| Puffers.Puffer.PeekFirst | src/lib/lib_puffers.c:233-236 | the oldest item, or none |
| Puffers.Puffer.IsFull | src/lib/lib_puffers.c:248-251 | the contents have the ring's size |
| Puffers.Puffer.IsEmpty | src/lib/lib_puffers.c:253-256 | there are no contents |
| SlidingWindows.Storage.Store | src/lib/lib_puffers.c:536-546 | writes the next cell cyclically, returns its address, leaves every other cell alone |
| SlidingWindows.SlidingWindow.constructor | src/lib/lib_puffers.c:371-386 | limit 32 when none is given, one cell more than the limit |
| SlidingWindows.SlidingWindow.Rem | src/lib/lib_puffers.c:408-429 | evicts the oldest item and passes it once to the rem pipes |
| SlidingWindows.SlidingWindow.ObsolateTimeLimit | src/lib/lib_puffers.c:448-461 | evicts, oldest first, until every item is young enough for the last reading of the clock, which is read once for each item |
| SlidingWindows.SlidingWindow.ObsolateNumLimit | src/lib/lib_puffers.c:438-446 | evicts until there is a free place |
| SlidingWindows.SlidingWindow.Refresh | src/lib/lib_puffers.c:463-467 | leaves the longest end of the history that has a free place and no old item |
| SlidingWindows.SlidingWindow.Clear | src/lib/lib_puffers.c:431-436 | evicts everything, in order |
| SlidingWindows.SlidingWindow.AddData | src/lib/lib_puffers.c:469-497 | the window is exactly the longest suffix of the values since the last clear within both limits, at the reading that evicting ended with; the value is stamped with a later reading; the plugin calls are the evictions in order and then the value; tracked cells stay intact |
| SlidingWindows.SlidingWindow.TrackedPointer | src/lib/lib_puffers.c:536-558 | a tracked pointer leads to a cell that still holds the value it was given for |
| SlidingWindows.BlockedIsLongest | src/lib/lib_puffers.c:438-461 | when the next older item does not fit, nothing longer does |
| SlidingWindows.AddedIsLongest | src/lib/lib_puffers.c:469-497 | evicting to one less than the limit and then adding gives the longest fitting suffix |
| SlidingWindows.WindowExactly | src/lib/lib_puffers.c:438-461 | an item is in the window if and only if it is among the last num_limit and, with a time limit, its age in milliseconds is below it |
| Plugins.TracksAppend | src/lib/lib_swplugins.c:145-155 | an insertion makes the tree point at the newest item of every live key, duplicates included |
| Plugins.TracksTail | src/lib/lib_swplugins.c:157-167 | so does dropping the oldest item's key |
| Plugins.TracksExtremes | src/lib/lib_swplugins.c:145-167 | the tree's extremes are the newest items with the least and the greatest live key |
| Plugins.MinMax.AddPipe | src/lib/lib_swplugins.c:145-155 | reports the scanned extremes after an add |
| Plugins.MinMax.RemPipe | src/lib/lib_swplugins.c:157-167 | reports the scanned extremes after a removal, NULL exactly when nothing is live |
| Plugins.Summer.AddPipe | src/lib/lib_swplugins.c:433-441 | the sum is the total of the live values, wrapped at 32 bits |
| Plugins.Summer.RemPipe | src/lib/lib_swplugins.c:443-451 | so is it after a removal |
| Plugins.Wrap32 | src/lib/lib_swplugins.c:433-451 | wrapping changes nothing within int32 |
| Plugins.Monitor.constructor | src/lib/lib_puffers.c:499-502 | plugins attached to an empty window |
| Plugins.Monitor.AddData | src/lib/lib_puffers.c:469-497 | after an add the reports equal a scan of the window, and every pointer that a tree node keeps leads to a cell that still holds the node's value |
| Plugins.Monitor.Refresh | src/lib/lib_puffers.c:463-467 | so they do after a refresh |
| Plugins.Monitor.Clear | src/lib/lib_puffers.c:431-436 | after a clear: NULL extremes and sum 0 |
| Barriers.InvNext | src/lib/lib_threading.c:175-213 | every step of every thread keeps the invariant: round counts, the counter as the number of calls inside, a sleeper's guard still true |
| Barriers.StepMeans | src/lib/lib_threading.c:175-213 | a step moves its own thread only: from the entry by registering in the present round, from the gate by returning from the round registered in; it wakes others at most |
| Barriers.EveryCallAccounted | src/lib/lib_threading.c:175-213 | in every run, for every thread, registrations and returns alternate in pairs of one round, the thread is at the gate exactly in between, and every call begun has returned once or is inside |
| Barriers.RoundsAreSafe | src/lib/lib_threading.c:175-213 | in every run nobody returns before all registered, nobody registers before all of the last round left, one serial result a round, the counter a 32-bit word, and every call of every thread is accounted for |
| Barriers.NoLostWakeup | src/lib/lib_threading.c:179-208 | all asleep means fewer than gatenum calls, all registered in the present round, spurious wakeups allowed |
| Barriers.LockCloser | src/lib/lib_threading.c:175-213 | each step of an awake thread brings the barrier closer to quiescence |
| Barriers.Quiesces | src/lib/lib_threading.c:175-213 | from every reachable state the threads alone get to fewer than gatenum calls, all asleep |
| Barriers.FlagCollision | src/lib/lib_threading.c:175-213 | a run that breaks the rounds for every gatenum beyond 2^31 |
| Barriers.SafeUpToTheFlag | src/lib/lib_threading.c:144-213 | every run keeps the rounds apart and accounts for every call if and only if gatenum is at most 2^31 |
| BlockingQueues.InvNext | src/cmp/cmp_predefs.h:111-161 | every send and receive step of one producer and one consumer keeps the ring and the sleepers consistent |
| BlockingQueues.StepAccounts | src/cmp/cmp_predefs.h:111-161 | a step adds the item of a send begun, and nothing else, to what was sent or is held |
| BlockingQueues.OneToOne | src/cmp/cmp_predefs.h:111-161 | in every run what was received, what is stored and what a waiting producer holds are the items that the callers gave, in order; every receive begun has its item or waits; nothing is overwritten or read empty, the two never both sleep |
| BlockingQueues.ResumeFinishes | src/cmp/cmp_predefs.h:111-161 | a caller that was woken finishes its call when it takes the mutex |
| BlockingQueues.TwoProducersFault | src/cmp/cmp_predefs.h:122 | a second producer takes the slot the first was woken for |
| BlockingQueues.TwoConsumersFault | src/cmp/cmp_predefs.h:149 | a second consumer takes the item the first was woken for |
| BlockingQueues.SpuriousFault | src/cmp/cmp_predefs.h:122-149 | a spurious wakeup breaks the queue between one producer and one consumer |
| BlockingQueues.SoundExactlyOneToOne | src/cmp/cmp_predefs.h:111-161 | in every run the items given arrive in order, none overwritten or read empty, if and only if there is one producer and one consumer |
| Heaps.UpStep | src/lib/lib_heap.c:36-42 | moving the parent down moves the only disorder up |
| Heaps.DownStep | src/lib/lib_heap.c:62-73 | moving the bigger child up moves the only disorder down |
| Heaps.RootIsGreatest | src/lib/lib_heap.c:46-74 | the front of a heap is a greatest element |
| Heaps.SiftUp | src/lib/lib_heap.c:36-42 | the hole-moving loop restores the heap and keeps the multiset |
| Heaps.SiftDown | src/lib/lib_heap.c:62-103 | the hole-moving loop restores order from the start index on, keeps the multiset and the rest of the array |
| Heaps.Heapify | src/lib/lib_heap.c:77-104 | starts inside the array if and only if it has two elements or more, and then makes it a heap that is a permutation of it; otherwise nothing is changed |
| Heaps.StartInside | src/lib/lib_heap.c:83 | the 32-bit start index is an index of the array if and only if there are at least two elements |
| Heaps.Heap.constructor | src/lib/lib_heap.c:12-20 | an empty heap of capacity 4 |
| Heaps.Heap.Push | src/lib/lib_heap.c:23-43 | adds exactly the value; a full array is doubled; capacity stays 4*2^k, 4 or less than four times the count; the copying is paid for |
| Heaps.Heap.Pop | src/lib/lib_heap.c:46-74 | removes exactly one maximum, under the same invariant; an array no more than a quarter full is halved, down to 4 |
| Heaps.Heap.Front | src/lib/lib_heap.c:46-74 | the front is a maximum of the contents |
| Heaps.Heap.CarriedBound | src/lib/lib_heap.c:23-60 | after n pushes and pops reallocation carried at most 2n live elements |
| Heaps.GrowArithmetic | src/lib/lib_heap.c:28-33 | a push costs at most two elements of credit, doubling included |
| Heaps.ShrinkArithmetic | src/lib/lib_heap.c:54-59 | so does a pop, halving included |
| Heaps.Drain | src/lib/lib_heap.c:46-74 | popping until empty yields the contents in non-increasing order |
| Heaps.PushAndDrain | src/lib/lib_heap.c:12-74 | pushing values and draining sorts them and carries at most four elements a value |
| Dictionaries.FillSlot | src/etc/etc_dict.c:264-275 | taking a free slot adds exactly one entry |
| Dictionaries.ClearSlot | src/etc/etc_dict.c:315-322 | freeing a slot removes exactly one entry |
| Dictionaries.DoubleSlots | src/etc/etc_dict.c:250-262 | doubling the arrays keeps the map |
| Dictionaries.SomeFree | src/etc/etc_dict.c:264-269 | fewer entries than slots leave a free slot |
| Dictionaries.Dictionary.constructor | src/etc/etc_dict.c:118-133 | an empty map in at least 128 slots |
| Dictionaries.Dictionary.Search | src/etc/etc_dict.c:181-193 | comparing hashes before keys finds exactly the key's slot |
| Dictionaries.Dictionary.Get | src/etc/etc_dict.c:176-194 | the entry, or the default for a key that is not there |
| Dictionaries.Dictionary.HasKey | src/etc/etc_iniparser.c:500-510 | true exactly for the keys of the map |
| Dictionaries.Dictionary.FreeSlot | src/etc/etc_dict.c:267-269 | probing with wrap-around terminates at a free slot |
| Dictionaries.Dictionary.Grow | src/etc/etc_dict.c:250-262 | twice the slots, the same entries in the same slots |
| Dictionaries.Dictionary.Set | src/etc/etc_dict.c:222-276 | the map with the key updated, for any hash function; -1 for a NULL key |
| Dictionaries.Dictionary.Unset | src/etc/etc_dict.c:289-324 | the map without the key; a missing or NULL key changes nothing |
| Dictionaries.RunDictionary | src/etc/etc_dict.c:118-324 | every run of set, unset and get answers as a partial map does |
| IniText.StripTrims | src/etc/etc_iniparser.c:74-92 | stripping takes away exactly the blanks at both ends |
| IniLines.BlanksAre | src/etc/etc_iniparser.c:80-88 | the six blanks of the C locale |
| IniLines.LowerCaseIs | src/etc/etc_iniparser.c:44-58 | capitals become the corresponding small letters, nothing else changes |
| IniText.SectionSurvives | src/etc/etc_iniparser.c:254 | a printed section line gives its name back if and only if the name is trimmed, lower case and free of ] |
| IniText.ValueSurvives | src/etc/etc_iniparser.c:580-596 | a printed value comes back and is not continued if and only if it is clean: trimmed, no comment sign, no final backslash, no opening quote that would be scanned |
| IniText.PairSurvives | src/etc/etc_iniparser.c:260-263 | a printed key line gives key and value back if and only if both are clean and the line is not in square brackets |
| IniLines.QuotedValue | src/etc/etc_iniparser.c:581-582 | in either quotes, the value is the text up to the closing quote, whatever follows, without the blanks around it; a pair of the other quotes is empty |
| IniLines.OpenQuote | src/etc/etc_iniparser.c:581-582 | without a closing quote the value goes on to the end of the line |
| IniLines.PlainValue | src/etc/etc_iniparser.c:583 | a plain value ends at a comment sign and loses the blanks before it; two quotes alone are empty |
| IniLines.EmptyValue | src/etc/etc_iniparser.c:596-607 | nothing, or a comment, after the equals sign is the empty value |
| IniLines.CommentExactly | src/etc/etc_iniparser.c:572-574 | a line is a comment if and only if its first character that is not blank is # or ; |
| IniLines.SectionLineMeans | src/etc/etc_iniparser.c:575-580 | a line in square brackets names a section up to the first closing bracket; an empty name keeps the present one |
| IniLines.ErrorExactly | src/etc/etc_iniparser.c:608-611 | a line is a syntax error if and only if it is not empty, no comment and no section, and has no equals sign or nothing before it |
| Ini.Strlwc | src/etc/etc_iniparser.c:44-58 | lower case, cut at the buffer's size |
| Ini.Strstrip | src/etc/etc_iniparser.c:74-92 | the string without the blanks around it |
| Ini.ScanLine | src/etc/etc_iniparser.c:555-613 | the status, section, key and value of a line |
| Ini.GetNsec | src/etc/etc_iniparser.c:112-126 | the number of entries without a colon |
| Ini.GetSecname | src/etc/etc_iniparser.c:142-163 | the n-th of them in slot order; none for any other number |
| Ini.DumpSection | src/etc/etc_iniparser.c:244-268 | nothing for an unknown section, else its header and exactly its keys, in slot order; none if and only if its name overruns the buffer |
| Ini.DumpIni | src/etc/etc_iniparser.c:206-230 | the whole file: every section, or the bare entries when there is none; none if and only if some section overruns the buffer |
| Ini.DumpBare | src/etc/etc_iniparser.c:215-222 | the file of a dictionary without sections |
| Ini.Chunk | src/etc/etc_iniparser.c:663 | what fgets reads: up to and with the first line end, unless the room or the file ends before |
| Ini.StoreLine | src/etc/etc_iniparser.c:695-722 | one pass of the switch on a dictionary does exactly what the line means for section, entries, error count and overrun |
| Ini.LoadIni | src/etc/etc_iniparser.c:629-730 | an overrun exactly for files that overrun the buffer, else NULL exactly for files that are refused, else a dictionary with exactly the file's entries, for any hash function |
| Ini.FailsExactly | src/etc/etc_iniparser.c:695-727 | a file whose lines are all read is refused if and only if it ends in a syntax error: one after which no line stores anything |
| Ini.ErrorsCount | src/etc/etc_iniparser.c:695-722 | the error count after the lines is non-zero if and only if they end in a syntax error |
| IniRoundTrip.ErrorForgotten | src/etc/etc_iniparser.c:698-703 | a file with a syntax error before its only value gives that value; the same two lines in the other order are refused |
| IniFiles.EntriesMean | src/etc/etc_iniparser.c:695-722 | the entries are those that the lines name under the section in force, each with what the last line to name it stores; the buffer is overrun if and only if some line is too long for it |
| IniFiles.LoadMeans | src/etc/etc_iniparser.c:629-730 | a file gives entries if and only if all its lines are read, fit and do not end in an error, and then those of its lines |
| IniFiles.NotReadOn | src/etc/etc_iniparser.c:663-676 | a line that ends neither in the buffer nor in the file stops the reading |
| IniFiles.OneLine | src/etc/etc_iniparser.c:663-722 | what a file of one line gives, for every kind of line |
| IniFiles.QuotedFile | src/etc/etc_iniparser.c:581-722 | a file with one quoted value gives the text between the quotes |
| IniFiles.BareRoundTrip | src/etc/etc_iniparser.c:215-222 | a dictionary without sections comes back with every entry as a key of the section with the empty name |
| IniFiles.SectionText | src/etc/etc_iniparser.c:253-267 | the text printed for a section |
| IniFiles.KeyLineColumns | src/etc/etc_iniparser.c:260-263 | a name of up to 30 characters is padded to 30, a longer one printed as it is |
| IniFiles.KeyLinesExactly | src/etc/etc_iniparser.c:256-265 | the printed keys of a section are those of its entries, each with its value |
| IniFiles.InSectionMeans | src/etc/etc_iniparser.c:255-263 | an entry belongs to a section if and only if its name is the section's, a colon and the key's |
| IniFiles.NameAt | src/etc/etc_iniparser.c:142-163 | the section in slot i is listed after exactly those in the slots before it |
| IniFiles.LowerCutMeans | src/etc/etc_iniparser.c:44-58 | names are looked up in lower case, by their first 1024 characters |
| IniFiles.LineLimit | src/etc/etc_iniparser.c:663-676 | a line that does not continue is read if and only if it has at most 1022 characters |
| IniRoundTrip.ReadsNext | src/etc/etc_iniparser.c:663-694 | a line that fits is taken with what was carried to it, without trailing blanks; carried on if and only if that ends with a backslash |
| IniRoundTrip.ReadsContinued | src/etc/etc_iniparser.c:684-691 | a line ending with a backslash and blanks is joined to the next one |
| IniRoundTrip.ReadsLines | src/etc/etc_iniparser.c:663-694 | printed lines that fit and do not continue are read one by one |
| IniRoundTrip.KeysStored | src/etc/etc_iniparser.c:256-265 | loading a section's printed keys stores all of them with their values and nothing else |
| IniRoundTrip.SectionsStored | src/etc/etc_iniparser.c:225-228 | loading all printed sections stores every one with its keys and nothing else |
| IniRoundTrip.RoundTrip | src/etc/etc_iniparser.c:206-268 | for every dictionary whose lines are printable, loading its dump gives the same sections, keys and values, NULL values as empty |
| IniRoundTrip.SaveAndLoad | src/etc/etc_iniparser.c:206-730 | the same for the dictionary objects, under two arbitrary hash functions |
| IntText.StrtolSound | src/etc/etc_argtable2.c:1840 | strtol takes the start of the string that is a number |
| IntText.StrtolComplete | src/etc/etc_argtable2.c:1840 | and all of it, whatever unit or blank follows |
| IntText.ReadFormSound | src/etc/etc_argtable2.c:1888-1958 | a text that is read is the text of the form it is read as |
| IntText.ReadFormComplete | src/etc/etc_argtable2.c:1888-1958 | every form is read back from its text, so the grammar is unambiguous |
| ArgInts.VerdictExactly | src/etc/etc_argtable2.c:1885-1967 | accepted if and only if the text is a form whose exact value fits an int, overflow if and only if it is one whose value does not, bad otherwise |
| ArgInts.ChecksDecide | src/etc/etc_argtable2.c:1928-1958 | the range checks before multiplying decide on the exact product, for saturated numbers too |
| IntRoundTrip.ScansWhatIsWritten | src/etc/etc_argtable2.c:1885-1967 | a number written in any format, with any signs, zeros, unit and blanks, is scanned as exactly its value times the power of 1024, or as an overflow if and only if that does not fit |
| IntRoundTrip.WrittenMeans | src/etc/etc_argtable2.c:1840 | reading the digits of a number written by repeated division gives the number |
| IntRoundTrip.ScanNumberText | src/etc/etc_argtable2.c:1885-1967 | scanning the decimal text of any integer stores that integer, or reports an overflow and changes nothing |
| ArgInts.Strtol0XInt | src/etc/etc_argtable2.c:1795-1850 | reads blanks, sign, prefix and number, or says that there is none |
| ArgInts.DetectSuffix | src/etc/etc_argtable2.c:1855-1882 | true exactly for the suffix in any case followed by blanks only |
| ArgInts.ScanNumber | src/etc/etc_argtable2.c:1906-1926 | the first of the four formats that fits |
| ArgInts.ScanText | src/etc/etc_argtable2.c:1902-1958 | the verdict, and the exact value of an accepted text |
| ArgInts.ArgInt.constructor | src/etc/etc_argtable2.c:2027-2070 | the maximum is never below the minimum |
| ArgInts.ArgInt.Scan | src/etc/etc_argtable2.c:1885-1967 | stores the exact value and counts it, or returns the error and changes nothing; a missing optional text is only counted |
| ArgInts.ArgInt.Check | src/etc/etc_argtable2.c:1969-1974 | no error if and only if the count lies within its bounds |
| ArgTables.RegisteredAllMeans | src/etc/etc_argtable2.c:53-69 | below the cap every error is kept in order, above it the last place says that there were more |
| ArgTables.Owners | src/etc/etc_argtable2.c:385-431 | owners are table entries from the starting one on, no more of them than arguments |
| ArgTables.GreedyExactly | src/etc/etc_argtable2.c:385-431 | an assignment is greedy (each argument to the first entry from the last owner on that accepts it, the next one refused by all) if and only if it is the computed one |
| ArgTables.OwnersOrdered | src/etc/etc_argtable2.c:385-431 | arguments go to entries in table order |
| ArgTables.GivenShares | src/etc/etc_argtable2.c:408-416 | every entry gains exactly the arguments it owns, in order |
| ArgTables.Accounted | src/etc/etc_argtable2.c:377-450 | every argument is accepted by one entry or named by one error, in order |
| ArgTables.ArgTable.Register | src/etc/etc_argtable2.c:53-69 | appends the error or, at the cap, overwrites the last one |
| ArgTables.ArgTable.Match | src/etc/etc_argtable2.c:377-431 | the loop terminates with the greedy assignment and the last refusal as tentative error |
| ArgTables.ArgTable.ParseUntagged | src/etc/etc_argtable2.c:377-450 | assigns and accounts for every argument and consumes them all |
| ArgTables.ArgTable.ParseTagged | src/etc/etc_argtable2.c:287-366 | scans each option found; missing arguments, unknown options and refusals become errors |
| ArgTables.ArgTable.ParseCheck | src/etc/etc_argtable2.c:455-475 | registers exactly the entries that have too few arguments, in table order |
| ArgTables.ArgTable.Parse | src/etc/etc_argtable2.c:492-553 | the whole parse; counts are checked only when there is no error |
| ArgTables.ParsedClean | src/etc/etc_argtable2.c:492-553 | no error if and only if every option was fine, every argument has an owner and no checked entry misses one; then all counts lie within their bounds |
| ArgTables.TaggedWithinMax | src/etc/etc_argtable2.c:287-366 | no entry ever holds more than its maximum |
| ArgTables.OptionsMean | src/etc/etc_argtable2.c:287-366 | each entry holds the options it accepted, in the order found; each option's errors (unknown, value missing, refused) are registered with their codes and entries, in order |
| ArgTables.MissingExactly | src/etc/etc_argtable2.c:455-475 | missing arguments are reported for exactly the entries with too few, once each, in table order |
| ArgTables.ParsedMeans | src/etc/etc_argtable2.c:492-553 | after the whole parse each entry holds its options and then its arguments; the errors are those of options and arguments, or else those of the counts |
| ArgTables.IntEntryDisciplined | src/etc/etc_argtable2.c:1889-1893 | the integer scanner refuses an argument beyond its maximum |

## Left out

- Doubles: the percentile's ratios are compared by integer cross-multiplication, with x/0 larger than the target; for int32 counts and p in 10..90 both decide alike. The clock is an integer number of milliseconds that never runs backwards.
- The window's item recycling and its plugin list: items are values, and the calls every plugin receives are a log. The recycled tree nodes are a sequence instead of a ring.
- The callbacks behind the plugins, the duplicate notifier, `bintree_reset` (inconsistent as written), tree printing.
- Memory: allocation failure, destructors and free.
- 32-bit overflow of counters, sizes and the heap's capacity; only the barrier's counter, the sum and the integer scanner model the machine width.
- PercentileRuns.RunPercentile: is about runs with safe removals, since the code goes wrong on others (`DuplicateRun`, `DriftRun`); whether it does on a given unsafe removal depends on the shape of the trees, and `RemPipe` says how.
- The data pointers the percentile publishes when equal keys are split over both trees: only their keys are proved right.
- Barriers.RoundsAreSafe: is about 1 to 2^31 participants; `barrier_dtor` is not modelled.
- BlockingQueues.OneToOne: the ring is its sequence of items (`Puffers` proves that of the array), and thread start and stop are not modelled.
- Heaps.Heapify: says nothing about what the source does once it starts outside the array.
- IniRoundTrip.RoundTrip: states that printable dictionaries come back; that no other dictionary does is proved line by line (`SectionSurvives`, `PairSurvives`) and not for whole files. The section with the empty name is not counted as printable.
- Ini.DumpBare: prints "(null)" for a NULL value, where the source passes NULL to %s.
- Ini.LoadIni: a line of blanks only is not continued, whatever character precedes the buffer; after an overrun of a buffer nothing is said.
- Ini.DumpSection: says where the section's name overruns its buffer, and not what happens then.
- Characters are those of the C locale, and strings hold no NUL.
- ArgTables.ArgTable.ParseTagged: the options found by getopt_long are an input, and so is where the remaining arguments start; the getopt tables and allocation errors are not modelled.
- ArgTables.ArgTable.Parse: takes these as inputs too.
- The other argument types of argtable (double, string, file, date, regex): their scan functions are the parameter `scan` of an entry.
- The body of `dictionary_hash`: any function will do. Growing past what a 32-bit size can hold.
- `mdatapuffer`, `lib_queue.c`, `lib_vector.c`, `dmap.c`, the two-state `fsm`, component constructor macros, threads, sockets, files, signals, logging, getopt, regex, endianness helpers: easy members, I/O or code whose intent is unclear.
