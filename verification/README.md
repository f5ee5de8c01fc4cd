# MergeBot, verified

MergeBot resolves merge conflicts in C and C++ projects. A chain of handlers takes the conflict blocks of each file
and records a resolution for those its heuristics can settle. This project models the parts of MergeBot whose
correctness is hardest to see from the code, and proves for each what it is there for, over all inputs, all runs or all
reachable states. `dafny verify dfyconfig.toml` checks everything.

| part of MergeBot | Dafny files |
|---|---|
| order-preserving merge of two lists through a dependency graph | `Seqs`, `StringOrder`, `Digraph`, `DependencyGraphs`, `ListMerge` |
| the thread pool that runs merge requests | `ThreadPool` |
| SHA-1, whose checksums name projects and merge scenarios | `Sha1Spec`, `Sha1Example`, `Sha1`, `HexPrint` |
| three-way merge of semantic trees, and the matching it starts from | `TreeMergeSpec`, `MergeRun`, `MergeExamples`, `TreeMerge`, `TopDownMatch`, `StrVecUnion` |
| the handler chain and its bookkeeping | `HandlerChain` |
| string similarity | `Levenshtein`, `Cosine` |
| reading conflict blocks out of a conflicted file | `ConflictText`, `ConflictScan`, `ConflictStyle` |
| URIs and message framing for the language server | `Strings`, `Uri`, `FrameSpec`, `FrameLoss`, `Framing` |

Code that changes things step by step is modelled by methods and classes that change them the same way, each proved
against a function or predicate about which the lemmas speak. The thread pool is a transition system in which every
statement around the mutex and the condition variable is a step of its own.

## Results

* **List merge.** `mergeVectors` succeeds exactly when no two elements stand in opposite order in the two lists *and* no
  pair is adjacent, in the same order, in both. The result is the lexicographically greatest list that keeps both
  orders, so it depends neither on hash order nor on the order of the arguments. The second condition comes from
  `addEdge`, which counts an edge that it does not store twice: two equal lists of two or more elements are refused
  (`SameListIsRefused`), although a common order exists.
* **Thread pool.** In every interleaving, spurious wake-ups included, no task waits while all workers sleep; the ring
  buffer is a bounded queue that serves in order; after a graceful destroy every accepted task has run exactly once.
  Without further calls every run is finite. It ends exactly when the pool rests or `threadpool_destroy` has returned.
  In the second case `threadpool_free` has taken the mutex once more and never gives it back (line 144), so a
  `threadpool_add` that waits then, or comes later, never returns: an add returns if and only if it gets the lock before
  that (`AddReturnsIff`; `SomeAddHangs` is a run in which one hangs). A waiting add is sure to return if and only if
  `threadpool_destroy` has not been called, and can still return if and only if it has not returned.
* **SHA-1.** For every message and every way to cut it into `update` calls, `final` prints the digest that FIPS 180-4
  defines, and the object is ready for the next message. The message length is taken modulo 2^64 bits as the code does;
  below 2^61 bytes that is the standard's own length.
* **Tree merge.** The calls of `mergeSemanticNode` in a run are its paths: a translation unit, then at every level the
  number of a child. The base graph is described exactly whenever the run comes to a call (`Reached`). Matchings are
  hash tables over signatures, and the merge rewrites names and bodies from which the signatures of base nodes are
  computed, so a lookup finds what sits in the bucket looked at and compares equal at that moment. For every well-formed
  input, `threeWayMerge` goes through with each base node called for once and every such lookup finding its own node, or
  comes to a first call where that fails, and the first case is characterised exactly (`ThreeWayMerge`, `AllSmoothIff`):
  a base node is called for twice if and only if two different nodes that the run visits, under whatever parents, stand
  for it (`OnceIff`). A text that one side copies is enough (`CopiedTextIsMergedTwice`), and a second merge, where it
  finds the node again, puts back the base version of every text that only one side changed (`MergedAgainReverts`). In a
  run that goes through, each node is rewritten by its only call or not at all, lists no child twice, and has the
  leading side's survivors in their order. They are the ones expected if and only if no child is a copy of a matched
  node (`KeptIff`). A node that only the other side added arrives if and only if its parent, looked up by its new
  signature, is found as itself, and no equal node was added under what the other lookup finds (`ArrivesIff`); that
  lookup is sure to find the parent if and only if the new signature keeps its bucket and no other node has it then
  (`LookupIff`). So a namespace that one side renames loses what the other adds to it (`RenamedNamespaceLosesFunction`).
  An added node stands directly behind its nearest earlier sibling if that is in the list, otherwise directly before its
  nearest later one, otherwise last (`InsertedBehind`, `InsertedInFront`, `InsertedAtEnd`). Every text is settled
  between the three versions (`EndTexts`); lists of parameters and declarations are joined, so that nothing can be
  deleted from them, and what theirs alone puts in front of such a list ends up behind it (`TheirInsertion`).
* **Handler chain.** Every index of every resolution file is at any time either pending or recorded, exactly as often as
  at the start; what is left in the end is exactly what every handler that ran refuses; the counts that `handle` reports
  are the resolutions recorded. Recorded and pending indices never overlap if and only if the indices under that
  resolution file were different to begin with. They are for a file with a resolution file of its own, but paths such as
  `a/b` and `a@b` share one (`NamesCollide`).
* **Similarity.** The table of `levenshtein_distance` holds the cost of the cheapest edit script, a metric. The cosine
  of k-gram profiles lies between 0 and 1 and its zero-norm branch cannot be reached.
* **Reading back.** A URI is read back from its text exactly when its scheme is valid and it has no authority, or one
  without a slash before a body that starts with a slash. Whatever the kernel does with the reads of a non-blocking
  pipe, the messages received are the first of those sent, in order and unaltered. None is lost if the kernel blocks
  only between frames or, within the retries of the code, in their content; a block inside a header drops what was read
  of it, and reception stops for good at the next call that completes (`BlockInHeaderStops`). The content of a message
  comes if and only if its first bytes come within seven tries and the rest with at most three blocks. The blocks and
  sides found in a rendered conflict file are the ones that were rendered. The handlers take the style of the first
  block for that of all blocks: our side of a block is seen exactly if and only if it has that style, or is empty and
  taken for a block with ancestor (`SidesSeenIff`).

## Model

| member | source | states |
|---|---|---|
| DependencyGraphs.DependencyGraph.AddNode | include/mergebot/utils/stringop.h:368-375 | a node is added, without edges, exactly if it was not there |
| DependencyGraphs.DependencyGraph.AddEdge | include/mergebot/utils/stringop.h:377-384 | refused exactly if an end is missing; the successor is stored once but the in-degree grows every time; no in-degree ever falls below the number of distinct predecessors |
| DependencyGraphs.DependencyGraph.HasCycleDFS | include/mergebot/utils/stringop.h:347-366 | a hit is a directed cycle; otherwise the node and all it reaches are finished and carry a ranking that decreases along every edge, and the path is restored |
| DependencyGraphs.DependencyGraph.HasCycle | include/mergebot/utils/stringop.h:386-398 | true if and only if the graph has a directed cycle |
| DependencyGraphs.Kahn | include/mergebot/utils/stringop.h:408-431 | on an acyclic graph all nodes come out if and only if the in-degrees are exact, and then in the greatest linear extension |
| DependencyGraphs.DependencyGraph.TopologicalSort | include/mergebot/utils/stringop.h:400-432 | succeeds if and only if the graph is acyclic and every in-degree is the number of distinct predecessors; the result is then the lexicographically greatest of all linear extensions |
| Digraph.GreedyIsGreatest | include/mergebot/utils/stringop.h:408-431 | a list that always takes the greatest available node beats every other linear extension |
| Digraph.GreatestIsUnique | include/mergebot/utils/stringop.h:400-432 | there is only one greatest linear extension, so hash order cannot show |
| Digraph.ExtensionImpliesAcyclic | include/mergebot/utils/stringop.h:386-398 | a graph with a linear extension has no cycle |
| ListMerge.MergeVectors | src/core/handler/TextBasedHandler.cpp:237-302 | succeeds if and only if no shared pair is inverted and no adjacent pair is shared; the result is duplicate-free, has exactly the elements of both lists, contains the first occurrences of each as a subsequence, and is the greatest such list; on failure it is empty |
| ListMerge.MergeIsSymmetric | src/core/handler/TextBasedHandler.cpp:237-302 | whatever `mergeVectors` may return for (A, B) and for (B, A), the flags and the lists are equal |
| StringOrder.LessIff | include/mergebot/utils/stringop.h:408 | the order of the heap is that of dictionaries: a proper prefix is smaller, otherwise the first character that differs decides |
| ListMerge.UnorderedEntries | src/core/handler/TextBasedHandler.cpp:237-302 | merging `a` with `b` gives `b`, `a` |
| ListMerge.NoInversionAcyclic | src/core/handler/TextBasedHandler.cpp:262-290 | two chains that agree on the order of their common elements form no cycle |
| ListMerge.ExactIffNoSharedStep | src/core/handler/TextBasedHandler.cpp:262-290 | the in-degrees of the two chains are exact if and only if no step occurs in both |
| ListMerge.OrderedListsMergeIffNoSharedStep | src/core/handler/TextBasedHandler.cpp:237-302 | among lists that do have a common order, exactly those without a shared adjacent pair are merged |
| ListMerge.SameListIsRefused | src/core/handler/TextBasedHandler.cpp:237-302 | a list of two or more different elements has a common order with itself and is refused |
| Seqs.KeepFirst | src/core/handler/TextBasedHandler.cpp:246-260 | the loop over a set of seen strings keeps the first occurrences, in order |
| Seqs.DedupFirstOccurrences | src/core/handler/TextBasedHandler.cpp:246-260 | the kept elements stand at strictly increasing indices, each the first of its element |
| ThreadPool.InitialInv | src/utils/ThreadPool.cpp:21-53 | a created pool, with replaced arguments where they are out of range, satisfies the invariant |
| ThreadPool.Created | src/utils/ThreadPool.cpp:21-53 | threads and capacity are those asked for if both are in range, otherwise 4 and 1024 |
| ThreadPool.StepKeepsInv | src/utils/ThreadPool.cpp:55-181 | every step of a worker, an adder or the destroyer keeps mutual exclusion, the ring buffer, the count of started threads, the account of every task and the absence of lost wake-ups |
| ThreadPool.ReachableInv | src/utils/ThreadPool.cpp:21-181 | the invariant holds in every reachable state |
| ThreadPool.NoTaskSleeps | src/utils/ThreadPool.cpp:157-177 | while the pool runs, the lock is free and some worker is blocked, there are no more tasks than woken workers; if all are blocked there is no task |
| ThreadPool.BufferRefinesQueue | src/utils/ThreadPool.cpp:62-80 | every step is a step of a bounded queue: an accepted task goes to the back, a taken one comes from the front, nothing is accepted when full or after shutdown |
| ThreadPool.OutcomeOfCall | src/utils/ThreadPool.cpp:55-94 | in every reachable state, a call of `threadpool_add` about to return success, a full queue or a shutdown has itself tested the pool in a reachable state: the queue was full then, or it was not and the pool had been shut down, or else its task, and nothing else, was accepted, and stays at that place |
| ThreadPool.DestroyRunsEverything | src/utils/ThreadPool.cpp:100-148 | when destroy has returned the pool is freed, all threads are gone, `started` is 0 and every task taken has run once; after a graceful shutdown these are all tasks ever accepted |
| ThreadPool.RunsAreShort | src/utils/ThreadPool.cpp:55-181 | without new calls and spurious wake-ups every run is finite, bounded by a measure of the state |
| ThreadPool.HolderMoves | src/utils/ThreadPool.cpp:55-181 | until destroy has returned, whoever holds the lock can go on |
| ThreadPool.FinishedIsStuck | src/utils/ThreadPool.cpp:132-148 | once destroy has returned it still holds the lock, and nothing can move any more |
| ThreadPool.StuckIff | src/utils/ThreadPool.cpp:55-181 | nothing can move if and only if all workers sleep and no call is under way, or destroy has returned |
| ThreadPool.StuckMeansDrained | src/utils/ThreadPool.cpp:55-181 | then every add has returned, or waits for the lock after destroy has returned; unless the pool was shut down at once, every accepted task has run exactly once |
| ThreadPool.LateAddHangs | src/utils/ThreadPool.cpp:58-144 | an add that waits for the lock when destroy returns waits in every later state of every run |
| ThreadPool.AddReturnsIff | src/utils/ThreadPool.cpp:55-148 | when the pool has stopped, a waiting add has returned if and only if it got the lock, which is before destroy took it for good |
| ThreadPool.SureToReturnIff | src/utils/ThreadPool.cpp:55-92 | a call of `threadpool_add` that waits for the lock returns in every run of the pool to a stop, if and only if `threadpool_destroy` has not been called |
| ThreadPool.CanReturnIff | src/utils/ThreadPool.cpp:140-148 | it returns in some run if and only if `threadpool_destroy` has not returned |
| ThreadPool.SomeAddHangs | src/utils/ThreadPool.cpp:58-144 | a reachable state in which an add hangs for ever |
| Sha1.R0 | include/mergebot/utils/sha1.h:86-91 | with its renamed variables, one step of rounds 0-15 |
| Sha1.R1 | include/mergebot/utils/sha1.h:93-99 | one step of rounds 16-19, the circular block moving on by one word |
| Sha1.R2 | include/mergebot/utils/sha1.h:101-107 | one step of rounds 20-39 |
| Sha1.R3 | include/mergebot/utils/sha1.h:109-115 | one step of rounds 40-59, the majority written with or instead of exclusive or |
| Sha1.R4 | include/mergebot/utils/sha1.h:117-123 | one step of rounds 60-79 |
| Sha1.BlkIsSchedule | include/mergebot/utils/sha1.h:76-80 | `blk` on the 16-word circular block yields the word of the 80-word schedule |
| Sha1.Transform | include/mergebot/utils/sha1.h:129-229 | the unrolled 80 rounds compute the compression of section 6.1.2 of FIPS 180-4, for every digest and block |
| Sha1.BufferToBlock | include/mergebot/utils/sha1.h:231-239 | the block holds the big-endian words of the buffer |
| Sha1.SHA1.Update | include/mergebot/utils/sha1.h:243-262 | the message absorbed grows by the stream, however it falls on block borders |
| Sha1.SHA1.LastBlocks | include/mergebot/utils/sha1.h:279-291 | one or two last blocks, as section 5.1.1 of FIPS 180-4 pads what is left |
| Sha1.SHA1.Final | include/mergebot/utils/sha1.h:267-304 | prints the SHA-1 digest of everything absorbed, in five words of eight digits, and is ready for a new message |
| Sha1.DigestOfPieces | include/mergebot/utils/sha1.h:243-304 | for every split of a message into updates, the digest of the whole |
| Sha1Example.DigestOfAbc | include/mergebot/utils/sha1.h:96-251 | the digest of `abc` is the one that FIPS 180 prints, so the definition used here is the standard's |
| Sha1.OneBlockTail | include/mergebot/utils/sha1.h:267-291 | up to 55 bytes left: padding and length fit into one block |
| Sha1.TwoBlockTail | include/mergebot/utils/sha1.h:281-287 | from 56 bytes on: one block of padding, then one of zeros and the length |
| Sha1.FinalHash | include/mergebot/utils/sha1.h:267-304 | hashing the padded rest from the current digest is hashing the padded message |
| HexPrint.HexWordReadsBack | include/mergebot/utils/sha1.h:293-299 | every word is printed in eight digits that read back as the word |
| HexPrint.HexDigestReadsBack | include/mergebot/utils/sha1.h:295-298 | forty digits; digits 8i to 8i + 7 read back as the i-th word |
| TopDownMatch.Match | src/core/semantic/GraphMatcher.cpp:20-50 | base and revision nodes are matched exactly if they are the last relevant ones of the same signature; all other relevant base nodes are deleted ones, all other revision nodes added ones, each once; the matching is one to one |
| TopDownMatch.MatchIsOneToOne | src/core/semantic/GraphMatcher.cpp:37-49 | the matching is one to one in both directions, no added node is matched, and no two matched nodes share a signature |
| TopDownMatch.NothingLost | src/core/semantic/GraphMatcher.cpp:23-36 | if no two relevant nodes share a signature, every one of them is indexed |
| TreeMerge.GraphMerger.MergeSemanticNode | src/core/semantic/GraphMerger.cpp:94-266 | called where a run has come to, for any well-formed input: the node is given up if one side lacks it; otherwise it and all that is called for below it are rewritten and the run stands before the next call; or the run stops at the first call for a node already rewritten or whose lookups may find another node |
| TreeMerge.GraphMerger.DirectMergeChildren | src/core/semantic/GraphMerger.cpp:391-570 | when all children of the leading node have been merged, the list is one that comes of what the two lookups of the rewritten parent may find at that moment; in both orders of favour |
| TreeMerge.GraphMerger.ThreeWayMerge | src/core/semantic/GraphMerger.cpp:72-92 | the run goes through if and only if every call is the first for its node and its lookups can find nothing else; then the base graph is the one that all calls bring about and the surviving units are returned in order; otherwise it is left as it is at the first call that is not so |
| TreeMerge.SurvivingUnits | src/core/semantic/GraphMerger.cpp:72-92 | the units returned are those that both sides kept, in their order |
| TreeMerge.GraphMerger.FilterAddedNodes | src/core/semantic/GraphMerger.cpp:572-599 | the parent is looked up by the signature it has now; the added nodes whose parent compares equal to the match of what was found, in ascending order |
| TreeMerge.RemoveDuplicates | src/core/semantic/GraphMerger.cpp:601-614 | the nodes that share no signature with the other list, in order |
| TreeMerge.GetNeighbors | src/core/semantic/GraphMerger.cpp:616-650 | the nearest siblings before and after that are no orphan comments |
| TreeMerge.GraphMerger.InsertAdded | src/core/semantic/GraphMerger.cpp:529-567 | each node goes behind its previous sibling, else before its next one, else to the end; merged base nodes are compared by their new text |
| TreeMergeSpec.InsertedBehind | src/core/semantic/GraphMerger.cpp:545-552 | an added node stands directly behind the first equal, in the list, of its nearest earlier sibling that is no orphan comment |
| TreeMergeSpec.InsertedInFront | src/core/semantic/GraphMerger.cpp:554-563 | if there is none, directly before the first equal of its nearest later sibling that is no orphan comment |
| TreeMergeSpec.InsertedAtEnd | src/core/semantic/GraphMerger.cpp:565-566 | if there is neither, last |
| TreeMergeSpec.InsertedLast | src/core/semantic/GraphMerger.cpp:531-536 | a node that is not found among its siblings stands last |
| TreeMergeSpec.InsertedInTurn | src/core/semantic/GraphMerger.cpp:529-567 | added nodes are inserted one after the other |
| TreeMergeSpec.MergedInTurn | src/core/semantic/GraphMerger.cpp:488-570 | the merged list is the survivors, with exactly the new nodes inserted in the order of their IDs |
| MergeRun.LookupsInState | include/mergebot/core/model/mapping/TwoWayMatching.h:15-19 | in every state that a run reaches, a lookup may find exactly the nodes in the bucket whose signature, new if they were rewritten before and old if not, is the one looked for |
| MergeRun.EnterCall | src/core/semantic/GraphMerger.cpp:106-251 | rewriting the fields of the node called for takes the base graph from the call to its first child |
| MergeRun.LeaveCall | src/core/semantic/GraphMerger.cpp:253-266 | completing the node behind its last child takes the base graph to the next call; no other call so far rewrote that node |
| MergeRun.OnceIff | src/core/semantic/GraphMerger.cpp:500-515 | no base node is called for twice in a run if and only if no two different visited nodes of the leading side stand for one that survives, wherever they are |
| MergeRun.AllSmoothIff | src/core/semantic/GraphMerger.cpp:94-105 | all calls are smooth if and only if no base node is called for twice and no lookup of one not yet rewritten may find another |
| MergeRun.SmoothIff | src/core/semantic/GraphMerger.cpp:72-92 | where no node has or gets the signature of another in its bucket, all calls are smooth if and only if the run visits no twins |
| MergeRun.EndState | src/core/semantic/GraphMerger.cpp:72-92 | after a run that goes through, every node that was called for and survives is what its only call makes of it, all others are unchanged |
| MergeRun.EndTexts | src/core/semantic/GraphMerger.cpp:106-251 | in that state every comment, signature, name and body is settled: as the other side has it where one side left it as it was, otherwise as git merges it; the parts of a signature that both sides changed are settled one by one; access is ours, line breaks come from the child or from theirs |
| MergeRun.MergedContent | src/core/semantic/GraphMerger.cpp:488-570 | in that state every merged composite node lists no child twice, and lists exactly what its two lookups bring about |
| MergeRun.ListedAreMerged | src/core/semantic/GraphMerger.cpp:500-515 | every base node listed as a child was merged by a call of its parent |
| MergeRun.SecondCall | src/core/semantic/GraphMerger.cpp:94-105 | a second call for a node finds its rewritten text, and finds the node again if and only if the new signature keeps its bucket |
| TreeMergeSpec.MergedAgainReverts | src/core/semantic/GraphMerger.cpp:268-280 | a comment, signature, name or body that at most one side changed is the base version again after a second merge |
| MergeRun.LookupIff | src/core/semantic/GraphMerger.cpp:583-584 | when the children have been merged, the lookup of the rewritten parent is sure to find it if and only if its new signature stays in its bucket and no other node there has it at that moment |
| TreeMergeSpec.ListedTwiceIff | src/core/semantic/GraphMerger.cpp:500-515 | one list of children has a base node twice if and only if two of the children stand for it |
| TreeMergeSpec.SurvivorsContent | src/core/semantic/GraphMerger.cpp:498-521 | exactly the children that stand for no base node, and the surviving base nodes for which a child stands |
| TreeMergeSpec.SurvivorsInOrder | src/core/semantic/GraphMerger.cpp:498-521 | what is listed for an earlier child stands before what is listed for a later one |
| TreeMergeSpec.KeptIff | src/core/semantic/GraphMerger.cpp:498-521 | these are the unmatched children and the surviving base nodes matched with the others, if and only if no child is a copy of a matched node |
| TreeMergeSpec.MergedChildrenContent | src/core/semantic/GraphMerger.cpp:488-570 | whatever the lookups find: the list keeps what the first phase lists, in order, has besides exactly the nodes new under what was found, and has duplicates if and only if two children stand for one base node |
| TreeMergeSpec.ArrivesIff | src/core/semantic/GraphMerger.cpp:523-567 | a node that only the other side added under the parent arrives if and only if the lookup in that side's table found the parent, and no equal node was added under what the leading lookup found |
| MergeExamples.RenamedNamespaceLosesFunction | src/core/semantic/GraphMerger.cpp:243-259 | a run that goes through, in which a namespace renamed by one side loses the function added by the other |
| MergeExamples.CopiedTextIsMergedTwice | src/core/semantic/GraphMatcher.cpp:31-49 | a text that one side copies into a namespace: nothing clashes and no siblings are twins, but the base text is merged twice and listed under two parents, and the copy is not listed |
| TreeMergeSpec.NewFollowersContent | src/core/semantic/GraphMerger.cpp:523-526 | inserted nodes are those added under what the following lookup found that share no signature with a node added under what the leading lookup found |
| TreeMergeSpec.FinalTextSettled | src/core/semantic/GraphMerger.cpp:106-251 | the text of a merged node, field by field: settled between ours, base and theirs; a unit's front declarations are those of all three versions, so that none can be deleted, and its guards are ours |
| TreeMergeSpec.SignatureIsSettled | src/core/semantic/GraphMerger.cpp:124-211 | the parts of a signature are merged one by one if and only if both sides changed it: texts are settled, parameters and initialisers joined, and a special member with a body is plain; otherwise they stay and are marked as unused |
| StrVecUnion.UnionContent | src/core/semantic/GraphMerger.cpp:653-695 | what the loops compute, stale positions included, has every string of the three lists once and keeps the first list's order |
| StrVecUnion.BlockIsInserted | src/core/semantic/GraphMerger.cpp:669-684 | strings not in the first list go together, as a block, behind the place in the first list of the shared string before them, or where the last loop left off |
| StrVecUnion.TheirInsertion | src/core/semantic/GraphMerger.cpp:669-690 | strings that theirs alone inserts stay where they are, except that in front of the list they are put behind it, because the position is not set back for the third list |
| StrVecUnion.MergeStrVecByUnion | src/core/semantic/GraphMerger.cpp:653-695 | no duplicates, exactly the elements of the three lists, and restricted to the first list it is that list de-duplicated |
| StrVecUnion.Weave | src/core/semantic/GraphMerger.cpp:669-690 | every insertion is in range although the recorded positions are never updated |
| HandlerChain.TidyBlocks | src/core/sa_utility.cpp:216-231 | the unresolved blocks, in order |
| HandlerChain.TidyUp | src/core/sa_utility.cpp:309-331 | resolved files go, the others keep their unresolved blocks |
| HandlerChain.Chain.Marshal | src/core/sa_utility.cpp:333-382 | the indices are appended to those of the resolution file, which is created if it was missing or unreadable |
| HandlerChain.Chain.ProcessFile | src/core/handler/StyleBasedHandler.cpp:53-120 | accepted blocks are flagged and reported; the file is resolved if all its blocks are; something was resolved if and only if a block was reported |
| HandlerChain.Chain.ResolveConflictFiles | src/core/handler/TextBasedHandler.cpp:574-656 | every index stays accounted for exactly as often as before, records only grow at their end, every file is left with the blocks that the handler refuses, and as many blocks go as resolutions come |
| HandlerChain.Chain.HandleFrom | include/mergebot/core/handler/SAHandler.h:46-72 | the same for the rest of the chain: what is left is what all handlers refuse that come before the first one told to skip |
| HandlerChain.ActiveUntilSkip | include/mergebot/core/handler/SAHandler.h:46-72 | the handlers that run are those in a row up to the first one told to skip |
| HandlerChain.Chain.CountConflictBlocks | src/core/HandlerChain.cpp:24-29 | the number of pending blocks |
| HandlerChain.Chain.Handle | include/mergebot/core/HandlerChain.h:27-45 | over a whole run nothing is lost or counted twice, what is left is what all active handlers refuse, and the reported difference is the number of resolutions recorded |
| HandlerChain.SplitConserves | src/core/sa_utility.cpp:216-231 | the accepted and the kept indices of a file are its indices, as multisets |
| HandlerChain.HandlerConserves | src/core/handler/StyleBasedHandler.cpp:52-131 | over any choice of files, what a handler takes and what it leaves open is what was pending, as multisets |
| HandlerChain.RecordedAndPendingPartition | src/core/sa_utility.cpp:358-372 | from no earlier record on, recorded and pending indices of a resolution file are the original ones together; they have no duplicates and do not overlap if and only if the original ones were different |
| HandlerChain.OwnKey | src/core/handler/StyleBasedHandler.cpp:123-129 | the indices of a file with a resolution file of its own are those of its blocks |
| HandlerChain.NamesCollide | src/core/sa_utility.cpp:384-395 | `a/b` and `a@b` share a resolution file, and a block 1 of both comes twice |
| HandlerChain.DroppedIsRecorded | include/mergebot/core/HandlerChain.h:27-45 | for one handler, the drop in pending blocks is the growth in recorded resolutions |
| HandlerChain.UnresolvedIsRefused | src/core/handler/StyleBasedHandler.cpp:57-120 | the blocks kept are those the handler refuses, in order |
| Levenshtein.LevenshteinDistance | src/utils/similarity.cpp:14-32 | the last cell of the table is the distance |
| Levenshtein.DistanceIsMinimal | src/utils/similarity.cpp:14-32 | some edit script costs exactly the distance and none costs less |
| Levenshtein.Symmetric | src/utils/similarity.cpp:14-32 | the distance is symmetric |
| Levenshtein.ZeroIffEqual | src/utils/similarity.cpp:14-32 | it is zero if and only if the strings are equal |
| Levenshtein.Triangle | src/utils/similarity.cpp:14-32 | it satisfies the triangle inequality |
| Levenshtein.AtMostLonger | src/utils/similarity.cpp:14-32 | it lies between the difference of the lengths and the longer length |
| Levenshtein.StringLevenshtein | src/utils/similarity.cpp:76-79 | one minus the distance over the longer length, not a number if that is 0 |
| Levenshtein.SimilarityBounds | src/utils/similarity.cpp:76-79 | not a number if and only if both strings are empty; otherwise between 0 and 1, and 1 if and only if they are equal |
| Cosine.GetProfile | src/utils/similarity.cpp:34-45 | every k-gram of the collapsed string is counted as often as it occurs, and the counts sum to its length - k + 1; it throws if and only if k is negative |
| Cosine.CollapsePlain | src/utils/similarity.cpp:38 | text without white space stays as it is |
| Cosine.CollapseRun | src/utils/similarity.cpp:38 | a whole run of white space becomes one space, whatever stands around it |
| Cosine.OccurrencesCount | src/utils/similarity.cpp:40-43 | occurrences are the number of positions at which the k-gram stands |
| Cosine.NormSquared | src/utils/similarity.cpp:47-53 | the sum of the squared counts |
| Cosine.CauchySchwarz | src/utils/similarity.cpp:91-107 | the squared dot product of two profiles is at most the product of their squared norms |
| Cosine.StringCosine | src/utils/similarity.cpp:73-108 | fails exactly on empty or too short strings and for a negative k; otherwise the dot product is the sum over all k-grams of the product of their occurrences in the two collapsed strings, the squared norms are the same sums of each string with itself, and they are positive |
| Cosine.CosineInUnitInterval | src/utils/similarity.cpp:100-107 | with exact square roots the divisor is positive and the cosine lies between 0 and 1 |
| ConflictScan.ConstructConflictFile | src/core/sa_utility.cpp:179-214 | for every text, it runs off the text if and only if a block is open at a last line that is not ended; otherwise the blocks of the text, line by line, numbered from 1 |
| ConflictScan.FindBlockEnd | src/core/sa_utility.cpp:197-211 | the end of the next line that starts with the end marker, if there is one; or it runs off behind a last line that is not ended |
| ConflictScan.ExtractCode | src/core/sa_utility.cpp:417-435 | the text behind the line of the first start marker up to the next end marker, empty if either is missing |
| ConflictScan.ExtractConflictBlock | src/core/handler/TextBasedHandler.cpp:46-65 | the i-th block up to its end marker, empty if there are fewer; an unended block makes it run past the text |
| ConflictText.NeverOverruns | src/core/sa_utility.cpp:185-211 | a text whose last line is ended is scanned within its bounds |
| ConflictText.BlocksOfRendered | src/core/sa_utility.cpp:179-214 | the blocks of a rendered document are its conflicts, in order, with their exact text |
| ConflictText.SidesOfBlock | src/core/sa_utility.cpp:417-435 | from any text that begins with a conflict, each side comes back exactly, with a common ancestor or without |
| ConflictText.NthOfRendered | src/core/handler/TextBasedHandler.cpp:46-65 | for every i, the i-th conflict up to its end marker, or nothing if there are fewer |
| ConflictScan.ReadBlocks | src/core/sa_utility.cpp:179-214 | a rendered document yields one block for each conflict, numbered from 1, with its text |
| ConflictScan.ReadSides | src/core/handler/TextBasedHandler.cpp:323-334 | cutting the i-th block out of a rendered document and extracting its parts gives the three sides of the i-th conflict |
| ConflictStyle.WithBaseIff | src/core/handler/StyleBasedHandler.cpp:41-48 | the test on the first block tells whether that block shows an ancestor |
| ConflictStyle.SidesSeenIff | src/core/handler/StyleBasedHandler.cpp:57-75 | our side of a block is seen exactly if and only if it has the style of the first block, or is empty and taken for one with ancestor; their side always is |
| ConflictStyle.MixedStyles | src/core/handler/TextBasedHandler.cpp:563-596 | a pair of blocks of different styles of which the second is misread |
| Uri.PercentEncode | src/lsp/uri.cpp:143-152 | the encoding is appended to what was there |
| Uri.PercentDecode | src/lsp/uri.cpp:190-206 | well-formed escapes are decoded, everything else is kept |
| Uri.DecodeStarts | src/lsp/uri.cpp:190-206 | a percent sign with two hexadecimal digits, in either case, is read as their byte; every other character stays |
| Uri.NibblesReadBack | include/mergebot/utils/stringop.h:27-84 | two printed hex digits read back as the byte |
| Uri.DecodeEncode | src/lsp/uri.cpp:143-206 | decoding undoes encoding on every byte string |
| Uri.EncodeByteIff | src/lsp/uri.cpp:153-167 | a byte stays as it is if and only if it is unreserved, a slash or a colon; otherwise it becomes an escape in upper case that reads back as the byte |
| Uri.ParseEncoded | src/lsp/uri.cpp:208-229 | parsing an encoded text is parsing the text itself |
| Uri.RoundTripIff | src/lsp/uri.cpp:129-229 | a printed URI is read back as itself if and only if its scheme is valid and it has no authority, or one without a slash and a body that starts with one |
| Uri.PrintedIsWellPrinted | src/lsp/uri.cpp:129-167 | every URI is printed with nothing but unreserved characters, slashes, colons and escapes of other bytes |
| Uri.ReadAgain | src/lsp/uri.cpp:208-229 | a URI that was parsed survives printing and parsing if and only if its authority has no slash |
| Uri.BodyNeverGrows | src/lsp/uri.cpp:220-227 | printing an authority and a body without a slash yields text on which parse throws |
| Uri.FilePathRoundTripIff | src/lsp/uri.cpp:171-189 | the path of a file URI survives if and only if it names no host and is not a file URI itself |
| FrameSpec.StrtollDecimal | src/lsp/client.cpp:49-51 | a printed size below 2^63 is read back |
| FrameSpec.StrtollReads | src/lsp/client.cpp:48-51 | a number is read up to the end of its digits, with or without a sign, and clamped to 64 bits |
| FrameSpec.StrtollSkips | src/lsp/client.cpp:48-51 | the six white-space characters before a number are skipped; anything else that is no number is 0 |
| FrameSpec.FrameIsReceived | src/lsp/client.cpp:74-78 | a frame at the head of the stream yields its body and leaves exactly what follows |
| FrameSpec.HeaderLineRead | src/lsp/client.cpp:34-57 | every other header line is read and skipped; the last announced length counts |
| FrameSpec.ShortContent | src/lsp/client.cpp:59-71 | a message shorter than announced is refused, and what there is of it is gone |
| FrameSpec.NegativeSize | src/lsp/client.cpp:59-64 | an announced size of -1 is refused like none at all; below that the allocation throws |
| FrameSpec.FramesAreHeard | src/lsp/client.cpp:30-78 | the frames of any list of bodies yield that list, and every byte is consumed |
| FrameLoss.BlockInHeaderStops | src/lsp/client.cpp:80-119 | wherever in a header, after its first byte and up to the last of its empty line, the pipe blocks, the next completed call refuses the message |
| FrameLoss.FrameInterrupted | src/lsp/client.cpp:34-39 | a call that gives up in a header has taken nothing, or leaves a stream from which no message can come |
| FrameLoss.DoomedStays | src/lsp/client.cpp:34-39 | such a stream stays so, however often the pipe blocks again |
| Framing.Endpoint.FetchingInBudget | src/lsp/communicator.cpp:201-231 | if the kernel blocks at most three times after the first byte, the loop takes everything, or its very first call blocks |
| Framing.Endpoint.Read | src/lsp/communicator.cpp:201-231 | all bytes asked for, in order and in place, or a failure that has taken fewer; never a failure if the kernel delivers, or blocks within the retries, and enough bytes are there |
| Framing.Endpoint.NextLine | src/lsp/client.cpp:80-119 | whatever the kernel answers, a line that is returned is the next one of the stream, cut at a NUL; otherwise bytes before the newline are dropped; longer lines overrun the buffer |
| Framing.Endpoint.ReadMessageContent | src/lsp/client.cpp:121-178 | exactly the next bytes of the stream, or nothing; if the kernel delivers or blocks, the bytes if and only if the first come within seven tries and then at most three blocks follow |
| Framing.Endpoint.Content | src/lsp/client.cpp:59-72 | so the message is received if and only if its content comes in time and is legal, and refused otherwise |
| Framing.Endpoint.FetchingIff | src/lsp/communicator.cpp:201-231 | after the first byte, everything is taken if and only if the kernel, asked again and again, blocks no more often than there are retries left |
| Framing.Endpoint.RecvResponse | src/lsp/client.cpp:30-72 | whatever the kernel answers, the message at the head of the stream or none; a kernel that delivers gives the message, one that blocks only before the frame or within the retries gives it or leaves the stream untouched |
| Framing.ReceiveAll | src/lsp/client.cpp:231-248 | for every kernel and any number of polls, the messages received are a prefix of those sent; if the kernel blocks only between frames or within the retries, every poll yields the next message or finds nothing and loses nothing |
| Framing.EveryMessageArrives | src/lsp/client.cpp:30-178 | with a kernel that delivers, in chunks of any size, as many polls as messages receive them all and empty the pipe |

## Left out

- Foreign libraries: parsing with tree-sitter, clang, libgit2, clangd. `git_merge_textual` is an arbitrary function, the JSON library an arbitrary predicate that refuses the empty text, `hashSignature` of a base node an arbitrary function of the node and its text.
- HTTP controllers, manifest files, file locks, the `running` sign, the Python tools and the user interface: input and output.
- The heuristics that decide whether a handler resolves a block: an arbitrary function of file and index. The AST and LLVM handlers change no list and are steps that do nothing.
- `bottomUpMatch`, `threeWayMergeChildren` (its call is commented out) and `mergeListTextually` (nobody calls it).
- ThreadPool.StepKeepsInv: models one `threadpool_destroy` per pool, because a second one returns without unlocking, and pthread calls that do not fail; `started` is complete before the first worker moves. The mutex that line 145 destroys while it is held stays held.
- ThreadPool.RunsAreShort: spurious wake-ups count as calls from outside, because they can go on for ever.
- TreeMerge.GraphMerger.MergeSemanticNode: where matched nodes are of different kinds, so that a cast of the source asserts, the model keeps what the base node has; the assertion that only headers are merged with headers is not modelled. The merge of two texts that both sides changed is a parameter, `git`.
- TreeMerge.GraphMerger.ThreeWayMerge: follows a run up to the first call for a node already rewritten, or whose lookups may find another node; what the source does behind that is not followed further than SecondCall and MergedAgainReverts say.
- TreeMerge.GraphMerger.DirectMergeChildren: a deleted child is dropped at once instead of being listed as null and erased after the loop.
- TreeMerge.GraphMerger.FilterAddedNodes: a node's identity is its `ID` field, by which the source sorts; among several keys in a bucket that compare equal any may be found.
- HandlerChain.Chain.Handle: writes of resolution files succeed; concurrent requests are not modelled.
- HandlerChain.NamesCollide: paths that end in a separator are left out of `pathToName`.
- Cosine.StringCosine and Levenshtein.StringLevenshtein: exact arithmetic over integers and reals; floating-point rounding is left out.
- Sha1.SHA1.Update: the stream is a sequence of bytes; stream errors and `from_file` are left out.
- ConflictScan.ConstructConflictFile: what the source does after it has run off the text is not modelled.
- ConflictText.BlocksOfRendered: sides, plain text and labels contain no run of seven marker characters; with such runs the source finds other blocks.
- ConflictScan.ExtractCode: a marker that is missing fails an assertion in debug builds; the model follows release builds.
- Uri.FilePathRoundTripIff: POSIX paths only. Characters above 127 are not letters, as in the C locale.
- Framing.ReceiveAll: the stream holds whole frames; bytes that arrive later are bytes at which the kernel blocks until then. Dispatching the messages is left out.
- Framing.Endpoint.RecvResponse: locks are left out; a size too large for memory is not modelled.
