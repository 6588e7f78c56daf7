# culibs: verified models

Dafny models of the parts of culibs whose correctness rests on an invariant that no
single function shows, with proofs of what those parts promise. The project is checked
with `dafny verify dfyconfig.toml`.

| files | what they model |
|---|---|
| `RarexModel`, `RarexInvariant`, `RarexTheorems`, `RarexProgress`, `RarexChain` | the rarex read-write lock (`cu/rarex.h`, `cu/rarex.c`): a transition system in which each atomic operation on the word, each acquisition of the mutex, the load of the word and the decision taken on it are separate steps of any number of threads below 0x10000; and the loops over the thread chain that carry out a decision |
| `FibTree`, `FibFilter`, `FibStay`, `FibLinks`, `FibMarks`, `FibPairing`, `Fibq` | the queue-optimised Fibonacci heap (`cucon/fibq.c`) over linked nodes |
| `PoGraph`, `PoSearch`, `PoRemove`, `PoLevels`, `PoInsert`, `Po`, `PoRange`, `PoTopological`, `PoPredecessors` | the partial order kept as a Hasse diagram with levels (`cucon/po.c`), its ranges and its topological walks over a `Priq` |
| `Bits`, `PritreeLinks`, `PritreeHeap`, `Pritree` | the pointer-based complete heap (`cucon/pritree.c`) |
| `Frame` | the skip-link stack (`cucon/frame.c`), with `Bits` |
| `Dlink` | cyclic double links (`cu/dlink.c`), with `Seqs` |
| `Words`, `BitSlice` | unaligned word copies and bit slices (`cu/wordarr.c`, `cucon/bitarray_slice.c`) |
| `Buffer`, `DsinkBuffer` | the self-extending buffer and the clog-free sink (`cu/buffer.c`, `cu/dsink_buffer.c`) |
| `HzmapLinks`, `HzmapSlots`, `HzmapResize`, `Hzmap` | the fixed-key hash map (`cucon/hzmap.c`) and its hash (`cu/hash.c`), with `Bits` |
| `Priq` | the array heap (`cucon/priq.c`) |

## How the model stands to the code

Structures that the code changes through pointers are classes with the same links. A
ghost value (a forest, a sequence by position, a list of buckets, a cycle) says what the
links mean; methods are proved to change that value as they should, and lemmas say what
follows for it. Where a loop or a long function of the source is too much for one
proof it is cut into methods that are called where the code stood; ghost parameters carry
what a caller needs to know to be unchanged. Pointers to links (`root_tail`, `node_ptr`,
`p = &(*p)->next`) are values that say which link is meant.

Assumptions, as far as the code makes them:

- Fewer than 0x10000 threads use a rarex, and fewer than 0x10000 read requests are
  outstanding (`LockRead` and `TryLockRead` are enabled only then), since the word keeps
  reads in its lower 16 bits. `lock_write` is called by threads that own no access, as its
  documentation demands. Nested reads are allowed, as the documentation of `lock_read`
  says, and shown to be able to block for ever.
- A priority relation is given by an integer rank, that is, it is a total preorder.
  Priorities of the pritree are real numbers strictly between two sentinels.
- Allocation succeeds; sizes do not wrap around.
- Words are sequences of 64 bits with the bitwise operators and shifts defined bit by
  bit; `n & m` for a power `m` of two is a digit of `n`; `hash & mask` is a remainder by
  the capacity, which is a power of two.
- A subsink accepts any part of what it is given or fails.

## Findings

- A nested `cu_rarex_lock_read` returns at once if and only if no writer is counted in the
  word; otherwise its thread never returns, whatever the others do. There is a run of two
  threads that ends with both asleep and no step left.
- `cucon_fibq_filter_d` on a non-empty queue is defined if and only if at least two nodes
  survive: with none there is no root to start from, and with one the array of nodes by
  degree, to which the first root is then written, has no slots. `Fibq.FilterToOne`
  builds a queue of two nodes and filters it down to one.
- `cucon_fibq_union_d` is defined if and only if neither queue is empty;
  `Fibq.UnionWithEmpty` is a union with an empty queue.
- When roots are paired up, each root that takes a child is asserted to be unmarked. The
  first root keeps its mark, and the assertion holds if and only if it has none, or no tree
  that the other roots make by themselves reaches its degree, or the first such tree is
  prior to it. `Fibq.PopMarked` filters the only child of one child out of a tree of four
  nodes, which marks that child, pops the root, and has the assertion fail.
- A copy between bit slices of one array gives the right bits for all contents if and only
  if the source is clear of the destination as `BitSlice.Clear` says: it does not start
  before it or ends before it, or the destination ends in its first word, or whole words
  are copied to the word after the one in the middle of which the source starts.
  For every source that is not, `BitSlice.CopyClobbers` has contents that are not copied
  right.
- A copy between bit slices may load a word behind a source. It loads only words of its
  sources if and only if the destination starts on a word boundary or, for each source, the
  first word of the slice is one of its array and so is the next one in case the destination
  ends before the end of its first word and the source starts at a higher bit of a word than
  the destination. `BitSlice.LoadsBehindSource` copies the last four bits of a single word
  to bit 1 of another and loads the word behind.
- `cucon_hzmap_insert_node` leaves the link of the node as it is, since the macro that is to
  clear it does nothing. A node whose key is not there is taken in if and only if its link
  is null; otherwise the array does not stand for the old nodes and the new one, whatever
  the buckets. An erased node keeps its link: `Hzmap.InsertErased` erases a node that is
  followed by another and inserts it again.
- `cucon_po_topological_preds` takes the lowest level first, as the walk to the successors
  does. It calls the element and all that comes before it, each once, but in the reversed
  order if and only if none of them has two immediate predecessors.
  `PoPredecessors.PredsOutOfOrder` walks from the top above two unrelated elements.
- The range iterators are right for every pair of elements, also for bottom and top while
  they are still linked directly, because that link then stands last in the list.
- The pop of `cucon_priq` may compare against the slot just behind the heap; for a strict
  relation as well as for a reflexive one that changes nothing, because the slot holds the
  item being sifted.

## Model

| member | source | states |
|---|---|---|
| RarexTheorems.MutualExclusion | cu/rarex.h:57-123 | in every state reachable by any interleaving at most one thread has write access, and then no thread has read access, counting accesses granted to threads that have not run since |
| RarexTheorems.SlowPathAssertions | cu/rarex.c:32-72 | whenever a slow path decides, however stale its snapshot, no more threads are jammed than counted, a writer to release exists, and releasing readers meets no jammed writer |
| RarexTheorems.WordFits | cu/rarex.c:38-39 | the halves of the word are the outstanding read and write requests and never run into each other |
| RarexTheorems.NoLostWakeup | cu/rarex.c:74-127 | whenever a thread is jammed, a wake-up that will release somebody is due, or writers are counted and some counted thread is not jammed |
| RarexProgress.DeadlockFree | cu/rarex.c:74-127 | from every reachable state without nested waiting, the steps that finish requests are bounded in number and do not end before the lock is free |
| RarexProgress.CompletingStep | cu/rarex.c:74-127 | each step that finishes something brings the threads closer to being done |
| RarexProgress.StuckForever | cu/rarex.h:55-62 | no run frees a thread that waits for a read behind a writer while it owns an access |
| RarexProgress.NestedRead | cu/rarex.h:55-62 | a nested read returns at once if no writer is counted, and never returns otherwise |
| RarexProgress.NestedReadDeadlock | cu/rarex.h:55-62 | a run of two threads that ends with all threads asleep and no step enabled |
| RarexTheorems.WriteAtOnce | cu/rarex.h:90-102 | in every reachable state `trylock_write`, and `lock_write` without waiting, give write access just when no thread owns, awaits or has announced anything; otherwise nobody's access changes |
| RarexTheorems.PromoteAtOnce | cu/rarex.h:117-123 | `try_promote` gives write access, for the read hold, just when that one hold is all that anybody owns, awaits or has announced; otherwise nothing changes |
| RarexTheorems.ReadAtOnce | cu/rarex.h:57-85 | `trylock_read`, and `lock_read` without waiting, give a read hold just when no thread owns, awaits or has announced a write; otherwise nobody's access changes |
| RarexTheorems.WakesUp | cu/rarex.h:66-113 | giving up a read goes on to a wake-up just when a write is owned, awaited or announced, giving up a write just when anything else is |
| RarexInvariant.StepInv | cu/rarex.h:57-123 | every step of every thread keeps the tally of owned, pending and jammed requests equal to the word, and the snapshot of the mutex holder close enough to it |
| RarexInvariant.RunInv | cu/rarex.h:57-123 | the same over whole runs |
| RarexChain.UnaccountedCount | cu/rarex.c:32-45 | the walk of the thread chain counts the requests of a snapshot that are not jammed |
| RarexChain.ReleaseAWriter | cu/rarex.c:47-59 | clears the flag of the first jammed writer of this lock and of no other thread |
| RarexChain.ReleaseAllReaders | cu/rarex.c:61-72 | clears the flags of all threads jammed on this lock and of no other lock |
| RarexChain.DecideLockRead | cu/rarex.c:81-93 | the decision of the read slow path changes the chain as the transition system does, and no other thread's request on another lock |
| RarexChain.DecideLockWrite | cu/rarex.c:104-110 | the decision of the write slow path changes the chain as the transition system does, and no other thread's request on another lock |
| RarexChain.DecideWakeUp | cu/rarex.c:120-125 | the decision of a wake-up changes the chain as the transition system does |
| FibTree.TreeSize | cucon/fibheap.c:55-63 | a node with d children that may have lost one child each roots at least Fib(d + 2) nodes |
| FibTree.FibBeatsPow2 | cucon/fibq.c:29-30 | Fib(ceil(3L/2) + 2) exceeds 2 to the L for L of at least 1 |
| FibTree.DegreeBound | cucon/fibq.c:29-30 | in a queue of at least two nodes every degree is below the size of the array of nodes by degree |
| FibTree.NoSlots | cucon/fibq.c:29-30 | that array has no slots just when the queue holds a single node |
| FibTree.LinkKeeps | cucon/fibq.c:167-175 | linking two roots of one degree keeps heap order, distinctness and the size bound |
| FibFilter.FilterKidsSplits | cucon/fibq.c:281-332 | filtering a chain keeps exactly the accepted nodes, each once, either in the chain or among the roots |
| FibFilter.FilterKidsStayDeep | cucon/fibq.c:293-311 | children that stay in a filtered chain still have the degree the size bound asks of them, because a second loss moves a node to the roots |
| FibStay.FilterKidsStay | cucon/fibq.c:293-311 | exactly the accepted nodes whose mark and lost children add up to at most one stay in a filtered chain, in order, marked just when that sum is one; nodes that move to the roots are unmarked |
| FibStay.FilterRootsFamilies | cucon/fibq.c:281-370 | over the whole forest each accepted node keeps exactly the children that stay, in order and with the marks they get, wherever it ends up itself |
| FibStay.FilterRootsTops | cucon/fibq.c:346-370 | accepted roots keep their marks, and the nodes that become roots are unmarked |
| FibStay.FilterKidsPaid | cucon/fibq.c:281-332 | accepted nodes cut out of a chain, marks afterwards and what the chain loses are at most the marks before and the rejected nodes |
| FibStay.FilterRootsPaid | cucon/fibq.c:334-370 | the same for a whole forest, whose roots are never cut |
| FibFilter.FilterRootsNodes | cucon/fibq.c:335-370 | the roots after a filter hold exactly the accepted nodes, each once |
| FibFilter.FilterKidsHeap | cucon/fibq.c:281-332 | what stays in the chain and what moves to the roots are in heap order |
| FibFilter.FilterKidsDeep | cucon/fibq.c:281-332 | and both meet the size bound |
| FibPairing.PairUp | cucon/fibq.c:161-178 | pairing a root with the one of its degree keeps the nodes, the number of marks, heap order and size bound, stays within the array, and tells whether the root that takes the other is unmarked |
| FibPairing.PairRoots | cucon/fibq.c:140-182 | after the pairing all roots are in the array, by degree, with the same nodes and marks but for those of all roots except the first; whether every root that took another was unmarked is a function of the degrees, ranks and marks of the chain |
| FibPairing.CollectRoots | cucon/fibq.c:184-226 | the chain rebuilt from the array holds the same trees, the most prior first, and its tail is its last node |
| FibMarks.WinnersUnmarkedIff | cucon/fibq.c:152-182 | all roots that take another are unmarked just when the first root is, or no tree that the others make reaches its degree, or the first such tree is prior to it |
| FibMarks.EnterBeside | cucon/fibq.c:158-181 | a marked root is asserted about just when a tree reaches its degree and is not prior to it, and does not matter else |
| Fibq.Fibq.Insert | cucon/fibq.c:106-122 | the node goes before the other roots if it is prior to the first and after them else; the queue stays a heap within the size bound with the most prior root first, and its tail slot is its last link |
| Fibq.Fibq.UnionD | cucon/fibq.c:124-138 | defined just when neither queue is empty; then the chain of the one with the prior front is followed by the other's |
| Fibq.Fibq.UpdateMin | cucon/fibq.c:140-231 | defined just when there are two nodes or more; then the roots get distinct degrees and the most prior comes first, with the same nodes and marks but for those of all roots except the first; and the assertion about marks holds just when that function says so |
| Fibq.Fibq.PopFront | cucon/fibq.c:233-276 | removes and returns a node that is prior or equal to all others, or null from an empty queue; the assertion about marks holds just when that function says so of the other roots and the children |
| Fibq.Fibq.FilterChain | cucon/fibq.c:281-332 | filters a chain in place, moving nodes to the roots, and returns the last link of what is left |
| Fibq.Fibq.FilterD | cucon/fibq.c:334-373 | defined just when the queue is empty or two nodes survive; then the queue holds exactly the nodes that the function accepts; over every run of operations the nodes cut out of a chain and the marks are together no more than the nodes rejected so far |
| Fibq.FirstDegree | cucon/fibq.c:140-160 | the degree of the first root is an index of the array just when there are two nodes or more |
| Fibq.FilterToOne | cucon/fibq.c:334-373 | a queue on which the filter is not defined |
| Fibq.PopMarked | cucon/fibq.c:175 | a filter and a pop after it on which the assertion about marks fails |
| Fibq.UnionWithEmpty | cucon/fibq.c:124-138 | queues on which the union is not defined |
| PoGraph.ConstrainedOrder | cucon/po.c:346-373 | cutting the links from what is up to e0 to what is from e1 on, and linking e0 to e1, yields the old order and what the constraint implies, and nothing else |
| PoGraph.ConstrainedReduced | cucon/po.c:346-373 | and leaves no redundant link but perhaps the one from bottom to top |
| PoGraph.ConstrainedAcyclic | cucon/po.c:346-373 | and no cycle |
| PoGraph.LevelIsLongestChain | cucon/po.h:105-108 | in a valid diagram the level of an element is the length of the longest chain up to it from the bottom |
| PoSearch.Search | cucon/po.c:265-283 | the search pruned by levels and by a shared visited set finds its goal just when it comes later in the order |
| PoSearch.Prec | cucon/po.c:285-291 | true just when the first element comes before the second |
| PoSearch.PrecCollectUspan | cucon/po.c:243-263 | finds its goal just when it comes later, and else has collected all that comes later |
| PoRemove.CutLinks | cucon/po.c:326-336 | the links from one element to a set are removed at both ends and no others |
| PoRemove.RemoveSuccs | cucon/po.c:322-344 | the links to a set are removed from an element and all that comes before it, at both ends, and no others |
| PoLevels.UpdateLevelTo | cucon/po.c:145-157 | levels are raised above the element only, no higher than needed, and links that rose before rise still |
| PoLevels.UpdateLevel | cucon/po.c:159-180 | the element gets the level just above its predecessors and all links rise that did or that lead to or from it |
| PoLevels.ConstrainedLeveled | cucon/po.c:369-372 | after a constraint and this update all levels are exact again, also where the link that set the old level was cut |
| Po.Po.ConstrainPrec | cucon/po.c:346-373 | false just when e1 is up to e0; else the order becomes the old one and what the constraint implies, in a reduced mirrored diagram with exact levels |
| Po.Po.InsertCct | cucon/po.c:182-195 | the new element lies between bottom and top only, in a valid diagram |
| PoRange.OpenRangeDw | cucon/po.c:688-715 | tells whether low comes before high, and calls each element between them that has not been called, once |
| PoRange.IterOpenRange | cucon/po.c:717-724 | calls exactly the elements strictly between, each once and after what comes before it |
| PoRange.IterLeftRange | cucon/po.c:726-734 | calls exactly the elements from the first up to but not including the second, each once |
| PoRange.IterRightRange | cucon/po.c:735-743 | calls exactly the elements after the first up to the second, each once |
| PoRange.IterClosedRange | cucon/po.c:744-756 | calls exactly the elements from the first up to the second, each once |
| PoTopological.TopologicalSuccs | cucon/po.c:793-814 | calls the element and all that comes after it, each once, in an order that extends the partial order |
| PoTopological.VisitEnd | cucon/po.c:793-814 | when nothing waits any more, exactly what the links lead to has been called, in order |
| PoTopological.PopFront | cucon/po.c:812 | the front of the priority queue of waiting elements is one of those on the lowest level |
| PoPredecessors.TopologicalPreds | cucon/po.c:816-837 | calls the element and all that comes before it, each once, and in the reversed order just when none of these has two immediate predecessors |
| PoPredecessors.RoundFate | cucon/po.c:822-836 | once two elements wait, something is called too early or two wait again after the next call; else the calls go straight down |
| PoPredecessors.WalkEnd | cucon/po.c:822-836 | when nothing waits any more, the order of the calls is right just when no called element has two links |
| PoPredecessors.PredsOutOfOrder | cucon/po.c:816-837 | a walk that calls an element before one that should have gone first |
| PritreeLinks.SwapLeftAt | cucon/pritree.c:42-67 | swapping a node with its left child swaps two positions of the complete tree and keeps all links |
| PritreeLinks.SwapRightAt | cucon/pritree.c:68-93 | the same for the right child |
| PritreeLinks.SwapKeepsShape | cucon/pritree.c:42-93 | links rotated around one edge are those of the tree with two positions swapped |
| PritreeHeap.PopStage | cucon/pritree.c:210-231 | after the outgoing node has gone one level down and its place has been sifted, it is still less prior than all others and the rest is in heap order |
| PritreeHeap.DownStep | cucon/pritree.c:143-167 | one level of sifting down moves the one place where heap order may fail |
| PritreeHeap.UpStep | cucon/pritree.c:103-117 | one level of moving up moves the one place where heap order may fail |
| PritreeHeap.SiftedLowest | cucon/pritree.c:210-231 | the outgoing node is still less prior than all others after a sifting beside it |
| Pritree.Pritree.ChangePriority | cucon/pritree.c:170-179 | the node has the new priority, all others have theirs, and the tree is a complete heap of the same nodes |
| Pritree.Pritree.Pop | cucon/pritree.c:196-241 | the front node, to which no other is prior, leaves by the last position and the rest is a complete heap |
| Pritree.Pritree.PopStep | cucon/pritree.c:210-231 | the outgoing node goes where the next bit of the size leads and is not diverted by the sifting |
| Pritree.Pritree.Erase | cucon/pritree.c:243-248 | exactly the given node leaves |
| Pritree.Pritree.InsertInit | cucon/pritree.c:250-292 | exactly the given node enters, with the given priority |
| Pritree.Pritree.FindParent | cucon/pritree.c:268-277 | the bits of the size lead to the parent of the last position |
| Bits.NextBit | cucon/pritree.c:207-231 | each bit leads from a position to the next, and the last one to the last position |
| Frame.FrameAt | cucon/frame.c:57-105 | leads to the frame as many levels below, or to null, reading only slots that were allocated, by at most twice as many links as the number has bits |
| Frame.PoppedIs | cucon/frame.h:60-65 | repeated pops lead to the same frame |
| Frame.Push | cucon/frame.c:22-55 | the new frame has all its skip links |
| Frame.AllocatedCount | cucon/frame.c:41-43 | the frames of a stack of depth n have 2n slots less the number of ones of n |
| Dlink.SpliceBefore | cu/dlink.c:95-104 | merges two cycles into one in the stated order, or splits one in two, and changes nothing for a node and itself |
| Dlink.SpliceAfter | cu/dlink.c:106-115 | the same after the given nodes |
| Dlink.Cocyclic | cu/dlink.c:46-60 | true just when the nodes share a cycle, after no more rounds than the smaller cycle has nodes |
| Dlink.SharedOrApart | cu/dlink.c:46-60 | two cycles have all nodes in common or none |
| Dlink.CardLim | cu/dlink.c:32-44 | the number of nodes of the cycle, but no more than the limit |
| Dlink.CatD | cu/dlink.c:117-127 | the cycle of the first followed by the second, either of which may be missing |
| Dlink.Extract | cu/dlink.c:62-69 | the node is a cycle of its own and the rest is one |
| Dlink.MoveBefore | cu/dlink.c:71-81 | the node stands right before the other one, whether it came from the same cycle or from another, and what it left is a cycle |
| Dlink.SpliceComplementBefore | cu/dlink.c:129-141 | the cycle without its head is spliced before the other node; if both are in one cycle what is left is split where the head was, and for a node and itself the rest is a cycle |
| Dlink.InsertBefore | cu/dlink.h:113-120 | the node becomes the predecessor |
| Dlink.Rotated | cu/dlink.h:91-94 | a cycle may be read from any of its nodes |
| Words.SkewcopyBitimg2 | cu/wordarr.c:293-456 | every dispatch, for all functions and offsets, stores the image of the words at the two bit offsets and nothing else, unless a word of a source in the same array is overwritten before it is loaded, whose bits are then lost to a copy |
| Words.Semiskew | cu/wordarr.c:183-290 | the loops with one aligned source, under the same condition |
| Words.SkewBoth | cu/wordarr.c:348-455 | the loops with two unaligned sources, under the same condition |
| Words.Skewcopy | cu/wordarr.c:122-158 | copies words from any bit offset, as they are or negated, unless a word is overwritten before it is loaded; a bit of such a word is lost |
| Words.SkewBits | cu/wordarr.c:134-138 | two adjacent words shifted together are the word at a bit offset |
| Words.TruthTable1 | cu/bool.h:49-62 | the number of a unary function is its truth table, and what 3 leaves of it that of the negated function |
| Words.TruthTable2 | cu/bool.h:65-110 | the number of a binary function is the sum of 1, 2, 4 and 8 over the argument pairs at which it is true |
| Words.Complement2 | cu/bool.h:134-139 | what 15 leaves of a number is the number of the negated function |
| Words.NamedFunctions | cu/bool.h:65-92 | each named number is the function its name says |
| Words.SwapApplies | cu/bool.h:154-158 | swapping the bits of the truth table swaps the arguments |
| Words.Bitimg2 | cu/word.c:21-46 | each bit of the result is the function of the bits of the arguments |
| Words.WordOp | cu/wordarr.c:58-119 | the operator of each loop computes the function it is chosen for |
| BitSlice.ReadBits | cucon/bitarray_slice.c:30-47 | the bits at a bit position, the position after them, and exactly when a word outside the array is loaded |
| BitSlice.CopyBool2f | cucon/bitarray_slice.c:237-297 | bit i of the destination becomes the function of bits i of the sources, for all three offsets and any length up to the ends of the arrays, and no other bit changes, if the sources are clear of the destination; a bit of a source that is not may be lost; only words of the sources are loaded just when the stated condition holds |
| BitSlice.UpdateBool2f | cucon/bitarray_slice.c:177-184 | the same in place |
| BitSlice.CopyClobbers | cucon/bitarray_slice.c:237-297 | for every source that is not clear of the destination, contents of the array that the copy does not copy right |
| BitSlice.LoadsBehindSource | cucon/bitarray_slice.c:30-47 | a copy that loads a word behind its source |
| BitSlice.DoneThenDone | cucon/bitarray_slice.c:262-296 | the partial words and the whole words add up when the bits still to be read are what they were |
| Buffer.Buffer.FixFullcap | cu/buffer.c:57-81 | makes room, keeps the content, and moves its bytes, which are no more than the displacement given up and the growth |
| Buffer.Buffer.Produce | cu/buffer.c:112-124 | the content is kept in front of the new bytes |
| Buffer.Buffer.Write | cu/buffer.c:126-131 | the content is extended by the data |
| Buffer.Buffer.ResizeContent | cu/buffer.c:101-110 | what fits of the content is kept |
| Buffer.Buffer.IncrContentEnd | cu/buffer.c:89-99 | the content is extended in place if there is room |
| Buffer.Buffer.MaybeRealign | cu/buffer.c:142-152 | the content is kept and goes to the start just when its displacement is more than its size, so that it no longer is |
| Buffer.Buffer.IncrContentStart | cu/buffer.h:157-162 | bytes are consumed from the front; as all operations it keeps bytes moved plus displacement within bytes consumed plus growth |
| DsinkBuffer.Bufsink.Write | cu/dsink_buffer.c:57-89 | fails just when the subsink is missing or one of its writes fails, so over a subsink that never fails every write takes all the data; what was delivered followed by what is buffered is what was written, in order; the subsink is offered something just when what is to be written reaches the threshold |
| DsinkBuffer.Bufsink.WriteRound | cu/dsink_buffer.c:68-87 | each round takes in something and offers all that is not delivered just when it reaches the threshold, and the code's assertion holds because the storage is twice the threshold |
| DsinkBuffer.Bufsink.Flush | cu/dsink_buffer.c:36-55 | offers all that is buffered and hands over what the subsink takes, in order, and then leaves at least half of the capacity free; fails just when that write of the subsink does |
| HzmapLinks.HashNoinit | cu/hash.c:215-238 | the loop computes the hash of the words that are left at each round |
| HzmapLinks.MixedBack | cu/hash.c:151-165 | mixing can be undone step by step, and reaches every triple of words |
| HzmapLinks.TripleApart | cu/hash.c:223-230 | the words after a round are those of another one just when the sums of each word of the triple and its slot are |
| HzmapLinks.StaysApart | cu/hash.c:215-238 | different words before the rest of a key leave different words behind |
| HzmapLinks.KeysApart | cu/hash.c:215-238 | two keys of one length that differ in one word, or in several of one triple, leave different words behind, of which the third is the hash |
| HzmapLinks.CountsApart | cu/hash.c:231 | so do two different numbers of words |
| HzmapLinks.SpecialHashes | cu/hash.c:240-260 | the hashes for one and two words are the general one |
| Hzmap.Hzmap.Find | cucon/hzmap.c:286-297 | the node with the key, or null just when there is none |
| Hzmap.Hzmap.Find1w | cucon/hzmap.c:299-311 | the same for keys of one word, by their own hash |
| Hzmap.Hzmap.Find2w | cucon/hzmap.c:312-324 | the same for keys of two words, by their own hash |
| Hzmap.Hzmap.InsertNode | cucon/hzmap.c:159-180 | tells whether the key was not there; then the array stands for the old nodes and the new one, in some buckets, just when the link of the node is null, and else nothing changes |
| Hzmap.InsertErased | cucon/hzmap.c:159-180 | an erased node that is inserted again and not taken in |
| Hzmap.EndsThere | cucon/hzmap.c:176-177 | an array that stands for the nodes and one more at the end of its bucket has nothing behind it |
| Hzmap.Hzmap.Insert | cucon/hzmap.c:182-208 | the node with the key, made just when there was none |
| Hzmap.Hzmap.Erase | cucon/hzmap.c:236-258 | the map loses the node with the key, if there was one, and the node keeps its link; then the buckets are halved just when they are filled less than the minimum and there are at least eight |
| Hzmap.Hzmap.StepErase | cucon/hzmap.c:260-278 | the same without a change of capacity |
| Hzmap.Hzmap.FinishErase | cucon/hzmap.c:280-285 | the buckets are halved just when they are filled less than the minimum and there are at least eight; the nodes stay |
| Hzmap.Hzmap.MakeRoom | cucon/hzmap.c:166-167 | the number of buckets doubles just when the nodes are more than the maximal fill of it, so that every run of operations keeps the buckets that sparse on the average, in a power of two of at least four buckets |
| Hzmap.Hzmap.Filter | cucon/hzmap.c:363-382 | exactly the accepted nodes stay, and the buckets are halved on the same condition |
| Hzmap.Hzmap.Expand | cucon/hzmap.c:121-149 | the same nodes in more buckets |
| Hzmap.Hzmap.Shrink | cucon/hzmap.c:89-119 | the same nodes in half as many buckets |
| Hzmap.Hzmap.PrepareInsert | cucon/hzmap.c:151-157 | the same nodes, with room for the announced number below the maximal fill: in the old array if they fit, else in the least power of two that is twice their number or more |
| HzmapResize.Rehash | cucon/hzmap.c:139-148 | relinking all nodes loses none and puts each in its bucket |
| HzmapResize.Fold | cucon/hzmap.c:110-118 | appending the upper half of the buckets to the lower half puts each node in its bucket |
| HzmapLinks.SameIndex | cucon/hzmap.c:286-297 | two keys share a bucket just when their hashes differ by a multiple of the number of buckets |
| HzmapLinks.HalfIndex | cucon/hzmap.c:112-113 | the bucket in the smaller array is that in the larger one by its mask |
| Hzmap.IteratesAll | cucon/hzmap.c:406-425 | the buckets in order hold each node of the map once, as many as the size says |
| Hzmap.Itr.Get | cucon/hzmap.c:413-425 | returns the next of these nodes, or null just when none is left |
| Priq.Priq.Insert | cucon/priq.c:82-99 | the items gain the key and stay a heap; the array is replaced by a larger one just when it is full |
| Priq.Priq.PopFront | cucon/priq.c:101-129 | removes and returns an item that no other is prior to, or nothing from an empty queue; the array is cut to a quarter just when no more than that is used by more than eight items |
| Priq.Priq.SiftDown | cucon/priq.c:109-125 | sifting keeps the items and restores heap order for a strict and for a reflexive relation, though it may read the slot behind the heap |
| Priq.FrontIsMost | cucon/priq.c:101-129 | in a heap nothing is prior to the front |

## Left out

- Rarex: thread creation, the condition variables themselves (a broadcast lets any thread whose flag is cleared go on), memory order of the atomic operations, and other rarices a thread may wait for at the same time.
- RarexProgress.DeadlockFree: says that finishing steps cannot stop early, not that a scheduler takes them.
- Fibq: the queue given up by a union is left unspecified but for its empty links; validation functions.
- cucon/fibheap.c: insertion, union and pop rest on the same size bound and pairing over cyclic links; its prioritise and remove do not do what their header says.
- Partial order: spans, junctions, suprema, pruning to maximal elements, insertion by comparison, and graph output.
- PoTopological.TopologicalSuccs: elements wait together with the level they have when they join the queue, instead of being asked for it at each comparison; the walk changes no level.
- Pritree: adding to all priorities and walking down to a priority; the formatted dump.
- Words.SkewcopyBitimg2: the ten loops of each kind, which differ only in their operator, are one loop with the operator chosen inside; a copy and its negated form are one method.
- Bit slices: filling, negating and unary images, which are the binary image with fewer sources.
- BitSlice.CopyBool2f: for a source that is not clear of the destination says only that a clobbered bit is lost, not what is copied in its place.
- Dlink: moving and splicing after a node, which mirror the forms before it.
- Buffer: the unconditional realignment, which the bound on moved bytes does not cover, and swapping two buffers.
- Hzmap: the fill bounds are those of the compact build, which `cucon/hzmap.h` selects, without speed optimisation.
- Hash functions with an initial value and for 32-bit words.
- Priq: copying and dumping.
- Garbage collection, logging, formatting, locale and character conversion, and the macros for closures and inheritance.
