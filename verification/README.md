# Verified models of radare2's analysis and test-runner core

Dafny models of seven parts of radare2 whose correctness spans several functions, with proofs about
all inputs, all runs or all interleavings. `dafny verify dfyconfig.toml` checks everything.

- **ESIL data flow** (`IntervalTree`, `RedBlack`, `Balance`, `Clearing`, `Leftovers`, `Lookups`,
  `ConstTags`, `TagTree`, `Tagging`, `Untidy`, `EsilDfg`; `libr/anal/esil_dfg.c`,
  `libr/util/new_rbtree.c`). One red-black tree of intervals maps register bits and memory bytes to the
  graph node that last defined them. Writes delete with a comparator that edits the tree and queues
  leftovers, in a deletion that does not stop at a match. The tree is proved to be the map from bits to
  last writers as long as no write swallows two stored intervals, and the exact limits of that are
  given. On top of it, for expressions within these limits, a register the analysis calls constant has
  the same value whatever the registers held at the start.
- **Basic blocks** (`Offsets`, `Blocks`, `SplitMerge`, `Cfg`, `DepthFirst`, `ShortestPath`, `Chopping`,
  `Automerging`, `Noreturn`, `AddressTree`, `BlockTree`, `BlockBalance`, `BlockLookup`, `AddressPaths`;
  `libr/anal/block.c`, `bb.c`, `function.c`, part of `fcn.c`, `libr/util/rbtree.c`). Walks, shortest
  paths, split and merge, cached function ranges, chopping behind a call that does not return, merging
  blocks into their only predecessors, the red-black tree of blocks with its greatest ends, and the
  lookups pruned by them.
- **Test-runner concurrency** (`Subprocess`, `WorkerPool`; `binr/r2r/run.c`, `r2r.c`). Two state
  machines over single steps with inductive invariants: who reaps a child and records its status, and
  a worker pool behind a lock and a condition.
- **Purity** (`Purity`; `libr/anal/fcn.c`). The memoised search over a call graph with cycles.
- **Calling conventions** (`CallConv`; `libr/anal/cc.c`). Where an argument lives, with capped scans in
  place of unbounded counts.
- **Allocator** (`Allocator`; `binr/preload/alloc.c`). First fit along a chain of headers.
- **Test records** (`Records`; `binr/r2r/load.c`, `interact.inc.c`). Writing a value into a test file
  and loading it again.

`Lists` holds what several modules use. Where the source changes fields in place, the model is a class
(`EsilDfg.Dfg`, `Blocks.Anal`, `Purity.Analysis`, `Allocator.Heap`) whose methods are tied to
specification functions; the lemmas are about those. Loops of the source are loops here.

Some behaviour is not what one might expect, and the model keeps it:

- `r_crbtree_take` goes on comparing after a match, and the node it unlinks need not be the
  predecessor. A write whose range holds at most one stored interval entirely is right on every ordered
  tree (`Clearing.SetExact`); with two, and something below them, there is a tree with the same
  intervals on which it leaves an old one stored (`Leftovers.RightIff`). It happens to accepted register
  programs: `Untidy.OverlapsWrong` is one for which `reg_is_const` is wrong.
- A flag operator after ":=" stops the graph builder (`edf->cur` is empty again), no caller is told, and
  the tags are then about the words before the stop (`Untidy.StoppedWrong`). `ConstTags.Accepts` says on
  the words alone which expressions are built to their end.
- `r_anal_block_set_size` alone can leave a cached range too small or too large; `SplitMerge.ResizeExact`
  gives the exact condition. Chopping calls it, so no claim is made about ranges after a chop.
- The second half of a split keeps at most 49152 instructions, because a table that would grow to 65535
  entries refuses; `Offsets.HalvesJoin` states the exact condition for a round trip.
- `r_anal_bb_opaddr_at` cuts the offset to 16 bits; `Offsets.OpAtExact` says when that is harmless.
- `r_anal_block_merge` writes a size without redoing the greatest ends; `BlockTree.MergeIff` says
  exactly when the tree stays right, `MergeLosesBytes` gives one that does not.
- `r_anal_block_recurse_depth_first` leaves a block at its first successor without a block and does not
  try the others; `DepthFirst.SeenAllIff` says exactly when it still meets everything reachable.
- The argument parser accepts an open tail as the first of several homes, which `doc/dyncc.md` rules
  out; the capped scan is then wrong (`CallConv.OpenHomeOverlaps`).
- A reversed static profile lets forward-tail slots meet explicit ones; `CallConv.TailMissesIff` says
  exactly when.

Assumptions: addresses plus sizes do not wrap; all starts of one kind in the ESIL tree lie within 2^31 of
each other; a process id is not used again while its record lives; `waitpid` fails only because the child
was already reaped; the allocator's integers do not overflow and clients write inside their payloads;
texts hold no NUL.

## Model

| member | source | states |
|---|---|---|
| IntervalTree.ElemsDisjoint | libr/anal/esil_dfg.c:47-204 | any two different intervals stored in an ordered tree are disjoint |
| IntervalTree.AtUnique | libr/anal/esil_dfg.c:47-204 | the per-bit map an ordered tree stands for labels every bit with the node of the only interval that holds it |
| IntervalTree.InsertOrdered | libr/anal/esil_dfg.c:194-204 | inserting an interval that meets no stored one keeps the order, although the comparator cuts a 64-bit difference to 32 bits, as long as all starts of a kind lie in one window of 2^31 |
| IntervalTree.SearchExact | libr/anal/esil_dfg.c:285-376 | a lookup misses exactly when no bit of the range is labelled; else it finds a stored interval that meets the range and queues exactly the bits that interval does not hold |
| RedBlack.RbInsertInorder | libr/util/new_rbtree.c:137-218 | with its flips and rotations, an insertion leaves the same list of intervals as plain insertion into a search tree |
| RedBlack.RbInsertOrdered | libr/util/new_rbtree.c:137-218 | so inserting an interval that meets no stored one keeps the order and adds exactly that interval |
| RedBlack.RbTakeInorder | libr/util/new_rbtree.c:290-375 | with its flips, rotations and the exchange of nodes, a deletion makes the same comparisons, queues the same pieces and leaves the same list as the walk alone: on past a match, and the last node takes the place of the first match |
| Balance.InsertBalanced | libr/util/new_rbtree.c:137-218 | insertion keeps the tree red-black: black root, no red node below a red one, as many black nodes on every way down |
| Balance.TakeBalanced | libr/util/new_rbtree.c:290-375 | so does deletion, whatever the comparator answers and does to the intervals, and whether or not they are in order |
| Balance.ClashCools | libr/util/new_rbtree.c:177-205 | a rotation of the insertion is only due right after a colour flip, and the node met next is black and does not flip: the ancestors the source remembers are the true ones whenever it rotates |
| TagTree.ApplyAllBalanced | libr/util/new_rbtree.c:137-375 | whatever an expression reads and writes, the tree stays red-black, even when it gets out of order |
| Clearing.TakeTodo | libr/anal/esil_dfg.c:47-191 | in any tree, whatever a deletion queues is a strictly shorter part of the range |
| Clearing.QueueShrinks | libr/anal/esil_dfg.c:206-247 | so the loop over the queue ends: the longest piece gets shorter, or fewer pieces are that long, or the first of them moves up |
| Clearing.TakeNone | libr/anal/esil_dfg.c:47-191 | a range that swallows no stored interval is cut out of an ordered tree in one deletion: what stays, with the half put aside, is exactly what the intervals keep outside it |
| Clearing.TakeMax | libr/util/new_rbtree.c:290-375 | past a match, with only intervals on its left that start below the range, the walk ends at the predecessor, cut back if it reached in |
| Clearing.TakeOne | libr/anal/esil_dfg.c:47-191 | a range that swallows exactly one interval: that one is unlinked, the rest of the range queued, the order kept, and the others are cut back or still wait for a piece |
| Clearing.DrainExact | libr/anal/esil_dfg.c:206-247 | if the range swallows at most one stored interval, the loop clears exactly the range |
| Clearing.SetExact | libr/anal/esil_dfg.c:206-247 | a write under that condition stores the new interval and what the others keep outside it, in order |
| Clearing.SetBits | libr/anal/esil_dfg.c:206-247 | in terms of bits: exactly those of the range are relabelled |
| Clearing.TidyWritesExact | libr/anal/esil_dfg.c:206-283 | after any sequence of such writes every bit carries the node of the last write over it, or what it carried before |
| Leftovers.FirstRound | libr/util/new_rbtree.c:290-375 | if a range swallows the root and its left child, with something left of that, the first deletion puts an interval from below above both, whatever the colours, and the next piece walks past the left child |
| Leftovers.LeftBehind | libr/anal/esil_dfg.c:206-247 | such a write leaves the left child stored beside the new interval, out of order |
| Leftovers.RightIff | libr/anal/esil_dfg.c:206-247 | for contents that start below the range: the write is right on every tree with these contents if and only if the range swallows at most one of them |
| Lookups.SearchQueue | libr/anal/esil_dfg.c:285-376 | in any tree a lookup queues strictly shorter parts of the range |
| Lookups.CollectExact | libr/anal/esil_dfg.c:403-508 | a read of an ordered tree collects exactly the nodes that define the range in the end, fills all blank bits with one node, and finds one part exactly if one interval covers the range or none meets it |
| Lookups.CollectElems | libr/anal/esil_dfg.c:403-508 | what it adds to the tree is exactly the longest uncovered stretches of the range |
| ConstTags.LearnsIff | libr/anal/esil_dfg.c:1616-1795 | what is learned from an expression is learned to its end exactly if its words find the entries they need, registers to assign to, and a strong assignment before any flag |
| ConstTags.LearnAgrees | libr/anal/esil_dfg.c:726-977 | two machines that agree wherever something is known to be constant can both run the next accepted word, and agree again |
| ConstTags.AssignAgrees | libr/anal/esil_dfg.c:726-796 | the same for assignments, through overlapping registers |
| ConstTags.ResultAgrees | libr/anal/esil_dfg.c:874-977 | the same for operators that push a result |
| ConstTags.FlagAgrees | libr/anal/esil_dfg.c:682-724 | the same for the flag operators |
| ConstTags.LearnAllAgrees | libr/anal/esil_dfg.c:1616-1795 | agreement holds along a whole accepted expression |
| ConstTags.ConstSound | libr/anal/esil_dfg.c:2092-2138 | a register known to be constant bit by bit after an accepted expression ends with the same value from any two register files |
| TagTree.AppliesIff | libr/anal/esil_dfg.c:1616-1795 | the builder accepts an expression exactly if its words do; the tree plays no part |
| TagTree.ReadMatches | libr/anal/esil_dfg.c:403-508 | a read of an ordered tree learns what the definition of reading says |
| TagTree.FixedMatches | libr/anal/esil_dfg.c:403-508 | an operand counts as constant exactly if one constant interval covers it |
| TagTree.ApplyAllMatches | libr/anal/esil_dfg.c:1616-1795 | while no write swallows two known stretches, the tree stays in order and stores exactly what is known |
| TagTree.AllConstExact | libr/anal/esil_dfg.c:2092-2138 | on an ordered tree the scan says yes exactly if every queued bit is constant |
| TagTree.AnswerSound | libr/anal/esil_dfg.c:2092-2138 | the constant analysis is sound for every accepted expression in which no write swallows two known stretches, a condition on the words and the profile |
| Untidy.LastClearing | libr/anal/esil_dfg.c:206-247 | one write to rcx after writes to cx and ch: [640,703] takes the place of a swallowed interval, and [704,711] is never met |
| Untidy.OverlapsWrong | libr/anal/esil_dfg.c:2092-2138 | so after rdx,rcx,=,1,cx,=,rbx,ch,=,rax,rcx,= on linux-x64 offsets, an accepted expression, cl is called constant although it is the initial al |
| Untidy.OverlapsUntidy | libr/anal/esil_dfg.c:206-247 | that expression is not one the soundness result covers |
| Untidy.StoppedWrong | libr/anal/esil_dfg.c:682-688 | 1,a,:=,$z,POP,b,a,= is refused at its flag operator; asked then, the analysis calls a constant, and it is not |
| Tagging.ReadMarks | libr/anal/esil_dfg.c:403-508 | tree operations do not look at nodes: with nodes replaced by their constant tags, a read finds the same tree, and one constant part exactly if the node it answers is constant |
| EsilDfg.Dfg.Clear | libr/anal/esil_dfg.c:206-247 | the loop leaves the specified tree in any case, and exactly the cleared intervals if the range swallows at most one |
| EsilDfg.Dfg.Set | libr/anal/esil_dfg.c:206-247 | a write gives the specified tree in any case; if its range swallows at most one interval, it labels exactly its own bits and is then one stored interval |
| EsilDfg.Dfg.RegSet | libr/anal/esil_dfg.c:206-247 | the same for a register of the profile; an unknown register is refused and changes nothing |
| EsilDfg.Dfg.MemSet | libr/anal/esil_dfg.c:249-283 | the same for a stretch of memory; an empty one is refused |
| EsilDfg.Dfg.SetAll | libr/anal/esil_dfg.c:206-283 | any sequence of writes; if none swallows two intervals, every bit ends with its last writer |
| EsilDfg.Dfg.GapNode | libr/anal/esil_dfg.c:378-401 | the origin node of a register is made once and found again; a node for uninitialised memory is always new |
| EsilDfg.Dfg.Gather | libr/anal/esil_dfg.c:403-508 | the loop of a read, in any tree, and what it promises in an ordered one |
| EsilDfg.Dfg.MergeParts | libr/anal/esil_dfg.c:403-508 | a single part stands for itself; several are joined by a new merge node with exactly those in-edges |
| EsilDfg.ReadDone | libr/anal/esil_dfg.c:403-508 | in an ordered tree the whole range is labelled afterwards; one covering interval answers its own node and changes none, a blank range the node that fills it, anything else a merge node fed by exactly the defining nodes |
| EsilDfg.Dfg.ReadRange | libr/anal/esil_dfg.c:403-633 | the body of both reads does that |
| EsilDfg.Dfg.RegGet | libr/anal/esil_dfg.c:403-508 | for a register; an unknown one is refused |
| EsilDfg.Dfg.MemGet | libr/anal/esil_dfg.c:531-633 | for memory, with one new node for every uninitialised stretch |
| EsilDfg.Dfg.SetThenGet | libr/anal/esil_dfg.c:206-508 | a register read right after it was set answers the node it was set to, if the write swallowed at most one interval |
| EsilDfg.Dfg.OperandNode | libr/anal/esil_dfg.c:726-796 | the node of an operand is tagged constant exactly when the operand is |
| EsilDfg.Dfg.WriteResult | libr/anal/esil_dfg.c:726-787 | an assignment makes an operation node fed by both operands and a result node the register is set to; only the strong form moves what the flags look at |
| EsilDfg.Dfg.ConsumeSetReg | libr/anal/esil_dfg.c:669-796 | "=", ":=" and the "op=" family do to the graph what the specified word does, accepted or refused |
| EsilDfg.Dfg.Consume2Push1 | libr/anal/esil_dfg.c:874-925 | so do the binary operators, whose result is constant exactly when both operands are |
| EsilDfg.Dfg.Consume1Push1 | libr/anal/esil_dfg.c:927-977 | and the unary ones, which keep the tag |
| EsilDfg.Dfg.DupTop | libr/anal/esil_dfg.c:828-872 | DUP repeats names and numbers and turns a result into two siblings with its tag |
| EsilDfg.Dfg.PopTop | libr/anal/esil_dfg.c:798-826 | POP reads and drops one entry |
| EsilDfg.Dfg.FlagOp | libr/anal/esil_dfg.c:682-724 | a flag operator is refused before any strong assignment; its result is never constant |
| EsilDfg.Dfg.Exec | libr/anal/esil_dfg.c:661-977 | every word has the specified effect, in any tree |
| EsilDfg.Dfg.Build | libr/anal/esil_dfg.c:1616-1795 | the graph of an expression is the specified one, up to the word it stops at, and it is complete exactly if the words are accepted |
| EsilDfg.Dfg.RegIsConst | libr/anal/esil_dfg.c:2092-2138 | the scan of the source is the specified one; on an ordered tree it is true exactly when every bit of the register is defined by a constant node |
| EsilDfg.ConstAnswer | libr/anal/esil_dfg.c:2092-2138 | the whole analysis: its answer for any expression, and that a yes is right if the expression is accepted and no write of it swallows two known stretches |
| Cfg.NewSuccessors | libr/anal/block.c:487-499 | successors not visited before are queued once, an address without a block is only marked |
| Cfg.Recurse | libr/anal/block.c:501-527 | every block reachable from the start is handed out exactly once, the start first, and no other |
| DepthFirst.NextBlock | libr/anal/block.c:572-600 | the cursor over jump, fail and switch cases leaves no successor untried |
| DepthFirst.EnterStep | libr/anal/block.c:557-619 | entering an unvisited successor keeps what holds between rounds |
| DepthFirst.ExitStep | libr/anal/block.c:557-619 | so does leaving a block all of whose successors were entered |
| DepthFirst.Walk | libr/anal/block.c:557-619 | on any graph: every block reachable in the part the walk sees is entered and left exactly once, and no other; entries and exits nest, and before a block is left all its successors seen have been entered |
| DepthFirst.SeenAllIff | libr/anal/block.c:578-606 | the walk turns back at the first successor without a block; it still meets everything reachable if and only if what is hidden behind such a successor is met in some other way, as on graphs where every successor has a block |
| DepthFirst.JumpHidesFail | libr/anal/block.c:578-606 | a jump to no block hides the fail branch, which the worklist walk finds |
| ShortestPath.VisitSuccessors | libr/anal/block.c:701-714 | the successor list may be left early, but only once the destination is met |
| ShortestPath.VisitRefs | libr/anal/block.c:716-752 | the same for the reference targets of a block |
| ShortestPath.NextLevel | libr/anal/block.c:791-810 | once all blocks met at distance n are expanded, everything at distance n + 1 is met |
| ShortestPath.Reconstruct | libr/anal/block.c:812-825 | following the back pointers gives a route of the recorded depth |
| ShortestPath.ExpandAll | libr/anal/block.c:791-810 | expanding one level keeps the tree of back pointers, the depths, and what is still to expand |
| ShortestPath.FindShortest | libr/anal/block.c:764-832 | the answer is a route over successors and references, no route is shorter, and there is no answer exactly if there is no route |
| AddressPaths.ShortestPathTo | libr/anal/block.c:754-832 | the same for any address, which stands for the first block that contains it |
| Offsets.SetOffset | libr/anal/bb.c:68-96 | which offsets are stored: 16 bits, offset 0 never, and a table that would reach 65535 entries refuses |
| Offsets.SplitOffsets | libr/anal/block.c:370-392 | cutting an instruction table at an offset gives the two halves; the second is empty unless an instruction starts there, and ends where a fresh table stops growing |
| Offsets.MergeOffsets | libr/anal/block.c:419-426 | the offsets of the second table follow those of the first, moved up by the size of its block |
| Offsets.HalvesJoin | libr/anal/block.c:370-426 | joining the halves gives back every offset exactly if nothing lies behind the cut, or an instruction starts there and the second half has at most 49152 instructions |
| Offsets.OpAt | libr/anal/bb.c:100-118 | the instruction that covers an offset cut to 16 bits |
| Offsets.OpAtExact | libr/anal/bb.c:100-118 | that is the covering instruction exactly if the offset fits 16 bits or its low half still lies in the last instruction |
| Offsets.SizesTile | libr/anal/bb.c:121-129 | the instruction sizes are positive and add up to the offset of the next instruction, in the end to the size of the block |
| Blocks.Anal.AddBlock | libr/anal/function.c:273-293 | a block enters a function once: both lists, and the cached range, as the specification functions say |
| Blocks.Anal.RemoveBlock | libr/anal/function.c:295-307 | a block leaves a function: both lists, and a cached range it may have ended is dropped |
| Blocks.AddKeepsRanges | libr/anal/function.c:273-293 | adding keeps every cached range dropped or exact |
| Blocks.RemoveKeepsRanges | libr/anal/function.c:295-307 | removing keeps every cached range dropped or exact |
| Blocks.LinkAdded | libr/anal/function.c:273-279 | after adding, blocks and functions still list each other, once |
| Blocks.LinkRemoved | libr/anal/function.c:295-307 | after removing, too |
| Blocks.Span | libr/anal/function.c:309-327 | the loop over the blocks finds the least start and the greatest end |
| Blocks.Anal.EnsureRange | libr/anal/function.c:309-327 | a dropped range is recomputed exactly; a function without blocks keeps none; a range that is there is not touched |
| Blocks.Anal.LinearSize | libr/anal/function.c:329-333 | the linear size is the span from the first byte to the last, and 0 without blocks |
| SplitMerge.SetSize | libr/anal/block.c:268-285 | a resize moves the cached end of exactly the functions whose range the block ended |
| SplitMerge.ResizeExact | libr/anal/block.c:268-285 | alone, that keeps an exact range exact if and only if a block that ended it still ends it, and another does not grow past it |
| SplitMerge.Split | libr/anal/block.c:330-393 | a split outside the block or onto another block does nothing; at the start it answers the block; else it gives the two halves with edges, functions and instructions as specified |
| SplitMerge.SplitKeepsRange | libr/anal/block.c:330-368 | over a whole split a dropped range stays dropped and an exact one exact |
| SplitMerge.SplitFcn | libr/anal/block.c:353-368 | an exact range has its old bounds again in the end |
| SplitMerge.SplitKeepsBytes | libr/anal/block.c:343-368 | the byte ranges of the halves partition that of the block, and every function keeps its bytes |
| SplitMerge.SplitKeepsReach | libr/anal/block.c:343-361 | reachability among the old blocks is unchanged, if no edge was waiting for the split address |
| SplitMerge.Merge | libr/anal/block.c:395-452 | two blocks are merged exactly if they are contiguous and in the same functions; the tables afterwards |
| SplitMerge.RemoveFromAll | libr/anal/block.c:413-417 | the second block leaves all its functions |
| SplitMerge.SplitThenMerge | libr/anal/block.c:330-452 | splitting and merging restores size, edges, cases and functions, and all instruction offsets exactly under the condition of HalvesJoin; the ranges are dropped |
| Chopping.RemoveUnreachable | libr/anal/block.c:921-929 | a function loses exactly the candidates its entry does not reach |
| Chopping.ChopFunction | libr/anal/block.c:966-972 | one function of the chopped block: what its entry reaches now decides |
| Chopping.Chop | libr/anal/block.c:938-973 | the chopped block ends at the address and leads nowhere, and each of its functions loses exactly the blocks behind it that its own entry block no longer reaches |
| Chopping.StillOrBehind | libr/anal/block.c:938-973 | a block that was reachable is still so without the out-edges of the chopped block, or lies behind it |
| Chopping.ChopExact | libr/anal/block.c:938-973 | for a function whose entry block belongs to it and reached all its blocks, the blocks left are exactly those still reachable |
| Chopping.ChopWithoutEntry | libr/anal/block.c:967-971 | a function without such an entry block loses everything behind the chop |
| Automerging.ScanSuccessors | libr/anal/block.c:1024-1047 | a second predecessor, or a second edge, cancels the first |
| Automerging.ScanFunctions | libr/anal/block.c:1049-1069 | every block of the functions concerned is scanned once; a recorded predecessor is the only one, and a sole predecessor with one edge is recorded |
| Automerging.TryMerge | libr/anal/block.c:1104-1143 | one round merges exactly if that is allowed, redirects the predecessors still to come and recounts the edges |
| Automerging.EmptyLoopMerges | libr/anal/block.c:395-411 | an empty block that is its own only predecessor and successor can be merged with itself: what the results below rule out |
| Automerging.StepKeepsTargets | libr/anal/block.c:1104-1143 | a merge takes away no target of an edge |
| Automerging.StepKeepsKnown | libr/anal/block.c:1118-1136 | after the redirection the recorded predecessors are right again, through chains of merges |
| Automerging.StepKeepsDone | libr/anal/block.c:1104-1143 | a block that could not be merged cannot be merged after a merge of others |
| Automerging.StepKeepsBytes | libr/anal/block.c:428-444 | a merge keeps the bytes of every function |
| Automerging.Automerge | libr/anal/block.c:1073-1151 | no edge in the functions concerned loses its target, every function keeps its bytes and exactly its blocks that still exist, and none of the given blocks that is left could still be merged |
| Noreturn.ChopNoreturn | libr/anal/block.c:938-1004 | chop and automerge together: under the condition of ChopExact the bytes a function has left are exactly those of blocks still reachable; the block is answered exactly if it still exists |
| AddressTree.FindExact | libr/util/rbtree.c:294-307 | the search by address finds exactly the stored block of that address |
| AddressTree.ResizeGood | libr/util/rbtree.c:263-288 | a resize with the sums redone along the path keeps the tree exact |
| BlockTree.InsertGood | libr/util/rbtree.c:187-261 | creating a block, with flips, rotations and the sums redone on the way, keeps order and sums and adds exactly that block |
| BlockTree.DeleteExact | libr/util/rbtree.c:77-185 | deleting one keeps the order and removes exactly that block, even if sums are wrong |
| BlockTree.DeleteGood | libr/util/rbtree.c:77-185 | and keeps the sums, if they were right |
| BlockTree.DescendStained | libr/util/rbtree.c:77-185 | a wrong sum above the sibling of the way is never put right |
| BlockTree.BesideIff | libr/util/rbtree.c:77-185 | one in the sibling is put right exactly if this round rotates its node |
| BlockTree.BelowIff | libr/util/rbtree.c:77-185 | one below is put right exactly if the deletion passes through its node or rotates it |
| BlockTree.MergeIff | libr/anal/block.c:428-443 | a merge, which writes a size without redoing sums, leaves the tree exact if and only if the deletion of the second block passes through the first one or rotates it, or the greatest end below that one already reached its new end |
| BlockTree.MergeNeighbours | libr/anal/block.c:428-443 | so it does if no block starts between the two |
| BlockTree.MergeLosesBytes | libr/anal/block.c:428-443 | otherwise it need not: a tree in which a lookup then misses bytes |
| BlockTree.RotationSaves | libr/util/rbtree.c:135-162 | a tree in which only a rotation beside the way puts the sum right |
| BlockBalance.InsertBalanced | libr/util/rbtree.c:187-261 | creating a block keeps the tree red-black |
| BlockBalance.DeleteBalanced | libr/util/rbtree.c:77-185 | so does deleting one |
| BlockBalance.ClashCools | libr/util/rbtree.c:209-240 | the ancestors the insertion remembers are the true ones whenever it rotates |
| AddressTree.NoHitsBelow | libr/anal/block.c:147-149 | pruning by the greatest end loses nothing |
| AddressTree.NoHitsRight | libr/anal/block.c:143-146 | pruning to the left loses nothing |
| AddressTree.HitsOnce | libr/anal/block.c:133-167 | the walk visits no block twice |
| AddressTree.Walk | libr/anal/block.c:133-219 | without an early stop the walk visits exactly the blocks that meet the range; with one it ends at the first block that asks for it |
| BlockLookup.HeldAfterCreate | libr/anal/block.c:234-246 | the tree holds exactly the block table after a creation |
| BlockLookup.HeldAfterResize | libr/anal/block.c:268-285 | after a resize |
| BlockLookup.HeldAfterSplit | libr/anal/block.c:343-361 | after a split |
| BlockLookup.HeldAfterDelete | libr/anal/block.c:255-266 | after a deletion |
| BlockLookup.HeldAfterMerge | libr/anal/block.c:428-443 | and after a merge if and only if the condition of MergeIff holds |
| BlockLookup.TargetContains | libr/anal/block.c:754-762 | the block an address stands for contains it, if any block does |
| BlockLookup.BlocksIn | libr/anal/block.c:179-186 | the blocks that contain an address, each once |
| BlockLookup.BlocksIntersect | libr/anal/block.c:188-232 | the blocks that meet a range, each once |
| BlockLookup.OpStartsAt | libr/anal/block.c:665-690 | the scan of the instruction offsets with its early end |
| BlockLookup.OpStartsExact | libr/anal/block.c:665-690 | with increasing offsets it misses no instruction |
| BlockLookup.BbgetInLinear | libr/anal/fcn.c:2994-3006 | the first block of the function that answers for an address |
| BlockLookup.BbgetIn | libr/anal/fcn.c:3017-3051 | the tree walk that counts matches, with its fallback, gives that same block |
| BlockLookup.FirstAround | libr/anal/block.c:133-171 | a walk that stops at the first block with some property finds such a block around the address, or there is none and it has seen all |
| BlockLookup.FunctionContains | libr/anal/function.c:366-384 | a function contains an address exactly if one of its own blocks covers it |
| BlockLookup.FromOffset | libr/anal/bb.c:8-44 | where instructions may be jumped into: a block in which one starts at the address, else the block around it that starts last, else none exactly if there is no block |
| Subprocess.StepKeeps | binr/r2r/run.c:501-623 | every step of every thread keeps the invariant |
| Subprocess.RecordedOnce | binr/r2r/run.c:523-588 | in every interleaving a status is recorded at most once, and it is the one the only successful waitpid got |
| Subprocess.WaitTellsTheTruth | binr/r2r/run.c:883-989 | when the wait has returned true, the status is recorded and decoded |
| Subprocess.SigchldTouchesLiveRecords | binr/r2r/run.c:606-619 | while the signal thread goes through the vector it holds the mutex and meets no record that is freed or being freed |
| Subprocess.NoExitMissed | binr/r2r/run.c:590-619 | when the signal thread has nothing left to do, no listed child waits to be reaped |
| Subprocess.StatusStays | binr/r2r/run.c:523-537 | a recorded status never changes |
| WorkerPool.SetupLogMode | binr/r2r/r2r.c:701-719 | the table counts the tests of every path |
| WorkerPool.StepKeeps | binr/r2r/r2r.c:1093-1196 | every step of every thread keeps the invariant |
| WorkerPool.EveryTestOnce | binr/r2r/r2r.c:1093-1146 | in every interleaving each loaded test is in exactly one place: queued, with one worker, or among the results |
| WorkerPool.CountersAddUp | binr/r2r/r2r.c:1124-1130 | the counters and the skips add up to the results |
| WorkerPool.PathsCompleteOnce | binr/r2r/r2r.c:1131-1140 | a path is completed once, exactly when all its tests have results |
| WorkerPool.FinishedMeansAll | binr/r2r/r2r.c:1170-1196 | the run ends only with one result for every test |
| WorkerPool.StepsRunOut | binr/r2r/r2r.c:1093-1196 | every step but a spurious wake-up leaves less work, or the same work and the main thread further on |
| WorkerPool.NeverStuck | binr/r2r/r2r.c:1141-1183 | with a worker, some such step is possible until the run ends: no wake-up is missed |
| WorkerPool.StuckWithoutWorkers | binr/r2r/r2r.c:1155-1183 | without workers and with tests the main thread sleeps for good |
| Purity.Analysis.CheckPurity | libr/anal/fcn.c:491-530 | the recursive search computes the specified marks |
| Purity.Analysis.FunctionPurity | libr/anal/fcn.c:3127-3136 | on a changed function the answer is true exactly if no function reached by calls has a data reference, cycles or not; otherwise it is the old mark |
| Purity.CheckOk | libr/anal/fcn.c:491-530 | every negative mark is right, and below a positive answer all newly checked functions are pure |
| Purity.CheckExact | libr/anal/fcn.c:491-530 | on an empty table the mark of the root is exact |
| Purity.InnerStaysOptimistic | libr/anal/fcn.c:491-530 | an inner function of a cycle can keep a wrong positive mark |
| Allocator.Heap.constructor | binr/preload/alloc.c:39-48 | an empty arena satisfies the invariant: headers tile a prefix, zeros follow, the totals fit |
| Allocator.Heap.Walk | binr/preload/alloc.c:56-74 | the walk along the headers ends at the first fit, at the frontier, or where nothing can fit any more |
| Allocator.Heap.Malloc | binr/preload/alloc.c:50-88 | the first free chunk that is large enough, else a new one at the frontier, else nothing and no change |
| Allocator.Heap.Free | binr/preload/alloc.c:90-100 | a chunk becomes free and leaves the totals; freeing it again changes nothing |
| Allocator.Heap.ClientWrite | binr/preload/alloc.c:50-100 | writes inside a payload do not touch the state |
| Allocator.EarlyTestRight | binr/preload/alloc.c:59-61 | the early capacity test never turns away a request that would fit |
| Allocator.NoneBehind | binr/preload/alloc.c:62 | once a request does not fit before the end, no later chunk can take it |
| Allocator.PayloadsApart | binr/preload/alloc.c:50-88 | payloads of different chunks do not overlap and lie inside the arena |
| Allocator.InUseBounds | binr/preload/alloc.c:59-61 | the chunks in use and any free one fit below the frontier |
| CallConv.ScanReverse | libr/anal/cc.c:969-991 | the capped scan of the last 16 arguments, with one probe for the rest |
| CallConv.ScanForward | libr/anal/cc.c:992-1015 | the capped scan of the first 16 arguments and their homes |
| CallConv.FindSlot | libr/anal/cc.c:951-1024 | for a settled convention the slot is the one the uncapped counts give, for any argument number and count, reversed or not |
| CallConv.ScansExact | libr/anal/cc.c:969-1016 | the caps change nothing for a settled convention |
| CallConv.ReverseExactIff | libr/anal/cc.c:969-991 | for a convention not reversed itself, the capped reverse scan is exact for all arguments if and only if behind an argument in the reverse tail all are on the stack or none is |
| CallConv.OpenHomeOverlaps | libr/anal/cc.c:346-365 | an open tail as the first of several homes breaks that: two of twenty arguments get one slot |
| CallConv.ForwardApart | libr/anal/cc.c:992-1016 | two arguments in the forward tail lie a whole slot apart |
| CallConv.ReverseApart | libr/anal/cc.c:969-991 | so do two in the reverse tail |
| CallConv.TailAboveHomes | libr/anal/cc.c:992-1016 | an argument in the forward tail lies above every explicit slot, unless a static profile reverses the arguments |
| CallConv.TailMissesIff | libr/anal/cc.c:859-885 | with reversed arguments, a forward tail misses an explicit slot if and only if no argument is in the tail, or the slot lies inside the shadow area, or above the whole tail |
| CallConv.ReversedApartIff | libr/anal/cc.c:859-885 | so the tail misses all explicit slots exactly if each of them lies there |
| CallConv.ReversedTailMeetsHome | libr/anal/cc.c:871-884 | a profile for which they meet |
| CallConv.IndexedSeq | libr/anal/cc.c:203-217 | an indexed range has at most 16 places and never goes below 0 |
| CallConv.ParseHomes | libr/anal/cc.c:285-321 | the homes of the i-th argument are the i-th places of all sequences; unequal lengths are refused |
| CallConv.ParseArgs | libr/anal/cc.c:323-367 | exactly the well-formed lists are accepted; the result has at most 16 arguments of at most 8 homes, and is settled if no element with several homes starts with an open tail |
| Records.ReadStringVal | binr/r2r/load.c:53-98 | the loop over the lines of a value computes the specified value, cursor and line number |
| Records.CleanBody | binr/r2r/load.c:71-91 | a value of whole lines, none starting with EOF or ending with a carriage return, is read back, and nothing behind it |
| Records.BodyClean | binr/r2r/load.c:71-91 | only such values are read back |
| Records.Reload | binr/r2r/load.c:158-176 | a value written and loaded again comes back if and only if it is storable; then the line range is that of the lines printed |
| Records.ReplaceLines | binr/r2r/interact.inc.c:56-82 | the lines of a range are replaced, or nothing if the file is too short |
| Records.SkipRecord | binr/r2r/interact.inc.c:58-76 | the range of a record is cut out exactly |
| Records.ReplaceRecord | binr/r2r/interact.inc.c:56-82 | everything outside the range is kept |
| Records.Rewrite | binr/r2r/interact.inc.c:47-82 | rewriting a record keeps all other lines, and what is written loads as the new value with its own range |
| Records.RewriteItself | binr/r2r/interact.inc.c:47-82 | rewriting a canonical record with its own value, in the lines the loader noted, changes nothing |

## Left out

- Leftovers.RightIff: about contents that start below the range, and about all trees with these contents, balanced or not. Contents with nothing below the range and two or more intervals inside it are not settled here.
- The nodes of `new_rbtree.c` are values here, with the way back to the root in a zipper: its loops are recursions, and parent pointers, the fake root and the exchange of nodes are not modelled as such. `Balance.ClashCools` is why the ancestors the insertion remembers are the true ones where it uses them.
- The same holds for `rbtree.c` (`BlockBalance.ClashCools`); its limit on the height of a tree is left out. What a deletion looks for is always in the tree of blocks, and `BlockTree.RbDelete` asks for that.
- Memory operators, conditionals, GOTO and stack-size limits of ESIL, registers wider than 64 bits, packed registers, and the text of graph nodes: the constant analysis is stated for straight-line register programs, because unresolved memory writes do not invalidate the memory map.
- EsilDfg.Dfg.FlagOp: `$s`, which drops one entry without reading it, if there is one, is not a word of the model. `$c` and `$b` before any comparison stop the model; the source has no test for that.
- `_edf_reg_set` and `_edf_mem_set`, and the two reads, repeat one loop each; the loop is modelled once (`Clear`, `Gather`) and used by both.
- ShortestPath.FindShortest: references are given as a map from blocks to target blocks.
- Automerging.Automerge: requires that no empty block is its own successor, which would be merged with itself (`EmptyLoopMerges`); so does `Noreturn.ChopNoreturn`, and `SplitMerge.Merge` is about two different blocks. The entry block of a function is not protected, so nothing is claimed about it.
- `r_anal_block_relocate`, which compares old addresses with the cached minimum.
- Callbacks that stop the graph walks, user interrupts, block hashes, reference counts and events.
- The tables of `Blocks.Anal` are maps from addresses to records, so two references to one block cannot go out of step; the greatest ends live in `AddressTree`, tied to the table by `BlockLookup`.
- Reallocated offset tables read as zeros behind the old end, where the source leaves them uninitialised.
- The wait loop of `r2r_subprocess_wait` may end at any time in the model, which covers time-outs and the end of the output.
- Process ids, pipes other than the kill pipe, output buffers, real time and the Windows half of the subprocess code; `r2r_subprocess_fini`.
- In the worker pool, what running a test does, printing, and the abort path after a thread could not be started, which ends the model.
- Names and text of calling conventions: the parser is modelled on elements already split at commas and quotes, and static profiles as tables; returns, roles and clobbers are left out.
- `fixup_tests` and the line deltas of `replace_cmd_kv`.
- `fcn_recurse`, variables, types, jump tables, and all file formats.
