# A verified model of VMIR's back end, allocators, byte code and readers

VMIR loads LLVM bitcode, lowers it through a small optimising back end and interprets the result.
This project models the parts of it that have something to get wrong, and proves what they are for.

**The back end** (`Bits`, `Code`, `Liveness`, `Interference`, `Coalesce`, `Colour`, `Frame`,
`RegAlloc`, `ParallelCopy`, `NodeList`, `Ssa`, `EdgeSplit`, `SsaExit`, `SsaLists`, `Forwarding`,
`CfgCleanup`, `BackEnd`, `Folding`, `FoldedOps`). Functions are given a step semantics over an
arbitrary machine: what instructions compute, how they act on the world, and which successor a
branch picks. Each pass is a method that updates arrays, lists or fields as the C code does, and is
proved against that semantics.

* *The passes together preserve results*: `BackEnd.TransformPreservesResults`. Split critical edges,
  leave SSA form, clean up, lay the blocks out in list order and allocate registers: the function
  with phis returns given values and a given world if and only if the code over the register frame
  leaves with them, so that each ends exactly if the other does.
* *Register allocation preserves meaning*: `RegAlloc.AllocateRegisters` (liveness, interference,
  coalescing, greedy colouring, call arguments) yields places that separate the interference
  relation of the original code, and `RegAlloc.RunsAgree` shows that any such places make the code
  over frame bytes follow the code over temporaries on every live value, for every run, including
  dead definitions, removed moves and Chaitin's exception for moves. Nothing is left undone: a copy
  stays only between arguments or values that interfere, and colours are the lowest possible.
* *Leaving SSA preserves meaning*: `SsaExit.Function.LeaveSsa` splits critical edges and replaces
  phis by sequentialised parallel copies, and `SsaExit.LeavingSsaPreservesRuns` follows every run;
  `SsaLists.LeavingSsaOnListsPreservesRuns` says the same of the moves that the intrusive lists of
  the C code give.
* *Clean-up preserves runs*: `CfgCleanup.Graph.EliminateDeadCode` and `CfgCleanup.Graph.RemoveEmpty`
  perform legal actions only, and `CfgCleanup.CleanupPreservesRuns` holds for every sequence of them.
* *Folding preserves runs*: `Folding.FusionPreservesRuns`, by dominance, for compares folded into
  branches and selects and LEAs folded into loads and stores; `FoldedOps` shows its hypotheses met by
  32-bit compares, LEAs, loads and stores, and by whole programs.

**TLSF** (`TlsfMapping`, `TlsfLists`, `TlsfBlocks`, `TlsfPayloads`, `Tlsf`): the 64-bit build. `Pool`
keeps the boundary tags and two levels of bitmaps over segregated lists; every operation keeps the
heap invariant (`Pool.Valid`) and leaves every byte of every other block in use alone. With the
invariant the blocks in use determine the heap (`TlsfPayloads.LiveDetermines`), and which block a
request takes, how it is cut and when it fails are stated in numbers.

**Byte code** (`Switch`, `ByteCode`, `ByteCodeRuns`): the emitters, the branch fix-ups and the
interpreter. `ByteCodeRuns.CodeFollowsGraph`: patched byte code follows the control flow graph, with
jumps to the next block left out and switches as jump tables or bisection.

**Addresses** (`TypeLayout`, `Gep`): layout with the least padding; address paths stay inside the
object, reach aligned addresses, and are disjoint where they part (`Gep.WalkInside`,
`Gep.WalkAligned`, `Gep.WalksApart`). The **bitstream** (`BitStream`) and **default heap** (`LibcHeap`).

Words of bit sets are modelled as the sets of their one bits, type and value numbers as natural
numbers, and 32-bit address arithmetic modulo 2^32. `Basics` and `Arith` are shared helpers. Ghost
fields carry the abstract state that the concrete fields represent.

Where a natural claim is not what the code does, the model keeps the code and proves when the claim
holds; the condition is exact unless the item says otherwise:

* the node list of `exit_ssa_edge` unlinks the node in the middle of a chain of copies twice, which can
  bring back a node that has been taken out: the copies 6 <- 5, 1 <- 3, 4 <- 2, 5 <- 6, 2 <- 6 end in a
  null pointer (`NodeList.ListsAreNotSets`). Lists behave as sets if there is no cycle of copies, or if
  every value that is both a destination and a source is on a cycle (`NodeList.ListsAgree`, one
  direction; `SsaLists` for whole functions);
* 64-bit switches clear the lowest bit of their case constants: they are right exactly if every odd case
  and the even case below it go where the default goes (`Switch.Parsed64`, `Switch.Parsed64IsWrong`);
  one-bit switches look at a whole byte (`Switch.DirtyBit`);
* bypassing a branch-only entry block makes the next block in the list the entry: that is right exactly
  if the first block that is left over is the one the branch-only blocks lead to from the old entry
  (`CfgCleanup.Graph.RemoveEmpty`, `CfgCleanup.BypassedEntryIsWrong`, `CfgCleanup.CommonTargetIsRight`);
* `eliminate_dead_code` does not end when it comes to a block that is its own only predecessor, branches
  to itself and is not empty (`CfgCleanup.Graph.Eliminate`, `CfgCleanup.UnreachableLoopIsStuck`). It
  never ends on a function with a ring, that is blocks that branch to one another, that nothing else
  enters and that are not all empty; if some block enters every block but the first, exactly then
  (`CfgCleanup.Graph.EliminateDeadCode`);
* the bitstream reader cannot read on inside the last byte (`BitStream.LastByte`);
* the multiplier of a LEA folded into a load is cut to 16 bits without a check (`Gep.RoffIsLea`);
* the default heap merges a freed block into its predecessor even if that is in use
  (`LibcHeap.Reclaimed`);
* a TLSF pool of exactly 2^32 bytes passes the checks of `tlsf_create` but has no size class
  (`TlsfMapping.IndexInRange`), and `tlsf_memalign` for nothing or for 2^32 bytes or more, with more than
  the base alignment, leaves a heap that does not tile as soon as it finds a block
  (`Tlsf.ZeroRequestBreaksTiling`).

## Model

| member | source | states |
|---|---|---|
| Bits.BitSet | src/vmir_support.c:146-149 | turns on exactly one bit of an array of words |
| Bits.BitClr | src/vmir_support.c:155-158 | turns off exactly one bit |
| Bits.BitChk | src/vmir_support.c:165-170 | tells whether a bit is on |
| Bits.BitSetOr | src/vmir_support.c:177-181 | the destination becomes the union of both sets |
| Bits.Ffs | tlsf/tlsfbits.h:44-47 | the lowest one bit, counted from one, or zero if there is none |
| Bits.TriPosInjective | src/vmir_transform.c:1551-1559 | the packed triangular index is injective on unordered pairs and stays inside the allocation |
| Bits.TriMatrix.constructor | src/vmir_transform.c:1537-1545 | a new matrix holds the empty relation |
| Bits.TriMatrix.Get | src/vmir_transform.c:1566-1569 | reads the symmetric relation the bits stand for |
| Bits.TriMatrix.Set | src/vmir_transform.c:1575-1578 | relates exactly one more unordered pair |
| Bits.TriMatrix.Clr | src/vmir_transform.c:1585-1588 | unrelates exactly one unordered pair |
| Liveness.LivenessUpdate | src/vmir_transform.c:1776-1844 | the iteration ends, and a value is live-in exactly if some path leads to a use with no definition before it |
| Liveness.SolvedIsComplete | src/vmir_transform.c:1776-1844 | any solution of the equations contains everything that is live |
| Liveness.SolvedIsLive | src/vmir_transform.c:1776-1844 | a sound solution contains nothing else |
| Interference.Build | src/vmir_transform.c:1888-1932 | the matrix becomes the interference relation and every count a node's degree |
| Coalesce.MergeNodes | src/vmir_transform.c:2022-2037 | merging two nodes gives the merged relation, with all degrees right except the one that is gone |
| Coalesce.MergedIsImage | src/vmir_transform.c:2022-2037 | the merged relation is the exact image of the original one under the identification, with no node related to itself |
| Coalesce.CoalesceAt | src/vmir_transform.c:1945-2041 | one copy is removed, coalesced or left: left exactly if its operands are two arguments or related; the code, the identification, the matrix and the degrees stay in step |
| Coalesce.CoalesceMoves | src/vmir_transform.c:1941-2043 | after all copies the matrix is the quotient of the interference relation, the code is the original with representatives in place of values, and a copy is left only if its operands are different and are arguments or related |
| Coalesce.SameExactlyIfJoined | src/vmir_transform.c:1941-2043 | two values have become one exactly if removed copies lead from one to the other |
| Colour.SomeColourFree | src/vmir_transform.c:1653-1698 | the neighbours of a node cannot take all of one colour more than there are neighbours |
| Colour.FirstFree | src/vmir_transform.c:1691-1698 | the lowest colour that no neighbour has is found within the words that are searched |
| Colour.ColourAll | src/vmir_transform.c:1662-1699 | neighbours get different colours, each colour is at most the degree, and every lower colour is that of a neighbour with no larger degree |
| Colour.PlaceClass | src/vmir_transform.c:1740-1760 | the values of one size get places in an aligned area, one place for each colour |
| Colour.FinalizeCallArgs | src/vmir_transform.c:2216-2227 | the arguments take the end of the frame in order, and nothing else moves |
| Colour.AreasAreOk | src/vmir_transform.c:1740-1760 | values lie above the scratch bytes and inside the frame, two places are equal or disjoint, and neighbours have disjoint ones |
| Colour.AllocateFrame | src/vmir_transform.c:1616-1770 | greedy colouring and layout without waste give interfering values disjoint byte ranges, the call arguments included |
| Frame.SplitIsOneStore | src/vmir_transform.c:2138-2155 | the two halves of a 64-bit argument are stored as one 64-bit store |
| Frame.SplitStep | src/vmir_transform.c:2138-2155 | executing a split whose halves have adjacent places is one 64-bit store |
| RegAlloc.LiveOutAgrees | src/vmir_transform.c:1888-1932 | a value live after an instruction is in its place after the instruction writes to the frame, whatever it defines |
| RegAlloc.RemovedCopyAgrees | src/vmir_transform.c:1957-1969 | a copy between values in one place can be removed |
| RegAlloc.RunsAgree | src/vmir_transform.c:1872-2056 | for every machine, start and number of steps, the frame code follows the code over temporaries on all live values |
| RegAlloc.FrameSeparates | src/vmir_transform.c:1616-1770 | a frame that is right for the quotient separates the original interference relation |
| RegAlloc.AllocateRegisters | src/vmir_transform.c:2063-2087 | the whole allocation yields rewritten code and places that separate the original relation, above the scratch bytes, with the arguments at the end; a copy is left only if values that have become its operands interfere or both are arguments, and the frame is that of a greedy colouring of the quotient, without waste |
| ParallelCopy.PhisGathered | src/vmir_transform.c:873-897 | the two work lists hold the parallel copy of the phis, each edge and node once, and no copy of a value to itself |
| ParallelCopy.StallIsPermutation | src/vmir_transform.c:915-938 | when no leaf is left the remaining copies are disjoint cycles |
| ParallelCopy.PhaseOne | src/vmir_transform.c:915-938 | emitting leaves ends with a stall and keeps what the finished list has to do |
| ParallelCopy.BreakCycle | src/vmir_transform.c:942-964 | one fresh temporary opens one cycle |
| ParallelCopy.Sequentialise | src/vmir_transform.c:873-964 | each destination gets its source's old value, no other value below the limit changes, there is one move per copy and temporary, and at most one temporary for two destinations on cycles |
| ParallelCopy.ExitSsaEdge | src/vmir_transform.c:859-965 | the moves for an edge do what the phis of its target do together |
| NodeList.UnlinkMember | src/vmir_transform.c:929-931 | unlinking a node that is in the intrusive list removes it and nothing else |
| NodeList.ListsAgree | src/vmir_transform.c:910-964 | on the intrusive list, both phases end and give the parallel copy, if there is no cycle or no chain of copies |
| NodeList.ListsAreNotSets | src/vmir_transform.c:929-953 | a copy for which the second unlinking brings a node back and a null pointer is followed |
| NodeList.BadPhisGathered | src/vmir_transform.c:873-897 | the five phis whose gathered lists are those |
| SsaLists.EdgeMovesRealise | src/vmir_transform.c:859-965 | the moves that the lists give for an edge do what its phis do together, if lists behave as sets for it |
| SsaLists.LeavingSsaOnListsPreservesRuns | src/vmir_transform.c:971-995 | leaving SSA with these moves preserves every run, if lists behave as sets for every edge into phis |
| SsaLists.EdgeFails | src/vmir_transform.c:859-965 | on an edge to those five phis a null pointer is followed |
| Ssa.SourceOf | src/vmir_transform.c:876-887 | evaluated together, each phi of a block takes the value its entry for the predecessor had before |
| EdgeSplit.SplitOk | src/vmir_transform.c:1120-1154 | a function stays well-formed when a block is put on an edge |
| EdgeSplit.SplitRuns | src/vmir_transform.c:1120-1154 | every run survives the new block, phis included |
| SsaExit.EdgeRealises | src/vmir_transform.c:859-965 | the moves of an edge realise its phis on every environment |
| SsaExit.LoweredRuns | src/vmir_transform.c:971-995 | a function whose edges are realised by moves follows the one with phis block by block |
| SsaExit.LeavingSsaPreservesRuns | src/vmir_transform.c:990-995 | splitting critical edges and then leaving SSA preserves every run |
| SsaExit.Function.ConstructCfg | src/vmir_transform.c:1073-1113 | the edge list becomes the successor relation, each edge once |
| SsaExit.SplitEdges | src/vmir_transform.c:1134-1139 | after a block has been put on an edge the edge list is again the successor relation, each edge once |
| SsaExit.Function.BreakNext | src/vmir_transform.c:1120-1154 | one edge is split, phis and branch included: the function stays well-formed, edges match branches, and neither new edge is critical |
| SsaExit.Function.BreakCriticalEdges | src/vmir_transform.c:1161-1182 | a chain of splits after which a block with phis is the only successor of its predecessors |
| SsaExit.Function.ExitSsaBlock | src/vmir_transform.c:971-983 | all edges into a block are served once and its phis are gone |
| SsaExit.Function.ExitSsa | src/vmir_transform.c:990-995 | the result is the lowered form of the function before |
| SsaExit.Function.LeaveSsa | src/vmir_transform.c:2829-2841 | the three passes in order give a chain of splits of critical edges followed by a lowering; lists, edges, labels and values are again right, the list is the old one with each new block in front of its target, and an entry without phis stays first |
| SsaExit.OldListStays | src/vmir_transform.c:1120-1132 | apart from new blocks the list of blocks is the old one, in order |
| CfgCleanup.Graph.Eliminate | src/vmir_transform.c:666-710 | hangs exactly at a block that is its own only predecessor and not empty; else the block is kept exactly if it is entered and not mergeable, and is otherwise deleted or merged by a legal action, with edge lists in step with branches |
| CfgCleanup.Graph.EliminateDeadCode | src/vmir_transform.c:657-713 | the pass merges and deletes by legal actions only and keeps the entry; a block that nothing enters does not survive; it hangs if there is a ring that nothing else enters, and exactly then if every block but the first is entered; if every block is reachable it ends and nothing is left to merge |
| CfgCleanup.Graph.ChangeBranches | src/vmir_transform.c:722-783 | every predecessor goes to the new block wherever it went to the old one, and so do the edges |
| CfgCleanup.Graph.RemoveEmpty | src/vmir_transform.c:1002-1036 | branch-only blocks are bypassed by legal actions until only self-loops are left; the first block is then the right entry exactly if branch-only blocks lead from the old entry to the first block left over |
| CfgCleanup.ActionRuns | src/vmir_transform.c:666-710 | every run after an action is a run before it |
| CfgCleanup.CleanupPreservesRuns | src/vmir_transform.c:657-713 | the same holds from entry to entry for every sequence of legal actions |
| CfgCleanup.StillReached | src/vmir_transform.c:666-710 | merging and deleting keep every block reachable |
| CfgCleanup.BypassInStep | src/vmir_transform.c:1026-1034 | edges still match branches after a bypass |
| Forwarding.ContractKeeps | src/vmir_transform.c:1026-1034 | bypassing one block changes neither which blocks are left over nor where the entry leads |
| CfgCleanup.MergeRings | src/vmir_transform.c:692-710 | a merge leaves a ring to the rest of the list, and makes none |
| CfgCleanup.UnreachableLoopIsStuck | src/vmir_transform.c:692-698 | an unreachable block at which the pass hangs |
| CfgCleanup.BypassedEntryIsWrong | src/vmir_transform.c:1002-1036 | a function that returns another value when its branch-only entry is removed |
| CfgCleanup.CommonTargetIsRight | src/vmir_transform.c:1002-1036 | on a function whose branch-only entry does not lead to the next block the pass still leaves the right block first |
| BackEnd.LinearOk | src/vmir_transform.c:1776-1844 | the laid out code meets what liveness analysis and register allocation ask of their input |
| BackEnd.LinearRuns | src/vmir_transform.c:2063-2087 | the laid out code over temporaries follows the blocks, for every run |
| BackEnd.BackEndPreservesRuns | src/vmir_transform.c:2829-2853 | the code over the frame follows the function with phis block by block, with every live value in its place |
| BackEnd.TransformPreservesResults | src/vmir_transform.c:2829-2855 | the function with phis returns values and a world exactly if the code over the frame, cleaned up, leaves with them |
| Folding.NoDominatorBetween | src/vmir_transform.c:2234-2258 | between a dominating definition and its use no definition of its operands can run |
| Folding.ValueAtUser | src/vmir_transform.c:2265-2305 | whenever a run comes to the user, the result is what the operands would give there |
| Folding.FoldRuns | src/vmir_transform.c:2265-2359 | replacing the user, and dropping the computation if nobody else needs it, keeps every run |
| Folding.FusionPreservesRuns | src/vmir_transform.c:2265-2359 | in strict SSA form the fused instruction keeps every branch, address and effect on every run |
| FoldedOps.CompareBranchFuses | src/vmir_transform.c:2265-2305 | each of the ten 32-bit compares and a branch on it fuse |
| FoldedOps.CompareSelectFuses | src/vmir_transform.c:2311-2359 | each of them and a select on it fuse |
| FoldedOps.LeaFuses | src/vmir_transform.c:219-241 | a scaled LEA and a load through it fuse exactly if the multiplier fits 16 signed bits |
| FoldedOps.StoreFuses | src/vmir_transform.c:195-212 | a LEA by a constant and a store through it fuse |
| FoldedOps.FusionHasInstance | src/vmir_transform.c:2265-2305 | programs and a machine that meet all hypotheses of the run theorem |
| Folding.Upstream | src/vmir_transform.c:2234-2258 | finds the only definition of a value whose only user is the target, and says why it found none |
| Folding.Combine | src/vmir_transform.c:2265-2359 | fuses exactly if the operand has one definition, no other user, and the classes allow it; then the user is fused and the compare removed, under the conditions of the run theorem |
| Folding.MergeLea | src/vmir_transform.c:196-241 | fuses exactly if the first definition of the operand allows it; the LEA is kept |
| TlsfMapping.Fls | tlsf/tlsfbits.h:159-172 | the highest power of two not above a number |
| TlsfMapping.MappingRange | tlsf/tlsf.c:315-332 | a size lies in the range of its class, with both indices in range below 2^32 |
| TlsfMapping.IndexInRange | tlsf/tlsf.c:315-332 | the first-level index is in range exactly for sizes below 2^32 |
| TlsfMapping.ClassMonotone | tlsf/tlsf.c:315-332 | classes are ordered as sizes are |
| TlsfMapping.SearchStartsAbove | tlsf/tlsf.c:335-343 | the class that is searched begins at or above an aligned request |
| TlsfMapping.GoodFit | tlsf/tlsf.c:335-375 | a block in a searched class is large enough, and one as large as the rounded request is in a searched class |
| TlsfMapping.RoundedBound | tlsf/tlsf.c:334-343 | rounding up adds less than one part in 32 |
| TlsfLists.FreeLists.constructor | tlsf/tlsf.c:588-604 | all lists are empty and so are the bitmaps |
| TlsfLists.FreeLists.Insert | tlsf/tlsf.c:407-425 | exactly one more block is listed, links and bitmaps stay right |
| TlsfLists.FreeLists.Remove | tlsf/tlsf.c:378-404 | exactly that block is unlisted, links and bitmaps stay right |
| TlsfLists.FreeLists.SearchSuitable | tlsf/tlsf.c:345-375 | a block of the lowest class at or above the given one, or none if there is none |
| TlsfBlocks.InOrder | tlsf/tlsf.c:719-734 | later blocks lie wholly behind earlier ones |
| TlsfBlocks.TagMark | tlsf/tlsf.c:260-273 | marking keeps all boundary tags right |
| TlsfBlocks.TagAbsorb | tlsf/tlsf.c:471-478 | absorbing keeps them right, except for one bit if the flags differed |
| TlsfBlocks.TagSplit | tlsf/tlsf.c:449-468 | splitting keeps them right |
| TlsfBlocks.UseCoalesced | tlsf/tlsf.c:575-585 | handing out a block leaves no two free neighbours |
| TlsfBlocks.ReleaseCoalesced | tlsf/tlsf.c:898-910 | releasing one leaves none either |
| TlsfBlocks.TrimUsedCoalesced | tlsf/tlsf.c:525-537 | nor does shrinking one |
| TlsfBlocks.GrowCoalesced | tlsf/tlsf.c:964-969 | nor does growing one |
| TlsfBlocks.AllFreeIsOneBlock | tlsf/tlsf.c:654-709 | when everything is free there is one block of the original size |
| TlsfPayloads.PayloadsDisjoint | tlsf/tlsf.c:219-229 | payloads are aligned, disjoint, and overlap no size word |
| TlsfPayloads.LinksInside | tlsf/tlsf.c:407-425 | list links and the next block's back link lie in the free block's own payload and do not overlap |
| TlsfPayloads.LiveUse | tlsf/tlsf.c:575-585 | handing out a block adds exactly it to the blocks in use |
| TlsfPayloads.LiveRelease | tlsf/tlsf.c:898-910 | releasing one removes exactly it, whatever is merged |
| TlsfPayloads.LiveDetermines | tlsf/tlsf.c:481-509 | where no two neighbours are free, the blocks in use determine the whole heap |
| Tlsf.GapOk | tlsf/tlsf.c:868-890 | the gap makes the address aligned, is nothing or a whole block, and is at most the alignment plus 24 |
| Tlsf.GapIsLeast | tlsf/tlsf.c:868-890 | no smaller gap that is nothing or a whole block leads to an aligned address |
| Tlsf.GapFits | tlsf/tlsf.c:844-890 | a block found for the enlarged request holds the gap and the request |
| Tlsf.AdjustIsLeast | tlsf/tlsf.c:296-309 | the adjusted request is the smallest block that holds the size; zero for nothing and for 2^32 bytes or more |
| Tlsf.AlignedRequestBound | tlsf/tlsf.c:844-862 | what is looked for in excess of the request is at most twice the alignment and a header |
| Tlsf.ChosenIsTight | tlsf/tlsf.c:443-446 | the block handed out is less than a header larger than any block that would do |
| Tlsf.NoRoomBound | tlsf/tlsf.c:555-573 | when the search fails no free block is one part in 32 larger than the request |
| Tlsf.PoolBytesIs | tlsf/tlsf.c:762-805 | which sizes tlsf_create accepts, in 64-bit arithmetic |
| Tlsf.ZeroRequestBreaksTiling | tlsf/tlsf.c:844-896 | a request for nothing or too much with more than the base alignment: the block that is found is cut to nothing and the heap no longer tiles; one is looked for exactly if the alignment is less than 2^32 - 32 |
| Tlsf.Create | tlsf/tlsf.c:762-830 | a pool with one free block, exactly for the accepted sizes |
| Tlsf.Pool.constructor | tlsf/tlsf.c:806-829 | a new pool satisfies the heap invariant |
| Tlsf.Pool.BlockInsert | tlsf/tlsf.c:436-441 | the block is listed under the class of its size, and no payload in use changes |
| Tlsf.Pool.MarkAsFree | tlsf/tlsf.c:260-266 | the tags of the block and its successor say that it is free |
| Tlsf.Pool.MarkAsUsed | tlsf/tlsf.c:268-273 | the tags say that it is in use |
| Tlsf.Pool.BlockAbsorb | tlsf/tlsf.c:471-478 | the tags of the joined block |
| Tlsf.Pool.MergePrev | tlsf/tlsf.c:481-493 | merges with a free predecessor, found by the boundary tag, and only then |
| Tlsf.Pool.MergeNext | tlsf/tlsf.c:496-509 | merges with a free successor, and only then |
| Tlsf.Pool.SplitBlock | tlsf/tlsf.c:449-468 | the block is cut, all tags are right, and exactly the parts that must be are unlisted |
| Tlsf.Pool.TrimFree | tlsf/tlsf.c:512-522 | a free block gives its tail back if that makes a block |
| Tlsf.Pool.TrimFreeLeading | tlsf/tlsf.c:539-553 | a free block gives its head back |
| Tlsf.Pool.TrimUsed | tlsf/tlsf.c:525-537 | a block in use gives its tail back, merged with a free successor |
| Tlsf.Pool.LocateFree | tlsf/tlsf.c:555-573 | an unlisted block that is large enough, of the lowest class that serves, or none if no free block reaches the rounded request |
| Tlsf.Pool.PrepareUsed | tlsf/tlsf.c:575-585 | the block is trimmed and in use, and the invariant holds again |
| Tlsf.Pool.Malloc | tlsf/tlsf.c:836-842 | keeps the invariant; a block of the lowest class that serves, cut to the smallest size that holds the request if the rest makes a block, the others and their bytes unchanged; or nothing changed, and then no free block reaches the rounded request |
| Tlsf.Pool.Memalign | tlsf/tlsf.c:844-896 | as malloc, at the first aligned address that leaves no gap or a whole block in front; the gap is then a free block |
| Tlsf.Pool.Free | tlsf/tlsf.c:898-910 | keeps the invariant; exactly that block is released and merged |
| Tlsf.Pool.GrowUsed | tlsf/tlsf.c:964-969 | a block in use swallows its free successor with its bytes kept |
| Tlsf.Pool.ResizeBlock | tlsf/tlsf.c:960-975 | resizing in place keeps the first bytes and all other blocks |
| Tlsf.Pool.MoveBlock | tlsf/tlsf.c:947-958 | moving keeps the first bytes and all other blocks, into a block as malloc would choose; or changes nothing, and then no free block reaches the rounded request |
| Tlsf.Pool.Realloc | tlsf/tlsf.c:925-979 | all cases: as malloc, as free, in place exactly if it fits there and then as large as needed, else moved; or untouched, and then no free block reaches the rounded request |
| Switch.ScanPermutation | src/vmir_instr_parse.c:1102-1102 | the order of distinct cases does not matter |
| Switch.ParseSwitch | src/vmir_instr_parse.c:1072-1103 | the masked cases, sorted |
| Switch.ParsedMeansTheSame | src/vmir_instr_parse.c:1088-1102 | below 64 bits the parsed cases pick what a scan of the program's cases picks |
| Switch.OddCasesAreLost | src/vmir_instr_parse.c:1090-1090 | with 64 bits an odd value goes to the default whatever the cases are |
| Switch.Parsed64 | src/vmir_instr_parse.c:1088-1102 | a 64-bit switch is right for all values and all orders of equal keys exactly if odd cases, and the even ones below them, go to the default |
| Switch.Parsed64IsWrong | src/vmir_instr_parse.c:1090-1102 | an odd case that is lost, an even value that finds it, and two cases with one key |
| Switch.Bisect | src/vmir_vm.c:1329-1345 | the loop computes the bisection the run theorem executes, without cases too, and with ascending keys the first case with the key |
| Switch.BisectionFinds | src/vmir_vm.c:1329-1345 | with ascending keys bisection finds what a search from the front finds |
| Switch.FindScan | src/vmir_vm.c:1329-1345 | the target behind the key found is what a scan finds, also with equal keys |
| Switch.DirtyBit | src/vmir_vm.c:3470-3494 | looking a one-bit value up by its byte is right exactly if the byte is clean or the value has no case |
| Switch.FillTable | src/vmir_vm.c:3538-3554 | the table of the last case for every index |
| Switch.TableScan | src/vmir_vm.c:3538-3554 | looking up in the table is scanning the cases |
| ByteCode.WordsRoundTrip | src/vmir_vm.c:2215-2233 | immediates are read back as they were written |
| ByteCode.SwitchForms | src/vmir_vm.c:3440-3565 | which form a switch takes, for each width and number of cases |
| ByteCode.WordsAreNeeded | src/vmir_vm.c:3393-3433 | only a jump to the next block is left out, and each branch names its targets in order |
| ByteCode.KeysAligned | src/vmir_vm.c:3522-3540 | the keys of a 64-bit switch are 32-bit aligned |
| ByteCode.Emitter.EmitSwitch | src/vmir_vm.c:3440-3565 | what is written for each width, masking and alignment included, and where its fix-up is |
| ByteCode.Emitter.EmitTerm | src/vmir_vm.c:3393-3433 | what is written for each last instruction; nothing, and no fix-up, for a jump to the next block |
| ByteCode.Emitter.EmitFunction | src/vmir_vm.c:4546-4618 | every block is written at its offset, with one fix-up for each instruction that has targets |
| ByteCode.Emitter.BbToOffsetDelta | src/vmir_vm.c:4460-4475 | succeeds exactly if the block exists and is within 16 bits of the place behind the opcode |
| ByteCode.Emitter.WhereIds | src/vmir_vm.c:4485-4538 | the ids are found where each kind of instruction has them |
| ByteCode.Emitter.BranchFixup | src/vmir_vm.c:4485-4538 | succeeds exactly if every target is in reach, and then every id is replaced by its distance and nothing else changes |
| ByteCodeRuns.JumpLands | src/vmir_vm.c:624-625 | a patched operand leads to the first word of its block |
| ByteCodeRuns.BranchRuns | src/vmir_vm.c:1059-1101 | executing a branch goes where the program goes |
| ByteCodeRuns.SwitchRuns | src/vmir_vm.c:1325-1392 | executing any form of switch, by table or by bisection, goes to the block a scan of the cases picks |
| ByteCodeRuns.Reduced | src/vmir_vm.c:3453-3505 | masking, casting or reading fewer bits gives the value of the switch, whatever the upper bits |
| ByteCodeRuns.FallThrough | src/vmir_vm.c:3393-3407 | a jump that is not written falls through to its target |
| ByteCodeRuns.ToyMachineOk | src/vmir_vm.c:1325-1392 | a machine that meets the hypothesis of the run theorem |
| ByteCodeRuns.CodeFollowsGraph | src/vmir_vm.c:537-660 | byte-code runs equal runs of the control flow graph, block by block and at the end |
| TypeLayout.ElementsApart | src/vmir_type.c:655-680 | elements are in order, disjoint, inside the struct, and aligned unless packed |
| TypeLayout.SizeIsAligned | src/vmir_type.c:343-383 | sizes are multiples of alignments |
| TypeLayout.ScalarSizes | src/vmir_type.c:343-383 | sizes of scalars, pointers of 32 bits |
| TypeLayout.PaddingIsLeast | src/vmir_type.c:655-680 | no more padding than alignment asks for, in front of elements and at the end |
| TypeLayout.AlignmentIsLargest | src/vmir_type.c:655-680 | the alignment of a struct is the largest of its elements, one if it is packed |
| TypeLayout.FieldAligned | src/vmir_type.c:655-680 | in an aligned object every element is aligned |
| TypeLayout.Types.Sizeof | src/vmir_type.c:343-383 | the size of a type whose structs have been laid out |
| TypeLayout.Types.Alignment | src/vmir_type.c:446-483 | its alignment |
| TypeLayout.Types.StructLayout | src/vmir_type.c:655-680 | computes the layout, nested structs included, and keeps what has been computed |
| TypeLayout.Types.Finalize | src/vmir_type.c:688-696 | afterwards every struct has its layout |
| Gep.Fold | src/vmir_value.c:966-1008 | constant folding with stored offsets gives the address of the step-by-step walk modulo 2^32, and fails exactly if the walk does |
| Gep.StepOver | src/vmir_value.c:977-1003 | one index, with computed sizes and the offsets that the layout has stored |
| Gep.RowsTouch | src/vmir_value.c:983-1003 | behind a pointer and in an array objects follow one another without gaps |
| Gep.WalkInside | src/vmir_value.c:966-1008 | what a walk into parts reaches lies inside what it reached before |
| Gep.WalksApart | src/vmir_value.c:966-1008 | two paths that part somewhere reach disjoint bytes |
| Gep.WalkAligned | src/vmir_value.c:966-1008 | from an aligned pointer a path through unpacked types reaches an aligned address |
| Gep.AddressAligned | src/vmir_value.c:966-1008 | and so does the address modulo 2^32 |
| Gep.WalkFails | src/vmir_value.c:978-996 | a walk ends early only at a type without parts or an index beyond a struct |
| Gep.ReplaceGep | src/vmir_transform.c:86-190 | succeeds exactly for what can be lowered; the code then computes the address of the walk for every value of the registers, changes only fresh ones, and has one LEA per register index |
| Gep.Registerify | src/vmir_transform.c:32-55 | the base is in a register afterwards |
| Gep.Interim | src/vmir_transform.c:61-79 | an interim LEA absorbs the pending register index |
| Gep.FoldingAgrees | src/vmir_value.c:966-1008 | folding a constant path and lowering it succeed together, and then the code computes the address that folding gives |
| Gep.LeaFormsAgree | src/vmir_vm.c:3702-3748 | every form of LEA computes base plus scaled index plus offset |
| Gep.ShiftTest | src/vmir_vm.c:3722-3724 | the shift test accepts exactly the powers of two |
| Gep.RoffIsLea | src/vmir_vm.c:2693-2695 | a folded load addresses what the LEA gave exactly if the multiplier fits 16 signed bits |
| BitStream.ValueJoin | src/vmir_bitstream.c:37-60 | reading a number of bits at once or in two parts is the same |
| BitStream.Reader.ReadBits | src/vmir_bitstream.c:37-60 | the next bits, lowest first across bytes, exactly when they can be read, else zero |
| BitStream.Reader.AlignBits32 | src/vmir_bitstream.c:67-71 | the next multiple of 32 bits |
| BitStream.Reader.ReadVbr | src/vmir_bitstream.c:77-124 | the number the chunks spell, and failure exactly if there are too many |
| BitStream.FixedRoundTrip | src/vmir_bitstream.c:37-60 | reading undoes the fixed width encoding |
| BitStream.VbrRoundTrip | src/vmir_bitstream.c:77-124 | reading undoes the variable width encoding of every 32- or 64-bit number |
| BitStream.SignedRoundTrip | src/vmir_bitstream.c:181-189 | signed numbers come back, the smallest included |
| BitStream.EndsBeforeLastByte | src/vmir_bitstream.c:43-44 | an encoding that ends before the last byte can be read |
| BitStream.LastByte | src/vmir_bitstream.c:43-44 | which bits that exist cannot be read |
| LibcHeap.Heap.constructor | src/vmir_libc.c:162-174 | one free block |
| LibcHeap.RoundedIsLeast | src/vmir_libc.c:182-183 | the smallest multiple of the alignment that holds header and request |
| LibcHeap.Heap.Malloc | src/vmir_libc.c:178-206 | the first block that fits, cut if the rest makes two headers; fails exactly if none fits; a new aligned pointer, and no other loses room |
| LibcHeap.JoinedTiles | src/vmir_libc.c:210-218 | swallowing the next block keeps the tiling |
| LibcHeap.JoinedRoom | src/vmir_libc.c:210-218 | swallowing a free block takes no room from any pointer that is out |
| LibcHeap.Heap.Free | src/vmir_libc.c:221-237 | exactly that pointer is gone, and no other loses room |
| LibcHeap.TakenOk | src/vmir_libc.c:178-206 | tiling is kept and no two neighbours are free |
| LibcHeap.FreedOk | src/vmir_libc.c:221-237 | the same for freeing |
| LibcHeap.PayloadsApart | src/vmir_libc.c:178-206 | what is behind two pointers is disjoint, headers included |
| LibcHeap.Reclaimed | src/vmir_libc.c:232-236 | freed bytes can be handed out again exactly if the block had no predecessor or a free one |
| LibcHeap.FreedIs | src/vmir_libc.c:210-237 | the list after freeing, written out: the block, a free successor and any predecessor have become one |
| LibcHeap.NothingOut | src/vmir_libc.c:162-237 | with nothing handed out the single initial block is restored |

## Left out

- The ARM JIT and all code under `VMIR_VM_JIT`, including the second liveness run inside `coalesce`.
- The C library emulation, files, formatted output, setjmp, exceptions, variable arguments and tracing; the rest of
  the bitcode records.
- Floating point and the one-line arithmetic instructions: they are the machine that the run theorems quantify over.
- `parse_phi`'s sorting, `swap_pred`, `invert_pred` and the generic bit scan: easy members. `qsort` is modelled as
  an insertion sort; any sorted permutation of the cases has the properties proved.
- Dead-value marking in `eliminate_dead_code_in_bb`, multiply-add folding and load-cast folding; liveness and
  folding are about one function at a time.
- Bits.TriPosInjective: the index is a natural number; the overflow of the C `int` arithmetic for more than 46340
  temporaries is not modelled.
- RegAlloc.AllocateRegisters: removed instructions stay as holes that execution passes over, because instruction
  positions are list positions; branch targets are resolved to positions.
- RegAlloc.RunsAgree: moves are between values of one size, or split a 64-bit argument into two words, which is what
  the earlier passes emit.
- ParallelCopy.PhaseOne: graph nodes are taken out of sets; `NodeList` has the list of the C code and says when that
  is the same.
- ParallelCopy.Sequentialise: as `PhaseOne`, for every parallel copy, including those on which the C code fails.
- ParallelCopy.ExitSsaEdge: as `PhaseOne`; `SsaLists` has the edge, and the theorem about leaving SSA, for the lists
  of the C code.
- NodeList.ListsAgree: only sufficient; some copies with a cycle and a chain come out right although a node is
  unlinked twice, which depends on the order of the list.
- SsaExit.Function.LeaveSsa: an invoke has different blocks for return and exception, and block lists and edge lists
  are sequences without pointers.
- CfgCleanup.Graph.EliminateDeadCode: when the C loop runs for ever the model stops and reports it; if there are
  blocks that nothing enters, a ring is sufficient but not necessary, since deleting them in list order can leave
  one behind.
- BackEnd.TransformPreservesResults: instruction combining, argument moves for calls and legalisation run between
  these passes and are not in the chain; results have the widths of their types, and a jump does not act on the
  world, which are hypotheses about the machine. Frame code and byte code are not joined: encoding the instructions
  other than branches and switches is not modelled.
- Folding.FusionPreservesRuns: the phis of a block are one instruction that defines them all; what the fused
  instruction computes is a hypothesis about the machine; the types that keep a compare from being used twice by one
  select are a precondition of `Combine`.
- Tlsf.Pool.Malloc: sizes whose rounding reaches 2^32 are excluded, since the C code then indexes outside its tables.
- Tlsf.Pool.LocateFree: likewise.
- Tlsf.Create: a first block of exactly 2^32 bytes is excluded, for the same reason.
- Tlsf.Pool.Memalign: alignments are powers of two, sizes do not round to 2^32, and a request for more than the base
  alignment is neither zero nor 2^32 or more, see `Tlsf.ZeroRequestBreaksTiling`.
- Tlsf.Pool.Realloc: requests of 2^32 or more for an existing block are excluded, because the C code would cut the
  block to nothing.
- Tlsf.Pool.constructor: size words are kept apart from payload bytes; list links and back links overwrite payload
  bytes, with arbitrary values. The link fields of the null block are not constrained.
- TlsfLists.FreeLists.Insert: links are maps from block addresses, so that two blocks are never the same memory by
  accident; `TlsfPayloads.LinksInside` is the reason.
- ByteCode.Emitter.EmitFunction: the buffer does not run full, the unused byte next to an 8-bit immediate is zero,
  and opcodes are not resolved to addresses.
- ByteCodeRuns.CodeFollowsGraph: a one-bit switch is only defined if its byte is 0 or 1, see `Switch.DirtyBit`;
  calls do not rewrite their own opcode.
- Switch.ParsedMeansTheSame: cases are distinct, which LLVM requires.
- TypeLayout.Types.Finalize: what a type holds by value stands before it in the type table, which is the order LLVM
  writes; an array of structs that come later would be measured too early. Sizes do not overflow.
- Gep.ReplaceGep: register indices are 32 bits wide and multipliers are not zero, which `emit_lea` checks; a
  negative struct index is taken as out of range.
- LibcHeap.Heap.Malloc: sizes are not negative and do not overflow; the queue is a sequence, and `vmir_heap_realloc`
  is not modelled.
- BitStream.Reader.ReadVbr: chunks are at most 32 bits wide.
