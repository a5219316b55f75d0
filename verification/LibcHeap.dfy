/** The heap that is used when TLSF is not built in: src/vmir_libc.c, first fit over one list. */
module LibcHeap {

  type Addr = nat

  const HEAP_HEADER := 16
  const BLOCK_HEADER := 24
  const ALIGNMENT := 16
  const INT_MAX := 0x7FFF_FFFF

  datatype HeapBlock = HeapBlock(addr: Addr, size: nat, free: bool)

  /** The blocks tile [start, end): each begins where the one before ends.  All sizes but the last
      are multiples of the alignment. */
  ghost predicate Tiles(bs: seq<HeapBlock>, start: Addr, end: Addr) {
    && |bs| > 0 && bs[0].addr == start
    && forall k | 0 <= k < |bs| :: TileOk(bs, end, k)
  }

  predicate TileOk(bs: seq<HeapBlock>, end: Addr, k: nat)
    requires k < |bs|
  {
    && bs[k].size >= BLOCK_HEADER
    && bs[k].addr + bs[k].size == (if k + 1 < |bs| then bs[k + 1].addr else end)
    && (k + 1 < |bs| ==> bs[k].size % ALIGNMENT == 0)
  }

  ghost predicate NoFreeNeighbours(bs: seq<HeapBlock>) {
    forall k | 0 <= k < |bs| - 1 :: !(bs[k].free && bs[k + 1].free)
  }

  /** Later blocks lie behind earlier ones. */
  lemma {:induction false} InOrder(bs: seq<HeapBlock>, start: Addr, end: Addr, i: nat, j: nat)
    requires Tiles(bs, start, end) && i < j <= |bs|
    ensures bs[i].addr + bs[i].size <= (if j < |bs| then bs[j].addr else end)
    ensures start <= bs[i].addr
    decreases j
  {
    assert TileOk(bs, end, j - 1);
    if i < j - 1 {
      InOrder(bs, start, end, i, j - 1);
    } else if i > 0 {
      InOrder(bs, start, end, i - 1, i);
    }
  }

  /** Every block is as aligned as the first one. */
  lemma {:induction false} Aligned(bs: seq<HeapBlock>, start: Addr, end: Addr, i: nat)
    requires Tiles(bs, start, end) && i < |bs|
    ensures bs[i].addr % ALIGNMENT == start % ALIGNMENT
  {
    if i > 0 {
      Aligned(bs, start, end, i - 1);
      assert TileOk(bs, end, i - 1);
    }
  }

  lemma Apart(bs: seq<HeapBlock>, start: Addr, end: Addr)
    requires Tiles(bs, start, end)
    ensures forall i, j | 0 <= i < j < |bs| :: bs[i].addr < bs[j].addr
  {
    forall i: nat, j: nat | i < j < |bs|
      ensures bs[i].addr < bs[j].addr
    {
      InOrder(bs, start, end, i, j);
      assert TileOk(bs, end, i);
    }
  }

  // ----- what the operations do to the list -----

  /** What vmir_heap_malloc asks for: room for the header, rounded up. */
  function Rounded(size: nat): (r: nat) {
    (size + BLOCK_HEADER + ALIGNMENT - 1) / ALIGNMENT * ALIGNMENT
  }

  /** It is the smallest multiple of the alignment that holds header and request. */
  lemma RoundedIsLeast(size: nat, n: nat)
    ensures Rounded(size) % ALIGNMENT == 0 && Rounded(size) >= size + BLOCK_HEADER
    ensures n % ALIGNMENT == 0 && n >= size + BLOCK_HEADER ==> Rounded(size) <= n
  {
    var q := (size + BLOCK_HEADER + ALIGNMENT - 1) / ALIGNMENT;
    assert Rounded(size) == ALIGNMENT * q;
    if n % ALIGNMENT == 0 && n >= size + BLOCK_HEADER {
      var p := n / ALIGNMENT;
      assert n == ALIGNMENT * p;
    }
  }

  /** Block i is handed out for need bytes. */
  function Taken(bs: seq<HeapBlock>, i: nat, need: nat): (r: seq<HeapBlock>)
    requires i < |bs| && need <= bs[i].size
    ensures |r| == if bs[i].size - need < 2 * BLOCK_HEADER then |bs| else |bs| + 1
    ensures forall k | 0 <= k < |r| :: r[k] ==
              if k < i then bs[k]
              else if k == i then HeapBlock(bs[i].addr, if |r| == |bs| then bs[i].size else need, false)
              else if |r| == |bs| then bs[k]
              else if k == i + 1 then HeapBlock(bs[i].addr + need, bs[i].size - need, true)
              else bs[k - 1]
  {
    if bs[i].size - need < 2 * BLOCK_HEADER then bs[i := bs[i].(free := false)]
    else
      bs[..i]
      + [HeapBlock(bs[i].addr, need, false), HeapBlock(bs[i].addr + need, bs[i].size - need, true)]
      + bs[i + 1..]
  }

  /** Block i swallows its successor. */
  function Joined(bs: seq<HeapBlock>, i: nat): (r: seq<HeapBlock>)
    requires i + 1 < |bs|
    ensures |r| == |bs| - 1
    ensures forall k | 0 <= k < |r| :: r[k] ==
              if k < i then bs[k] else if k == i then bs[i].(size := bs[i].size + bs[i + 1].size) else bs[k + 1]
  {
    bs[..i] + [bs[i].(size := bs[i].size + bs[i + 1].size)] + bs[i + 2..]
  }

  /** vmir_heap_merge_next */
  function MergeNextSpec(bs: seq<HeapBlock>, i: nat): (r: seq<HeapBlock>)
    requires i < |bs|
    ensures i < |r|
  {
    if i + 1 < |bs| && bs[i + 1].free then Joined(bs, i) else bs
  }

  /** Block i is freed: it swallows a free successor, and then its predecessor swallows it, whether
      that one is free or not. */
  function Freed(bs: seq<HeapBlock>, i: nat): (r: seq<HeapBlock>)
    requires i < |bs|
  {
    var r := MergeNextSpec(bs[i := bs[i].(free := true)], i);
    if i > 0 then MergeNextSpec(r, i - 1) else r
  }

  lemma TakenOk(bs: seq<HeapBlock>, start: Addr, end: Addr, i: nat, need: nat)
    requires Tiles(bs, start, end) && NoFreeNeighbours(bs) && i < |bs| && bs[i].free
    requires BLOCK_HEADER <= need <= bs[i].size && need % ALIGNMENT == 0
    ensures Tiles(Taken(bs, i, need), start, end) && NoFreeNeighbours(Taken(bs, i, need))
  {
    var r := Taken(bs, i, need);
    forall k | 0 <= k < |r|
      ensures TileOk(r, end, k)
      ensures k < |r| - 1 ==> !(r[k].free && r[k + 1].free)
    {
      assert TileOk(bs, end, i);
      assert TileOk(bs, end, if k <= i || |r| == |bs| then k else k - 1);
      if |r| == |bs| + 1 && k == i + 1 && k < |r| - 1 {
        assert !(bs[i].free && bs[i + 1].free);
      } else if |r| == |bs| + 1 && k > i + 1 && k < |r| - 1 {
        assert !(bs[k - 1].free && bs[k - 1 + 1].free);
      }
    }
  }

  lemma JoinedTiles(bs: seq<HeapBlock>, start: Addr, end: Addr, i: nat)
    requires Tiles(bs, start, end) && i + 1 < |bs|
    ensures Tiles(Joined(bs, i), start, end)
  {
    var r := Joined(bs, i);
    forall k | 0 <= k < |r|
      ensures TileOk(r, end, k)
    {
      assert TileOk(bs, end, i) && TileOk(bs, end, i + 1);
      assert TileOk(bs, end, if k <= i then k else k + 1);
    }
  }

  lemma FreedOk(bs: seq<HeapBlock>, start: Addr, end: Addr, i: nat)
    requires Tiles(bs, start, end) && NoFreeNeighbours(bs) && i < |bs| && !bs[i].free
    ensures Tiles(Freed(bs, i), start, end) && NoFreeNeighbours(Freed(bs, i))
  {
    var m := bs[i := bs[i].(free := true)];
    assert Tiles(m, start, end) by {
      forall k | 0 <= k < |m|
        ensures TileOk(m, end, k)
      {
        assert TileOk(bs, end, k);
      }
    }
    var r := MergeNextSpec(m, i);
    if r != m {
      JoinedTiles(m, start, end, i);
    }
    NextNotFree(bs, i);
    if i > 0 {
      JoinedTiles(r, start, end, i - 1);
      PreviousTakesIt(bs, i, r);
    }
  }

  /** After the first merge only the pair (i - 1, i) can both be free. */
  lemma NextNotFree(bs: seq<HeapBlock>, i: nat)
    requires NoFreeNeighbours(bs) && i < |bs| && !bs[i].free
    ensures var r := MergeNextSpec(bs[i := bs[i].(free := true)], i);
      && r[i].free && |r| > 0
      && forall k | 0 <= k < |r| - 1 && k != i - 1 :: !(r[k].free && r[k + 1].free)
  {
    var m := bs[i := bs[i].(free := true)];
    var r := MergeNextSpec(m, i);
    forall k | 0 <= k < |r| - 1 && k != i - 1
      ensures !(r[k].free && r[k + 1].free)
    {
      if r == m || k < i {
        assert k < |bs| - 1 ==> !(bs[k].free && bs[k + 1].free);
      } else {
        assert !(bs[k + 1].free && bs[k + 1 + 1].free);
      }
    }
  }

  lemma PreviousTakesIt(bs: seq<HeapBlock>, i: nat, r: seq<HeapBlock>)
    requires 0 < i < |r| && r[i].free && (forall k | 0 <= k < |r| - 1 && k != i - 1 :: !(r[k].free && r[k + 1].free))
    ensures NoFreeNeighbours(MergeNextSpec(r, i - 1))
  {
    var q := MergeNextSpec(r, i - 1);
    forall k | 0 <= k < |q| - 1
      ensures !(q[k].free && q[k + 1].free)
    {
      if k + 1 <= i - 1 {
        assert !(r[k].free && r[k + 1].free);
      } else {
        assert !(r[k + 1].free && r[k + 1 + 1].free);
      }
    }
  }

  // ----- pointers that have been handed out -----

  /** The payload addresses of the blocks in use. */
  function Pointers(bs: seq<HeapBlock>): (r: set<Addr>) {
    set b | b in bs && !b.free :: b.addr + BLOCK_HEADER
  }

  /** The bytes behind a pointer. */
  ghost predicate HasRoom(bs: seq<HeapBlock>, p: Addr, room: nat) {
    exists k | 0 <= k < |bs| :: !bs[k].free && bs[k].addr + BLOCK_HEADER == p && bs[k].size >= BLOCK_HEADER + room
  }

  /** What is behind two pointers is disjoint, headers included, and inside the heap. */
  lemma PayloadsApart(bs: seq<HeapBlock>, start: Addr, end: Addr, p: Addr, room: nat, q: Addr, room': nat)
    requires Tiles(bs, start, end) && HasRoom(bs, p, room) && HasRoom(bs, q, room') && p < q
    ensures start + BLOCK_HEADER <= p && p + room + BLOCK_HEADER <= q && q + room' <= end
  {
    var k :| 0 <= k < |bs| && !bs[k].free && bs[k].addr + BLOCK_HEADER == p && bs[k].size >= BLOCK_HEADER + room;
    var j :| 0 <= j < |bs| && !bs[j].free && bs[j].addr + BLOCK_HEADER == q && bs[j].size >= BLOCK_HEADER + room';
    if j < k {
      InOrder(bs, start, end, j, k);
    }
    InOrder(bs, start, end, k, j);
    InOrder(bs, start, end, j, |bs|);
  }

  lemma PointerOf(bs: seq<HeapBlock>, k: nat)
    requires k < |bs| && !bs[k].free
    ensures bs[k].addr + BLOCK_HEADER in Pointers(bs)
  {
    assert bs[k] in bs;
  }

  ghost function BlockWith(bs: seq<HeapBlock>, p: Addr): (k: nat)
    requires p in Pointers(bs)
    ensures k < |bs| && !bs[k].free && bs[k].addr + BLOCK_HEADER == p
  {
    var k :| 0 <= k < |bs| && !bs[k].free && bs[k].addr + BLOCK_HEADER == p; k
  }

  lemma TakenPointers(bs: seq<HeapBlock>, start: Addr, end: Addr, i: nat, need: nat)
    requires Tiles(bs, start, end) && i < |bs| && bs[i].free && need <= bs[i].size
    ensures Pointers(Taken(bs, i, need)) == Pointers(bs) + {bs[i].addr + BLOCK_HEADER}
    ensures bs[i].addr + BLOCK_HEADER !in Pointers(bs)
  {
    hide Pointers;
    var r := Taken(bs, i, need);
    forall p | p in Pointers(bs)
      ensures p in Pointers(r) && p != bs[i].addr + BLOCK_HEADER
    {
      var k := BlockWith(bs, p);
      PointerOf(r, if k < i || |r| == |bs| then k else k + 1);
      if k < i {
        Distinct(bs, start, end, k, i);
      } else {
        Distinct(bs, start, end, i, k);
      }
    }
    PointerOf(r, i);
    forall p | p in Pointers(r)
      ensures p in Pointers(bs) || p == bs[i].addr + BLOCK_HEADER
    {
      var k := BlockWith(r, p);
      if k != i {
        PointerOf(bs, if k < i || |r| == |bs| then k else k - 1);
      }
    }
  }

  lemma Distinct(bs: seq<HeapBlock>, start: Addr, end: Addr, i: nat, j: nat)
    requires Tiles(bs, start, end) && i < j < |bs|
    ensures bs[i].addr != bs[j].addr
  {
    Apart(bs, start, end);
  }

  lemma TakenRoom(bs: seq<HeapBlock>, i: nat, need: nat, p: Addr, room: nat)
    requires i < |bs| && bs[i].free && need <= bs[i].size && HasRoom(bs, p, room)
    ensures HasRoom(Taken(bs, i, need), p, room)
  {
    var r := Taken(bs, i, need);
    var k :| 0 <= k < |bs| && !bs[k].free && bs[k].addr + BLOCK_HEADER == p && bs[k].size >= BLOCK_HEADER + room;
    assert r[if k < i || |r| == |bs| then k else k + 1] == bs[k];
  }

  /** A free block is swallowed: the pointers stay, and none loses room. */
  lemma JoinedPointers(bs: seq<HeapBlock>, i: nat)
    requires i + 1 < |bs| && bs[i + 1].free
    ensures Pointers(Joined(bs, i)) == Pointers(bs)
  {
    hide Pointers;
    var r := Joined(bs, i);
    forall p | p in Pointers(bs)
      ensures p in Pointers(r)
    {
      var k := BlockWith(bs, p);
      PointerOf(r, if k <= i then k else k - 1);
    }
    forall p | p in Pointers(r)
      ensures p in Pointers(bs)
    {
      var k := BlockWith(r, p);
      PointerOf(bs, if k <= i then k else k + 1);
    }
  }

  lemma JoinedRoom(bs: seq<HeapBlock>, i: nat, p: Addr, room: nat)
    requires i + 1 < |bs| && bs[i + 1].free && HasRoom(bs, p, room)
    ensures HasRoom(Joined(bs, i), p, room)
  {
    var r := Joined(bs, i);
    var k :| 0 <= k < |bs| && !bs[k].free && bs[k].addr + BLOCK_HEADER == p && bs[k].size >= BLOCK_HEADER + room;
    var j := if k <= i then k else k - 1;
    assert r[j].addr == bs[k].addr && !r[j].free;
  }

  lemma MarkedPointers(bs: seq<HeapBlock>, start: Addr, end: Addr, i: nat)
    requires Tiles(bs, start, end) && i < |bs| && !bs[i].free
    ensures var m := bs[i := bs[i].(free := true)];
      Tiles(m, start, end) && Pointers(m) == Pointers(bs) - {bs[i].addr + BLOCK_HEADER}
  {
    hide Pointers;
    var m := bs[i := bs[i].(free := true)];
    forall k | 0 <= k < |m|
      ensures TileOk(m, end, k)
    {
      assert TileOk(bs, end, k);
    }
    forall p | p in Pointers(bs) && p != bs[i].addr + BLOCK_HEADER
      ensures p in Pointers(m)
    {
      PointerOf(m, BlockWith(bs, p));
    }
    forall p | p in Pointers(m)
      ensures p in Pointers(bs) && p != bs[i].addr + BLOCK_HEADER
    {
      var k := BlockWith(m, p);
      PointerOf(bs, k);
      if k < i {
        Distinct(bs, start, end, k, i);
      } else {
        Distinct(bs, start, end, i, k);
      }
    }
  }

  lemma MarkedRoom(bs: seq<HeapBlock>, i: nat, p: Addr, room: nat)
    requires i < |bs| && p != bs[i].addr + BLOCK_HEADER && HasRoom(bs, p, room)
    ensures HasRoom(bs[i := bs[i].(free := true)], p, room)
  {
    var k :| 0 <= k < |bs| && !bs[k].free && bs[k].addr + BLOCK_HEADER == p && bs[k].size >= BLOCK_HEADER + room;
    assert bs[i := bs[i].(free := true)][k] == bs[k];
  }

  lemma FreedPointers(bs: seq<HeapBlock>, start: Addr, end: Addr, i: nat)
    requires Tiles(bs, start, end) && i < |bs| && !bs[i].free
    ensures Pointers(Freed(bs, i)) == Pointers(bs) - {bs[i].addr + BLOCK_HEADER}
  {
    hide Pointers, Tiles;
    MarkedPointers(bs, start, end, i);
    var m := bs[i := bs[i].(free := true)];
    var r := MergeNextSpec(m, i);
    if r != m {
      JoinedPointers(m, i);
    }
    if i > 0 {
      JoinedPointers(r, i - 1);
    }
  }

  lemma FreedRoom(bs: seq<HeapBlock>, i: nat, p: Addr, room: nat)
    requires i < |bs| && !bs[i].free && p != bs[i].addr + BLOCK_HEADER && HasRoom(bs, p, room)
    ensures HasRoom(Freed(bs, i), p, room)
  {
    hide HasRoom;
    MarkedRoom(bs, i, p, room);
    var m := bs[i := bs[i].(free := true)];
    var r := MergeNextSpec(m, i);
    if r != m {
      JoinedRoom(m, i, p, room);
    }
    if i > 0 {
      JoinedRoom(r, i - 1, p, room);
    }
  }

  /** The bytes of a freed block can be handed out again exactly if it had no predecessor or a free
      one; otherwise they are added to a block in use. */
  lemma Reclaimed(bs: seq<HeapBlock>, start: Addr, end: Addr, i: nat, x: nat)
    requires Tiles(bs, start, end) && NoFreeNeighbours(bs) && i < |bs| && !bs[i].free
              && bs[i].addr <= x < bs[i].addr + bs[i].size
    ensures (exists k | 0 <= k < |Freed(bs, i)| ::
               Freed(bs, i)[k].free && Freed(bs, i)[k].addr <= x < Freed(bs, i)[k].addr + Freed(bs, i)[k].size)
            <==> i == 0 || bs[i - 1].free
  {
    FreedOk(bs, start, end, i);
    var q, j := Freed(bs, i), if i > 0 then i - 1 else 0;
    var m := bs[i := bs[i].(free := true)];
    assert MergeNextSpec(m, i)[i].free;
    assert i > 0 ==> TileOk(bs, end, i - 1);
    assert q[j].addr <= x < q[j].addr + q[j].size && q[j].free == (i == 0 || bs[i - 1].free);
    forall k: nat | k < |q| && k != j
      ensures !(q[k].addr <= x < q[k].addr + q[k].size)
    {
      if k < j {
        InOrder(q, start, end, k, j);
      } else {
        InOrder(q, start, end, j, k);
      }
    }
  }

  /** With nothing handed out there is one block, of the size of the whole heap. */
  lemma NothingOut(bs: seq<HeapBlock>, start: Addr, end: Addr)
    requires Tiles(bs, start, end) && NoFreeNeighbours(bs) && Pointers(bs) == {}
    ensures start <= end && bs == [HeapBlock(start, end - start, true)]
  {
    assert forall k | 0 <= k < |bs| && !bs[k].free :: bs[k] in bs && bs[k].addr + BLOCK_HEADER in Pointers(bs);
    assert TileOk(bs, end, 0);
  }

  // ----- the heap -----

  class Heap {
    const start: Addr
    const end: Addr
    var blocks: seq<HeapBlock>
    /** The pointers that have been handed out and not been freed. */
    ghost var out: set<Addr>

    ghost predicate Valid()
      reads this
    {
      Tiles(blocks, start, end) && NoFreeNeighbours(blocks) && Pointers(blocks) == out && end - start <= INT_MAX
    }

    /** vmir_heap_init for the memory from heapStart to memSize. */
    constructor (heapStart: Addr, memSize: nat)
      requires heapStart + HEAP_HEADER + BLOCK_HEADER <= memSize <= INT_MAX
      ensures Valid() && out == {}
      ensures start == heapStart + HEAP_HEADER && end == memSize && blocks == [HeapBlock(start, end - start, true)]
    {
      var size := memSize - heapStart;
      start, end := heapStart + HEAP_HEADER, memSize;
      blocks := [HeapBlock(heapStart + HEAP_HEADER, size - HEAP_HEADER, true)];
      out := {};
    }

    /** vmir_heap_malloc, for sizes that do not overflow; 0 stands for no pointer. */
    method Malloc(size: nat) returns (p: Addr)
      requires Valid() && size + BLOCK_HEADER + ALIGNMENT - 1 <= INT_MAX
      modifies this
      ensures Valid()
      ensures p == 0 ==> blocks == old(blocks) && out == old(out)
      ensures p == 0 <==>
                forall k | 0 <= k < |old(blocks)| && old(blocks)[k].free :: old(blocks)[k].size < Rounded(size)
      ensures p != 0 ==> p !in old(out) && out == old(out) + {p} && HasRoom(blocks, p, size)
      ensures p != 0 ==> exists i | 0 <= i < |old(blocks)| :: HandedOut(old(blocks), i, Rounded(size), blocks, p)
      ensures p != 0 ==> (p - BLOCK_HEADER) % ALIGNMENT == start % ALIGNMENT
      ensures forall q, room | HasRoom(old(blocks), q, room) :: HasRoom(blocks, q, room)
    {
      var need := Rounded(size);
      for i := 0 to |blocks|
        invariant blocks == old(blocks) && Valid() && out == old(out)
        invariant forall k | 0 <= k < i && blocks[k].free :: blocks[k].size < need
      {
        if blocks[i].free && need <= blocks[i].size {
          TakenOk(blocks, start, end, i, need);
          TakenPointers(blocks, start, end, i, need);
          forall q, room | HasRoom(blocks, q, room)
            ensures HasRoom(Taken(blocks, i, need), q, room)
          {
            TakenRoom(blocks, i, need, q, room);
          }
          Aligned(blocks, start, end, i);
          p := blocks[i].addr + BLOCK_HEADER;
          blocks := Taken(blocks, i, need);
          out := out + {p};
          assert !blocks[i].free && blocks[i].addr + BLOCK_HEADER == p && blocks[i].size >= BLOCK_HEADER + size;
          assert HandedOut(old(blocks), i, need, blocks, p);
          return;
        }
      }
      p := 0;
    }

    /** vmir_heap_free */
    method Free(p: Addr)
      requires Valid() && (p == 0 || p in out)
      modifies this
      ensures Valid() && out == old(out) - {p}
      ensures p == 0 ==> blocks == old(blocks)
      ensures p != 0 ==> exists i | 0 <= i < |old(blocks)| ::
                !old(blocks)[i].free && p == old(blocks)[i].addr + BLOCK_HEADER && BecameOne(old(blocks), i, blocks)
      ensures forall q, room | q != p && HasRoom(old(blocks), q, room) :: HasRoom(blocks, q, room)
    {
      hide Tiles, NoFreeNeighbours, HasRoom, Pointers, BecameOne;
      if p == 0 {
        NullIsNotOut();
        return;
      }
      var i := BlockOf(p);
      FreedIs(blocks, i);
      FreedOk(blocks, start, end, i);
      FreedPointers(blocks, start, end, i);
      forall q, room | q != p && HasRoom(blocks, q, room)
        ensures HasRoom(Freed(blocks, i), q, room)
      {
        FreedRoom(blocks, i, q, room);
      }
      blocks := blocks[i := blocks[i].(free := true)];
      MergeNext(i);
      if i > 0 {
        MergeNext(i - 1);
      }
      out := out - {p};
    }

    lemma NullIsNotOut()
      requires Valid()
      ensures 0 !in out
    {
    }

    /** The position of the block behind a pointer. */
    method BlockOf(p: Addr) returns (i: nat)
      requires p in Pointers(blocks)
      ensures i < |blocks| && !blocks[i].free && blocks[i].addr + BLOCK_HEADER == p
    {
      i := 0;
      while i < |blocks| && !(!blocks[i].free && blocks[i].addr + BLOCK_HEADER == p)
        invariant i <= |blocks|
        invariant forall k | 0 <= k < i :: blocks[k].free || blocks[k].addr + BLOCK_HEADER != p
      {
        i := i + 1;
      }
    }

    /** vmir_heap_merge_next */
    method MergeNext(i: nat)
      requires i < |blocks|
      modifies this`blocks
      ensures blocks == MergeNextSpec(old(blocks), i)
    {
      if i + 1 < |blocks| && blocks[i + 1].free {
        blocks := Joined(blocks, i);
      }
    }
  }

  /** The list after block i has been freed: it, a free successor and any predecessor have become one block, which
      is in use if the predecessor is. */
  ghost predicate BecameOne(before: seq<HeapBlock>, i: nat, blocks: seq<HeapBlock>) {
    && i < |before|
    && var next := if i + 1 < |before| && before[i + 1].free then before[i + 1].size else 0;
       var rest := before[if i + 1 < |before| && before[i + 1].free then i + 2 else i + 1..];
       if i == 0 then blocks == [HeapBlock(before[0].addr, before[0].size + next, true)] + rest
       else
         var p := before[i - 1];
         blocks == before[..i - 1] + [HeapBlock(p.addr, p.size + (before[i].size + next), p.free)] + rest
  }

  lemma FreedIs(bs: seq<HeapBlock>, i: nat)
    requires i < |bs|
    ensures BecameOne(bs, i, Freed(bs, i))
  {
  }

  /** Block i was the first that fits and has been taken: cut if what is left over holds two headers. */
  ghost predicate HandedOut(before: seq<HeapBlock>, i: nat, need: nat, blocks: seq<HeapBlock>, p: Addr)
    requires i < |before|
  {
    && before[i].free && need <= before[i].size
    && (forall k | 0 <= k < i && before[k].free :: before[k].size < need)
    && blocks == Taken(before, i, need) && p == before[i].addr + BLOCK_HEADER
    && var b := before[i];
       if b.size < need + 2 * BLOCK_HEADER then
         blocks == before[..i] + [HeapBlock(b.addr, b.size, false)] + before[i + 1..]
       else
         blocks == before[..i] + [HeapBlock(b.addr, need, false), HeapBlock(b.addr + need, b.size - need, true)]
                   + before[i + 1..]
  }
}
