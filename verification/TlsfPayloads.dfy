/** The payloads of the blocks: where they lie, and which writes the allocator makes into them.
    A block's payload runs from behind its size word to behind the next block's prev_phys word; the
    list links and that word are only used while the block is free. */
module TlsfPayloads {
  import opened TlsfMapping
  import opened TlsfLists
  import opened TlsfBlocks

  predicate InPayload(b: Blk, x: int) {
    b.addr + START_OFFSET <= x < b.addr + START_OFFSET + b.size
  }

  /** The blocks in use. */
  function Live(bs: seq<Blk>): (r: set<Blk>) {
    set b | b in bs && !b.free
  }

  ghost predicate Held(live: set<Blk>, x: int) {
    exists b | b in live :: InPayload(b, x)
  }

  /** Every byte that belongs to one of the blocks is the same in both memories. */
  ghost predicate Kept(live: set<Blk>, m: seq<int>, m': seq<int>) {
    |m| == |m'| && forall x | 0 <= x < |m| && Held(live, x) :: m'[x] == m[x]
  }

  lemma KeptTrans(live: set<Blk>, m0: seq<int>, m1: seq<int>, m2: seq<int>)
    requires Kept(live, m0, m1) && Kept(live, m1, m2)
    ensures Kept(live, m0, m2)
  {
  }

  lemma KeptFewer(live: set<Blk>, fewer: set<Blk>, m: seq<int>, m': seq<int>)
    requires Kept(live, m, m') && fewer <= live
    ensures Kept(fewer, m, m')
  {
    assert forall x | Held(fewer, x) :: Held(live, x);
  }

  lemma KeptSelf(live: set<Blk>, m: seq<int>)
    ensures Kept(live, m, m)
  {
  }

  /** Payloads are aligned and disjoint, and none overlaps a size word, the sentinel's included. */
  lemma PayloadsDisjoint(bs: seq<Blk>, start: Addr, end: Addr, i: nat, x: int)
    requires Tiles(bs, start, end) && i < |bs| && InPayload(bs[i], x)
    ensures (bs[i].addr + START_OFFSET) % ALIGN_SIZE == 0
    ensures start + START_OFFSET <= x < end + OVERHEAD
    ensures forall j | 0 <= j < |bs| && j != i :: !InPayload(bs[j], x)
    ensures forall j | 0 <= j <= |bs| :: !(AddrAt(bs, end, j) + OVERHEAD <= x < AddrAt(bs, end, j) + START_OFFSET)
  {
    InOrder(bs, start, end, i, |bs|);
    assert TileOk(bs, end, i);
    forall j: nat | j <= |bs| && j != i
      ensures j < |bs| ==> !InPayload(bs[j], x)
      ensures !(AddrAt(bs, end, j) + OVERHEAD <= x < AddrAt(bs, end, j) + START_OFFSET)
    {
      if j < i {
        InOrder(bs, start, end, j, i);
      } else {
        InOrder(bs, start, end, i, j);
      }
    }
  }

  /** The two link words of a free block and the prev_phys word behind it lie in its own payload
      and do not overlap: this is what the minimum block size is for. */
  lemma LinksInside(bs: seq<Blk>, end: Addr, i: nat)
    requires i < |bs| && TileOk(bs, end, i)
    ensures forall x | bs[i].addr + START_OFFSET <= x < bs[i].addr + HEADER_SIZE :: InPayload(bs[i], x)
    ensures forall x | AddrAt(bs, end, i + 1) <= x < AddrAt(bs, end, i + 1) + OVERHEAD :: InPayload(bs[i], x)
    ensures bs[i].addr + HEADER_SIZE <= AddrAt(bs, end, i + 1)
  {
  }

  /** Nothing in use is in the payload of a free block. */
  lemma FreeNotHeld(bs: seq<Blk>, start: Addr, end: Addr, i: nat, x: int)
    requires Tiles(bs, start, end) && i < |bs| && bs[i].free && InPayload(bs[i], x)
    ensures !Held(Live(bs), x)
  {
    PayloadsDisjoint(bs, start, end, i, x);
  }

  lemma LiveMark(bs: seq<Blk>, start: Addr, end: Addr, i: nat, free: bool)
    requires Tiles(bs, start, end) && i < |bs| && bs[i].free != free
    ensures free ==> Live(Mark(bs, i, free)) == Live(bs) - {bs[i]}
    ensures !free ==> Live(Mark(bs, i, free)) == Live(bs) + {bs[i].(free := false)}
  {
    Apart(bs, start, end);
    var r := Mark(bs, i, free);
    forall b | b in bs && b != bs[i]
      ensures b in r
    {
      var k :| 0 <= k < |bs| && bs[k] == b;
      assert r[k] == b;
    }
    forall b | b in r && b != r[i]
      ensures b in bs
    {
    }
    assert r[i] in r;
    if bs[i] in r {
      var k :| 0 <= k < |r| && r[k] == bs[i];
      assert AddrAt(bs, end, k) == AddrAt(bs, end, i);
    }
  }

  /** Joining block i with its free successor. */
  lemma LiveAbsorb(bs: seq<Blk>, start: Addr, end: Addr, i: nat)
    requires Tiles(bs, start, end) && i + 1 < |bs| && bs[i + 1].free
    ensures bs[i].free ==> Live(Absorb(bs, i)) == Live(bs)
    ensures !bs[i].free ==>
              Live(Absorb(bs, i)) == Live(bs) - {bs[i]} + {Absorb(bs, i)[i]} && Absorb(bs, i)[i] !in Live(bs)
  {
    var r := Absorb(bs, i);
    Apart(bs, start, end);
    forall b | b in bs && b != bs[i] && b != bs[i + 1]
      ensures b in r
    {
      var k :| 0 <= k < |bs| && bs[k] == b;
      assert r[if k <= i then k else k - 1] == b;
    }
    forall b | b in r && b != r[i]
      ensures b in bs && b != bs[i]
    {
      var k :| 0 <= k < |r| && r[k] == b;
      var j := if k <= i then k else k + 1;
      assert bs[j] == b && AddrAt(bs, end, j) != AddrAt(bs, end, i);
    }
    assert r[i] in r;
    assert forall k | 0 <= k < |bs| && bs[k].addr == r[i].addr :: AddrAt(bs, end, k) == AddrAt(bs, end, i) && k == i;
  }

  /** Cutting block i; the second part is free. */
  lemma LiveSplit(bs: seq<Blk>, start: Addr, end: Addr, i: nat, size: nat)
    requires Tiles(bs, start, end) && i < |bs| && bs[i].size >= size + OVERHEAD
    ensures bs[i].free ==> Live(Split(bs, i, size)) == Live(bs)
    ensures !bs[i].free ==> Live(Split(bs, i, size)) == Live(bs) - {bs[i]} + {Split(bs, i, size)[i]}
  {
    var r := Split(bs, i, size);
    Apart(bs, start, end);
    forall b | b in bs && b != bs[i]
      ensures b in r
    {
      var k :| 0 <= k < |bs| && bs[k] == b;
      assert r[if k <= i then k else k + 1] == b;
    }
    forall b | b in r && b != r[i] && b != r[i + 1]
      ensures b in bs && b != bs[i]
    {
      var k :| 0 <= k < |r| && r[k] == b;
      var j := if k <= i then k else k - 1;
      assert bs[j] == b && AddrAt(bs, end, j) != AddrAt(bs, end, i);
    }
    assert r[i] in r && r[i + 1].free;
  }

  /** Handing out a free block adds exactly that block to those in use. */
  lemma LiveUse(bs: seq<Blk>, start: Addr, end: Addr, i: nat, size: nat)
    requires Tiles(bs, start, end) && i < |bs| && bs[i].free
    requires BLOCK_SIZE_MIN <= size <= bs[i].size && size % ALIGN_SIZE == 0
    ensures var u := Use(bs, i, size);
            && i < |u| && u[i].addr == bs[i].addr && size <= u[i].size && !u[i].free
            && Live(u) == Live(bs) + {u[i]} && u[i] !in Live(bs)
  {
    Apart(bs, start, end);
    if bs[i].size >= HEADER_SIZE + size {
      LiveSplit(bs, start, end, i, size);
      SplitTiles(bs, start, end, i, size);
      LiveMark(Split(bs, i, size), start, end, i, false);
    } else {
      LiveMark(bs, start, end, i, false);
    }
    forall k | 0 <= k < |bs| && bs[k].addr == bs[i].addr
      ensures k == i
    {
      assert AddrAt(bs, end, k) == AddrAt(bs, end, i);
    }
  }

  /** Releasing a block takes exactly that block from those in use, whatever is merged. */
  lemma LiveRelease(bs: seq<Blk>, start: Addr, end: Addr, i: nat)
    requires Tiles(bs, start, end) && i < |bs| && !bs[i].free
    ensures Live(Release(bs, i)) == Live(bs) - {bs[i]} && Tiles(Release(bs, i), start, end)
  {
    var m := Mark(bs, i, true);
    LiveMark(bs, start, end, i, true);
    MarkTiles(bs, start, end, i, true);
    var (r, j) := MergePrevSpec(m, i);
    if r != m {
      LiveAbsorb(m, start, end, i - 1);
      AbsorbTiles(m, start, end, i - 1);
    }
    if MergeNextSpec(r, j) != r {
      LiveAbsorb(r, start, end, j);
      AbsorbTiles(r, start, end, j);
    }
  }

  lemma LiveTail(bs: seq<Blk>, start: Addr, end: Addr)
    requires Tiles(bs, start, end) && Coalesced(bs, NONE) && |bs| > 1
    ensures Tiles(bs[1..], bs[1].addr, end) && Coalesced(bs[1..], NONE)
    ensures Live(bs[1..]) == Live(bs) - {bs[0]}
    ensures bs[0].addr + bs[0].size + OVERHEAD == bs[1].addr
  {
    var rest := bs[1..];
    Apart(bs, start, end);
    assert TileOk(bs, end, 0);
    InOrder(bs, start, end, 1, |bs|);
    forall k | 0 <= k < |rest|
      ensures TileOk(rest, end, k)
    {
      assert TileOk(bs, end, k + 1);
    }
    forall k | 0 <= k < |rest| - 1
      ensures !(rest[k].free && rest[k + 1].free)
    {
      NotBoth(bs, NONE, k + 1);
    }
    forall b | b in Live(bs) && b != bs[0]
      ensures b in rest
    {
      var k :| 0 <= k < |bs| && bs[k] == b;
      assert rest[k - 1] == b;
    }
    forall b | b in rest
      ensures b in bs && b != bs[0]
    {
      var k :| 0 <= k < |rest| && rest[k] == b;
      assert bs[k + 1] == b && AddrAt(bs, end, 0) < AddrAt(bs, end, k + 1);
    }
  }

  /** A block in use of the one heap that begins where the other begins is its first block. */
  lemma FirstLive(bs: seq<Blk>, start: Addr, end: Addr, b: Blk)
    requires Tiles(bs, start, end) && b in Live(bs)
    ensures b.addr >= start && (b.addr == start ==> b == bs[0])
    ensures |bs| > 1 && bs[0].free ==> b.addr >= bs[1].addr
    ensures bs[0].free ==> |bs| > 1
  {
    Apart(bs, start, end);
    var k :| 0 <= k < |bs| && bs[k] == b;
    assert AddrAt(bs, end, k) == b.addr;
    assert k > 0 ==> AddrAt(bs, end, 0) < AddrAt(bs, end, k);
    assert k > 1 ==> AddrAt(bs, end, 1) < AddrAt(bs, end, k);
  }

  lemma SameFirst(cs: seq<Blk>, bs: seq<Blk>, start: Addr, end: Addr)
    requires Tiles(cs, start, end) && Coalesced(cs, NONE) && Tiles(bs, start, end) && Coalesced(bs, NONE)
    requires Live(cs) == Live(bs)
    ensures cs[0] == bs[0] && (|cs| == 1 <==> |bs| == 1)
  {
    assert TileOk(cs, end, 0) && TileOk(bs, end, 0);
    if !cs[0].free {
      FirstLive(bs, start, end, cs[0]);
    } else if !bs[0].free {
      FirstLive(cs, start, end, bs[0]);
    } else {
      if |cs| > 1 {
        NotBoth(cs, NONE, 0);
        FirstLive(bs, start, end, cs[1]);
      }
      if |bs| > 1 {
        NotBoth(bs, NONE, 0);
        FirstLive(cs, start, end, bs[1]);
      }
    }
    LastEnds(cs, start, end);
    LastEnds(bs, start, end);
  }

  lemma LastEnds(bs: seq<Blk>, start: Addr, end: Addr)
    requires Tiles(bs, start, end)
    ensures |bs| == 1 <==> bs[0].addr + bs[0].size + OVERHEAD == end
  {
    assert TileOk(bs, end, 0);
    if |bs| > 1 {
      InOrder(bs, start, end, 1, |bs|);
    }
  }

  /** Where no two neighbours are free, the blocks in use determine the whole heap: free blocks are what is
      between them. */
  lemma {:induction false} LiveDetermines(cs: seq<Blk>, bs: seq<Blk>, start: Addr, end: Addr)
    requires Tiles(cs, start, end) && Coalesced(cs, NONE) && Tiles(bs, start, end) && Coalesced(bs, NONE)
    requires Live(cs) == Live(bs)
    ensures cs == bs
    decreases |cs|
  {
    hide Tiles, Coalesced, Live;
    SameFirst(cs, bs, start, end);
    if |cs| > 1 && |bs| > 1 {
      LiveTail(cs, start, end);
      LiveTail(bs, start, end);
      LiveDetermines(cs[1..], bs[1..], cs[1].addr, end);
      assert cs == [cs[0]] + cs[1..] && bs == [bs[0]] + bs[1..];
    } else {
      NotEmpty(cs, start, end);
      NotEmpty(bs, start, end);
    }
  }

  lemma NotEmpty(bs: seq<Blk>, start: Addr, end: Addr)
    requires Tiles(bs, start, end)
    ensures |bs| > 0
  {
  }

  // ----- copying a payload -----

  /** memcpy of n bytes */
  function Copied(m: seq<int>, dst: nat, src: nat, n: nat): (r: seq<int>)
    requires dst + n <= |m| && src + n <= |m|
    ensures |r| == |m|
    ensures forall x | 0 <= x < |m| :: r[x] == if dst <= x < dst + n then m[src + (x - dst)] else m[x]
  {
    m[..dst] + m[src..src + n] + m[dst + n..]
  }

  /** Copying into one block in use leaves the others alone. */
  lemma CopyKeeps(bs: seq<Blk>, start: Addr, end: Addr, i: nat, m: seq<int>, src: nat, n: nat)
    requires Tiles(bs, start, end) && i < |bs| && !bs[i].free
    requires n <= bs[i].size && end + OVERHEAD <= |m| && src + n <= |m|
    ensures bs[i].addr + START_OFFSET + n <= |m|
    ensures Kept(Live(bs) - {bs[i]}, m, Copied(m, bs[i].addr + START_OFFSET, src, n))
  {
    assert TileOk(bs, end, i);
    InOrder(bs, start, end, i, |bs|);
    var dst := bs[i].addr + START_OFFSET;
    forall x | 0 <= x < |m| && Held(Live(bs) - {bs[i]}, x)
      ensures !(dst <= x < dst + n)
    {
      var b :| b in Live(bs) - {bs[i]} && InPayload(b, x);
      var k :| 0 <= k < |bs| && bs[k] == b;
      PayloadsDisjoint(bs, start, end, k, x);
    }
  }
}
