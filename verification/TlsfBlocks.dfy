/** The blocks of a TLSF pool as a list, what the operations do to the list, and the boundary tags
    that represent it in memory. */
module TlsfBlocks {
  import opened Arith
  import opened TlsfMapping
  import opened TlsfLists

  const OVERHEAD := 8
  const START_OFFSET := 16
  const HEADER_SIZE := 32
  const BLOCK_SIZE_MIN := 24

  datatype Blk = Blk(addr: Addr, size: nat, free: bool)

  /** The address of the k-th block; the sentinel follows the last one. */
  function AddrAt(bs: seq<Blk>, end: Addr, k: nat): (r: Addr)
    requires k <= |bs|
  {
    if k < |bs| then bs[k].addr else end
  }

  /** The blocks tile the pool from start to the sentinel at end: each begins where the one before
      ends, and has a legal size. */
  ghost predicate Tiles(bs: seq<Blk>, start: Addr, end: Addr) {
    && |bs| > 0 && bs[0].addr == start && start % ALIGN_SIZE == 0
    && forall k | 0 <= k < |bs| :: TileOk(bs, end, k)
  }

  predicate TileOk(bs: seq<Blk>, end: Addr, k: nat)
    requires k < |bs|
  {
    && bs[k].size >= BLOCK_SIZE_MIN && bs[k].size % ALIGN_SIZE == 0
    && AddrAt(bs, end, k + 1) == bs[k].addr + bs[k].size + OVERHEAD
  }

  /** Later blocks lie wholly behind earlier ones, and everything is aligned. */
  lemma {:induction false} InOrder(bs: seq<Blk>, start: Addr, end: Addr, i: nat, j: nat)
    requires Tiles(bs, start, end) && i < j <= |bs|
    ensures bs[i].addr + bs[i].size + OVERHEAD <= AddrAt(bs, end, j)
    ensures start <= bs[i].addr
    ensures bs[i].addr % ALIGN_SIZE == 0 && AddrAt(bs, end, j) % ALIGN_SIZE == 0
    decreases j
  {
    assert TileOk(bs, end, j - 1);
    if i < j - 1 {
      InOrder(bs, start, end, i, j - 1);
    } else if i > 0 {
      InOrder(bs, start, end, i - 1, i);
    }
    NextAligned(bs[j - 1].addr, bs[j - 1].size);
  }

  lemma NextAligned(addr: Addr, size: nat)
    requires addr % ALIGN_SIZE == 0 && size % ALIGN_SIZE == 0
    ensures (addr + size + OVERHEAD) % ALIGN_SIZE == 0
  {
    AddMod(size, OVERHEAD, ALIGN_SIZE);
    AddMod(addr, size + OVERHEAD, ALIGN_SIZE);
  }

  /** No address occurs twice. */
  lemma Apart(bs: seq<Blk>, start: Addr, end: Addr)
    requires Tiles(bs, start, end)
    ensures forall i, j | 0 <= i < j <= |bs| :: AddrAt(bs, end, i) < AddrAt(bs, end, j)
    ensures forall i | 0 <= i <= |bs| :: start <= AddrAt(bs, end, i)
  {
    forall i: nat, j: nat | i < j <= |bs|
      ensures AddrAt(bs, end, i) < AddrAt(bs, end, j) && start <= AddrAt(bs, end, i)
    {
      InOrder(bs, start, end, i, j);
    }
    InOrder(bs, start, end, 0, |bs|);
  }

  /** Neighbouring blocks are never both free, except next to the i-th. */
  ghost predicate Coalesced(bs: seq<Blk>, i: int) {
    forall k | 0 <= k < |bs| - 1 && k != i && k + 1 != i :: !(bs[k].free && bs[k + 1].free)
  }

  const NONE := -2

  lemma NotBoth(bs: seq<Blk>, i: int, k: nat)
    requires Coalesced(bs, i) && k + 1 < |bs| && k != i && k + 1 != i
    ensures !bs[k].free || !bs[k + 1].free
  {
  }

  // ----- what the operations do to the list -----

  function Mark(bs: seq<Blk>, i: nat, free: bool): (r: seq<Blk>)
    requires i < |bs|
    ensures |r| == |bs|
  {
    bs[i := bs[i].(free := free)]
  }

  /** Block i absorbs its successor. */
  function Absorb(bs: seq<Blk>, i: nat): (r: seq<Blk>)
    requires i + 1 < |bs|
    ensures |r| == |bs| - 1
    ensures forall k | 0 <= k < |r| :: r[k] ==
              if k < i then bs[k]
              else if k == i then Blk(bs[i].addr, bs[i].size + bs[i + 1].size + OVERHEAD, bs[i].free)
              else bs[k + 1]
  {
    bs[..i] + [Blk(bs[i].addr, bs[i].size + bs[i + 1].size + OVERHEAD, bs[i].free)] + bs[i + 2..]
  }

  /** Block i is cut to size; the rest becomes a free block. */
  function Split(bs: seq<Blk>, i: nat, size: nat): (r: seq<Blk>)
    requires i < |bs| && bs[i].size >= size + OVERHEAD
    ensures |r| == |bs| + 1
    ensures forall k | 0 <= k < |r| :: r[k] ==
              if k < i then bs[k]
              else if k == i then Blk(bs[i].addr, size, bs[i].free)
              else if k == i + 1 then Blk(bs[i].addr + size + OVERHEAD, bs[i].size - size - OVERHEAD, true)
              else bs[k - 1]
  {
    bs[..i] + [Blk(bs[i].addr, size, bs[i].free), Blk(bs[i].addr + size + OVERHEAD, bs[i].size - size - OVERHEAD, true)]
      + bs[i + 1..]
  }

  lemma MarkTiles(bs: seq<Blk>, start: Addr, end: Addr, i: nat, free: bool)
    requires Tiles(bs, start, end) && i < |bs|
    ensures Tiles(Mark(bs, i, free), start, end)
  {
    var r := Mark(bs, i, free);
    forall k | 0 <= k < |r|
      ensures TileOk(r, end, k)
    {
      assert TileOk(bs, end, k);
    }
  }

  lemma AbsorbTiles(bs: seq<Blk>, start: Addr, end: Addr, i: nat)
    requires Tiles(bs, start, end) && i + 1 < |bs|
    ensures Tiles(Absorb(bs, i), start, end)
  {
    var r := Absorb(bs, i);
    forall k | 0 <= k < |r|
      ensures TileOk(r, end, k)
    {
      assert TileOk(bs, end, i) && TileOk(bs, end, i + 1);
      assert TileOk(bs, end, if k <= i then k else k + 1);
    }
  }

  lemma SplitTiles(bs: seq<Blk>, start: Addr, end: Addr, i: nat, size: nat)
    requires Tiles(bs, start, end) && i < |bs|
    requires BLOCK_SIZE_MIN <= size && size % ALIGN_SIZE == 0 && bs[i].size >= size + HEADER_SIZE
    ensures Tiles(Split(bs, i, size), start, end)
  {
    var r := Split(bs, i, size);
    forall k | 0 <= k < |r|
      ensures TileOk(r, end, k)
    {
      assert TileOk(bs, end, i);
      assert TileOk(bs, end, if k <= i then k else k - 1);
    }
  }

  // ----- boundary tags -----

  /** The header fields of the blocks in memory, by address. */
  datatype Tags = Tags(size: map<Addr, nat>, free: map<Addr, bool>, prevFree: map<Addr, bool>,
                       prevPhys: map<Addr, Addr>)

  ghost predicate TagOk(bs: seq<Blk>, end: Addr, t: Tags, k: nat)
    requires k < |bs|
  {
    var a := bs[k].addr;
    && a in t.size && t.size[a] == bs[k].size
    && a in t.free && t.free[a] == bs[k].free
    && (bs[k].free ==> AddrAt(bs, end, k + 1) in t.prevPhys && t.prevPhys[AddrAt(bs, end, k + 1)] == a)
  }

  ghost predicate PrevOk(bs: seq<Blk>, end: Addr, t: Tags, k: nat)
    requires k <= |bs|
  {
    AddrAt(bs, end, k) in t.prevFree && t.prevFree[AddrAt(bs, end, k)] == (k > 0 && bs[k - 1].free)
  }

  /** The tags are right, except for the previous-is-free bit of block skip. */
  ghost predicate Tagged(bs: seq<Blk>, end: Addr, t: Tags, skip: int) {
    && (forall k | 0 <= k < |bs| :: TagOk(bs, end, t, k))
    && (forall k | 0 <= k <= |bs| && k != skip :: PrevOk(bs, end, t, k))
    && end in t.size && t.size[end] == 0 && end in t.free && !t.free[end]
  }

  /** block_mark_as_free and block_mark_as_used. */
  lemma TagMark(bs: seq<Blk>, start: Addr, end: Addr, t: Tags, i: nat, free: bool, skip: int)
    requires Tiles(bs, start, end) && Tagged(bs, end, t, skip) && i < |bs| && (skip == NONE || skip == i + 1)
    ensures var a, n := bs[i].addr, AddrAt(bs, end, i + 1);
            var t' := t.(free := t.free[a := free], prevFree := t.prevFree[n := free],
                         prevPhys := if free then t.prevPhys[n := a] else t.prevPhys);
            Tagged(Mark(bs, i, free), end, t', NONE)
  {
    Apart(bs, start, end);
    var a, n := bs[i].addr, AddrAt(bs, end, i + 1);
    var r := Mark(bs, i, free);
    var t' := t.(free := t.free[a := free], prevFree := t.prevFree[n := free],
                 prevPhys := if free then t.prevPhys[n := a] else t.prevPhys);
    forall k | 0 <= k < |r|
      ensures TagOk(r, end, t', k)
    {
      assert TagOk(bs, end, t, k);
      assert AddrAt(bs, end, k) == AddrAt(r, end, k) && AddrAt(bs, end, k + 1) == AddrAt(r, end, k + 1);
      assert k != i ==> AddrAt(bs, end, k) != AddrAt(bs, end, i) && AddrAt(bs, end, k + 1) != AddrAt(bs, end, i + 1);
    }
    forall k | 0 <= k <= |r|
      ensures PrevOk(r, end, t', k)
    {
      assert k != i + 1 ==> PrevOk(bs, end, t, k) && AddrAt(bs, end, k) != AddrAt(bs, end, i + 1);
    }
    assert AddrAt(bs, end, i) < AddrAt(bs, end, |bs|);
  }

  function AbsorbTags(bs: seq<Blk>, end: Addr, t: Tags, i: nat): (r: Tags)
    requires i + 1 < |bs|
  {
    var a, n := bs[i].addr, AddrAt(bs, end, i + 2);
    t.(size := t.size[a := bs[i].size + bs[i + 1].size + OVERHEAD], prevPhys := t.prevPhys[n := a])
  }

  /** block_absorb: the flags of the survivor are left alone, so the bit in the next header is only
      right if both blocks had the same. */
  lemma TagAbsorb(bs: seq<Blk>, start: Addr, end: Addr, t: Tags, i: nat)
    requires Tiles(bs, start, end) && Tagged(bs, end, t, NONE) && i + 1 < |bs|
    ensures Tagged(Absorb(bs, i), end, AbsorbTags(bs, end, t, i), if bs[i].free == bs[i + 1].free then NONE else i + 1)
  {
    Apart(bs, start, end);
    var r, t' := Absorb(bs, i), AbsorbTags(bs, end, t, i);
    forall k | 0 <= k < |r|
      ensures TagOk(r, end, t', k)
    {
      var j := if k <= i then k else k + 1;
      assert TagOk(bs, end, t, j);
      assert AddrAt(r, end, k) == AddrAt(bs, end, j);
      assert AddrAt(r, end, k + 1) == AddrAt(bs, end, if k < i then k + 1 else k + 2);
      assert k != i ==> AddrAt(bs, end, j) != AddrAt(bs, end, i);
      assert k < i ==> AddrAt(bs, end, k + 1) < AddrAt(bs, end, i + 2);
      assert k > i ==> AddrAt(bs, end, i + 2) < AddrAt(bs, end, k + 2);
    }
    forall k | 0 <= k <= |r| && k != (if bs[i].free == bs[i + 1].free then NONE else i + 1)
      ensures PrevOk(r, end, t', k)
    {
      var j := if k <= i then k else k + 1;
      assert PrevOk(bs, end, t, j);
      assert AddrAt(r, end, k) == AddrAt(bs, end, j);
    }
    assert AddrAt(bs, end, i) < AddrAt(bs, end, |bs|);
  }

  /** block_absorb and block_mark_as_used: a block in use swallows a free one. */
  lemma TagGrow(bs: seq<Blk>, start: Addr, end: Addr, t: Tags, i: nat)
    requires Tiles(bs, start, end) && Tagged(bs, end, t, NONE) && i + 1 < |bs| && !bs[i].free && bs[i + 1].free
    ensures var t', n := AbsorbTags(bs, end, t, i), AddrAt(bs, end, i + 2);
            Tagged(Absorb(bs, i), end, t'.(free := t'.free[bs[i].addr := false], prevFree := t'.prevFree[n := false]),
                   NONE)
  {
    TagAbsorb(bs, start, end, t, i);
    AbsorbTiles(bs, start, end, i);
    var r := Absorb(bs, i);
    assert Mark(r, i, false) == r;
    TagMark(r, start, end, AbsorbTags(bs, end, t, i), i, false, i + 1);
    assert AddrAt(r, end, i + 1) == AddrAt(bs, end, i + 2);
  }

  /** block_split and what its callers do to the new header. */
  function SplitTags(bs: seq<Blk>, end: Addr, t: Tags, i: nat, size: nat, link: bool): (r: Tags)
    requires i < |bs| && bs[i].size >= size + OVERHEAD
  {
    var a, n := bs[i].addr, AddrAt(bs, end, i + 1);
    var r := a + size + OVERHEAD;
    Tags(t.size[r := bs[i].size - size - OVERHEAD][a := size], t.free[r := true],
         t.prevFree[n := true][r := bs[i].free],
         if link then t.prevPhys[n := r][r := a] else t.prevPhys[n := r])
  }

  lemma TagSplit(bs: seq<Blk>, start: Addr, end: Addr, t: Tags, i: nat, size: nat, link: bool)
    requires Tiles(bs, start, end) && Tagged(bs, end, t, NONE) && i < |bs|
    requires BLOCK_SIZE_MIN <= size && size % ALIGN_SIZE == 0 && bs[i].size >= size + HEADER_SIZE
    requires bs[i].free ==> link
    ensures Tagged(Split(bs, i, size), end, SplitTags(bs, end, t, i, size, link), NONE)
  {
    hide Tiles, TagOk, PrevOk, Split, SplitTags;
    SplitTiles(bs, start, end, i, size);
    var q, t' := Split(bs, i, size), SplitTags(bs, end, t, i, size, link);
    Apart(q, start, end);
    forall k | 0 <= k < |q|
      ensures TagOk(q, end, t', k)
    {
      TagSplitAt(bs, end, t, i, size, link, k);
    }
    forall k | 0 <= k <= |q|
      ensures PrevOk(q, end, t', k)
    {
      PrevSplitAt(bs, end, t, i, size, link, k);
    }
    SplitSentinel(bs, end, t, i, size, link);
  }

  /** Later blocks have higher addresses, the end included. */
  ghost predicate Ascending(bs: seq<Blk>, end: Addr) {
    forall j, k | 0 <= j < k <= |bs| :: AddrAt(bs, end, j) < AddrAt(bs, end, k)
  }

  lemma TagSplitAt(bs: seq<Blk>, end: Addr, t: Tags, i: nat, size: nat, link: bool, k: nat)
    requires i < |bs| && bs[i].size >= size + HEADER_SIZE && (bs[i].free ==> link) && k <= |bs|
    requires Ascending(Split(bs, i, size), end) && Tagged(bs, end, t, NONE)
    ensures TagOk(Split(bs, i, size), end, SplitTags(bs, end, t, i, size, link), k)
  {
    if k < i {
      TagBefore(bs, end, t, i, size, link, k);
    } else if k > i + 1 {
      TagBehind(bs, end, t, i, size, link, k);
    } else {
      var q := Split(bs, i, size);
      assert TagOk(bs, end, t, i);
      assert AddrAt(q, end, i) < AddrAt(q, end, i + 1) < AddrAt(q, end, i + 2) == AddrAt(bs, end, i + 1);
    }
  }

  lemma TagBefore(bs: seq<Blk>, end: Addr, t: Tags, i: nat, size: nat, link: bool, k: nat)
    requires i < |bs| && bs[i].size >= size + HEADER_SIZE && k < i
    requires Ascending(Split(bs, i, size), end) && Tagged(bs, end, t, NONE)
    ensures TagOk(Split(bs, i, size), end, SplitTags(bs, end, t, i, size, link), k)
  {
    var q := Split(bs, i, size);
    assert TagOk(bs, end, t, k);
    assert AddrAt(q, end, k) < AddrAt(q, end, i)
        && AddrAt(q, end, k + 1) < AddrAt(q, end, i + 1) < AddrAt(q, end, i + 2);
    assert AddrAt(q, end, k + 1) == AddrAt(bs, end, k + 1);
  }

  lemma TagBehind(bs: seq<Blk>, end: Addr, t: Tags, i: nat, size: nat, link: bool, k: nat)
    requires i < |bs| && bs[i].size >= size + HEADER_SIZE && i + 1 < k <= |bs|
    requires Ascending(Split(bs, i, size), end) && Tagged(bs, end, t, NONE)
    ensures TagOk(Split(bs, i, size), end, SplitTags(bs, end, t, i, size, link), k)
  {
    var q := Split(bs, i, size);
    assert TagOk(bs, end, t, k - 1);
    assert AddrAt(q, end, i) < AddrAt(q, end, i + 1) < AddrAt(q, end, i + 2) < AddrAt(q, end, k + 1)
        && AddrAt(q, end, i + 1) < AddrAt(q, end, k);
    assert AddrAt(q, end, k + 1) == AddrAt(bs, end, k);
  }

  lemma PrevSplitAt(bs: seq<Blk>, end: Addr, t: Tags, i: nat, size: nat, link: bool, k: nat)
    requires i < |bs| && bs[i].size >= size + HEADER_SIZE && k <= |bs| + 1
    requires Ascending(Split(bs, i, size), end) && Tagged(bs, end, t, NONE)
    ensures PrevOk(Split(bs, i, size), end, SplitTags(bs, end, t, i, size, link), k)
  {
    var q := Split(bs, i, size);
    var j := if k <= i then k else k - 1;
    if k != i + 1 {
      assert PrevOk(bs, end, t, j);
      assert AddrAt(q, end, k) == AddrAt(bs, end, j);
      assert k < i + 1 ==> AddrAt(q, end, k) < AddrAt(q, end, i + 1) < AddrAt(q, end, i + 2);
      assert k > i + 2 ==> AddrAt(q, end, i + 1) < AddrAt(q, end, i + 2) < AddrAt(q, end, k);
    }
  }

  lemma SplitSentinel(bs: seq<Blk>, end: Addr, t: Tags, i: nat, size: nat, link: bool)
    requires i < |bs| && bs[i].size >= size + HEADER_SIZE
    requires Ascending(Split(bs, i, size), end) && Tagged(bs, end, t, NONE)
    ensures var t' := SplitTags(bs, end, t, i, size, link);
            end in t'.size && t'.size[end] == 0 && end in t'.free && !t'.free[end]
  {
    var q := Split(bs, i, size);
    assert AddrAt(q, end, i) < AddrAt(q, end, i + 1) < AddrAt(q, end, |q|);
  }

  // ----- the index of free blocks -----

  /** Exactly the free blocks, except the i-th, are listed, each under the class of its size. */
  ghost predicate Indexed(bs: seq<Blk>, where: map<Addr, nat>, i: int) {
    && (forall k | 0 <= k < |bs| :: IndexOk(bs, where, i, k))
    && (forall a | a in where :: exists k | 0 <= k < |bs| :: bs[k].addr == a)
  }

  ghost predicate IndexOk(bs: seq<Blk>, where: map<Addr, nat>, i: int, k: nat)
    requires k < |bs|
  {
    && (bs[k].addr in where <==> bs[k].free && k != i)
    && (bs[k].addr in where ==> where[bs[k].addr] == ClassOf(bs[k].size))
  }

  /** Listing the block that was left out. */
  lemma IndexInsert(bs: seq<Blk>, start: Addr, end: Addr, where: map<Addr, nat>, i: nat)
    requires Tiles(bs, start, end) && Indexed(bs, where, i) && i < |bs| && bs[i].free
    ensures bs[i].addr !in where
    ensures Indexed(bs, where[bs[i].addr := ClassOf(bs[i].size)], NONE)
  {
    Apart(bs, start, end);
    var w := where[bs[i].addr := ClassOf(bs[i].size)];
    forall k | 0 <= k < |bs|
      ensures IndexOk(bs, w, NONE, k)
    {
      assert IndexOk(bs, where, i, k);
      assert k != i ==> AddrAt(bs, end, k) != AddrAt(bs, end, i);
    }
    assert IndexOk(bs, where, i, i);
  }

  /** Unlisting a free block. */
  lemma IndexRemove(bs: seq<Blk>, start: Addr, end: Addr, where: map<Addr, nat>, i: nat)
    requires Tiles(bs, start, end) && Indexed(bs, where, NONE) && i < |bs| && bs[i].free
    ensures bs[i].addr in where && where[bs[i].addr] == ClassOf(bs[i].size)
    ensures Indexed(bs, where - {bs[i].addr}, i)
  {
    Apart(bs, start, end);
    var w := where - {bs[i].addr};
    forall k | 0 <= k < |bs|
      ensures IndexOk(bs, w, i, k)
    {
      assert IndexOk(bs, where, NONE, k);
      assert k != i ==> AddrAt(bs, end, k) != AddrAt(bs, end, i);
    }
    assert IndexOk(bs, where, NONE, i);
  }

  /** Changing the mark of the block that is left out. */
  lemma IndexMark(bs: seq<Blk>, where: map<Addr, nat>, i: nat, free: bool)
    requires i < |bs| && Indexed(bs, where, if bs[i].free then i else NONE)
    ensures Indexed(Mark(bs, i, free), where, if free then i else NONE)
  {
    var r := Mark(bs, i, free);
    var skip := if free then i else NONE;
    forall k | 0 <= k < |r|
      ensures IndexOk(r, where, skip, k)
    {
      assert IndexOk(bs, where, if bs[i].free then i else NONE, k);
    }
    forall a | a in where
      ensures exists k | 0 <= k < |r| :: r[k].addr == a
    {
      var k :| 0 <= k < |bs| && bs[k].addr == a;
      assert r[k].addr == a;
    }
  }

  /** The block left out absorbs a neighbour that has just been unlisted, or is absorbed by one. */
  lemma IndexAbsorb(bs: seq<Blk>, start: Addr, end: Addr, where: map<Addr, nat>, i: nat, left: nat)
    requires Tiles(bs, start, end) && i + 1 < |bs| && (left == i || left == i + 1)
    requires Indexed(bs, where, if bs[left].free then left else NONE)
    requires bs[if left == i then i + 1 else i].free
    ensures var other := if left == i then i + 1 else i;
            && bs[other].addr in where && where[bs[other].addr] == ClassOf(bs[other].size)
            && Indexed(Absorb(bs, i), where - {bs[other].addr}, if bs[i].free then i else NONE)
  {
    hide Tiles, IndexOk, Absorb;
    Apart(bs, start, end);
    var other := if left == i then i + 1 else i;
    var r, w := Absorb(bs, i), where - {bs[other].addr};
    var skip := if bs[i].free then i else NONE;
    ListedOther(bs, where, i, left);
    AbsorbedAre(bs, i);
    forall k | 0 <= k < |r|
      ensures IndexOk(r, w, skip, k)
    {
      IndexAbsorbAt(bs, start, end, where, i, left, k);
    }
    forall a | a in w
      ensures exists k | 0 <= k < |r| :: r[k].addr == a
    {
      var j :| 0 <= j < |bs| && bs[j].addr == a;
      StillListed(bs, where, i, left, j);
      assert r[if j <= i then j else j - 1].addr == a;
    }
  }

  lemma AbsorbedAre(bs: seq<Blk>, i: nat)
    requires i + 1 < |bs|
    ensures var r := Absorb(bs, i); |r| == |bs| - 1 && forall k | 0 <= k < |r| ::
              r[k].addr == bs[if k <= i then k else k + 1].addr
  {
  }

  lemma ListedOther(bs: seq<Blk>, where: map<Addr, nat>, i: nat, left: nat)
    requires i + 1 < |bs| && (left == i || left == i + 1) && Indexed(bs, where, if bs[left].free then left else NONE)
    requires bs[if left == i then i + 1 else i].free
    ensures var other := if left == i then i + 1 else i;
            bs[other].addr in where && where[bs[other].addr] == ClassOf(bs[other].size)
  {
    assert IndexOk(bs, where, if bs[left].free then left else NONE, if left == i then i + 1 else i);
  }

  lemma StillListed(bs: seq<Blk>, where: map<Addr, nat>, i: nat, left: nat, j: nat)
    requires i + 1 < |bs| && (left == i || left == i + 1) && Indexed(bs, where, if bs[left].free then left else NONE)
              && j < |bs|
    requires bs[j].addr in where && bs[j].addr != bs[if left == i then i + 1 else i].addr
    ensures j != i && j != i + 1
  {
    assert IndexOk(bs, where, if bs[left].free then left else NONE, j);
  }

  lemma IndexAbsorbAt(bs: seq<Blk>, start: Addr, end: Addr, where: map<Addr, nat>, i: nat, left: nat, k: nat)
    requires Tiles(bs, start, end) && i + 1 < |bs| && (left == i || left == i + 1) && k < |bs| - 1
    requires Indexed(bs, where, if bs[left].free then left else NONE) && bs[if left == i then i + 1 else i].free
    ensures var other := if left == i then i + 1 else i;
            IndexOk(Absorb(bs, i), where - {bs[other].addr}, if bs[i].free then i else NONE, k)
  {
    hide Tiles;
    Apart(bs, start, end);
    var other := if left == i then i + 1 else i;
    var j := if k <= i then k else k + 1;
    assert IndexOk(bs, where, if bs[left].free then left else NONE, j);
    assert j != other ==> AddrAt(bs, end, j) != AddrAt(bs, end, other);
  }

  /** The block left out is split; the new free block is the one left out now, or the first part is. */
  lemma IndexSplit(bs: seq<Blk>, where: map<Addr, nat>, i: nat, size: nat, start: Addr, end: Addr)
    requires i < |bs| && Indexed(bs, where, if bs[i].free then i else NONE) && Tiles(bs, start, end)
    requires BLOCK_SIZE_MIN <= size && size % ALIGN_SIZE == 0 && bs[i].size >= size + HEADER_SIZE
    ensures var q := Split(bs, i, size);
            && q[i].addr !in where && q[i + 1].addr !in where
            && Indexed(q, where[q[i + 1].addr := ClassOf(q[i + 1].size)], if bs[i].free then i else NONE)
            && (bs[i].free ==> Indexed(q, where[q[i].addr := ClassOf(q[i].size)], i + 1))
            && (!bs[i].free ==> Indexed(q, where, i + 1))
  {
    hide Tiles;
    SplitTiles(bs, start, end, i, size);
    var q := Split(bs, i, size);
    Apart(q, start, end);
    var skip := if bs[i].free then i else NONE;
    assert IndexOk(bs, where, skip, i);
    forall a | a in where
      ensures exists k | 0 <= k < |q| && k != i && k != i + 1 :: q[k].addr == a
    {
      var j :| 0 <= j < |bs| && bs[j].addr == a;
      assert IndexOk(bs, where, skip, j) && j != i;
      assert q[if j < i then j else j + 1].addr == a;
    }
    forall k | 0 <= k < |q| && q[k].addr == q[i + 1].addr
      ensures k == i + 1
    {
      assert AddrAt(q, end, k) == AddrAt(q, end, i + 1);
    }
    forall k | 0 <= k < |q| && k != i && k != i + 1
      ensures q[k].addr != q[i].addr && q[k].addr != q[i + 1].addr
      ensures IndexOk(q, where, NONE, k)
    {
      assert AddrAt(q, end, k) != AddrAt(q, end, i) && AddrAt(q, end, k) != AddrAt(q, end, i + 1);
      assert IndexOk(bs, where, skip, if k < i then k else k - 1);
    }
    assert AddrAt(q, end, i) != AddrAt(q, end, i + 1);
  }

  // ----- what allocation and release do to the list -----

  /** The i-th block is taken for size bytes, its tail cut off when that leaves room for a block. */
  function Use(bs: seq<Blk>, i: nat, size: nat): (r: seq<Blk>)
    requires i < |bs|
  {
    if bs[i].size >= HEADER_SIZE + size then Mark(Split(bs, i, size), i, false) else Mark(bs, i, false)
  }

  /** The block that has been taken, and the one behind it. */
  lemma UseFirst(bs: seq<Blk>, i: nat, size: nat)
    requires i < |bs|
    ensures |bs| <= |Use(bs, i, size)| <= |bs| + 1
    ensures Use(bs, i, size)[i] == Blk(bs[i].addr, if bs[i].size >= size + HEADER_SIZE then size else bs[i].size, false)
    ensures bs[i].size >= size + HEADER_SIZE ==>
              i + 1 < |Use(bs, i, size)|
              && Use(bs, i, size)[i + 1] == Blk(bs[i].addr + size + OVERHEAD, bs[i].size - size - OVERHEAD, true)
  {
  }

  function MergePrevSpec(bs: seq<Blk>, i: nat): (r: (seq<Blk>, nat))
    requires i < |bs|
    ensures r.1 < |r.0|
  {
    if i > 0 && bs[i - 1].free then (Absorb(bs, i - 1), i - 1) else (bs, i)
  }

  function MergeNextSpec(bs: seq<Blk>, i: nat): (r: seq<Blk>)
    requires i < |bs|
    ensures i < |r|
  {
    if i + 1 < |bs| && bs[i + 1].free then Absorb(bs, i) else bs
  }

  /** The i-th block is released and merged with its free neighbours. */
  function Release(bs: seq<Blk>, i: nat): (r: seq<Blk>)
    requires i < |bs|
  {
    var (r, j) := MergePrevSpec(Mark(bs, i, true), i);
    MergeNextSpec(r, j)
  }

  lemma UseCoalesced(bs: seq<Blk>, i: nat, size: nat)
    requires i < |bs| && bs[i].free && Coalesced(bs, i) && (i + 1 < |bs| ==> !bs[i + 1].free)
    ensures Coalesced(Use(bs, i, size), NONE)
  {
    var r := Use(bs, i, size);
    forall k | 0 <= k < |r| - 1
      ensures !(r[k].free && r[k + 1].free)
    {
      if bs[i].size >= HEADER_SIZE + size {
        var q := Split(bs, i, size);
        assert r[k] == q[k].(free := k != i && q[k].free);
        assert r[k + 1] == q[k + 1].(free := k + 1 != i && q[k + 1].free);
        if k + 1 < i {
          NotBoth(bs, i, k);
        } else if k > i + 1 {
          NotBoth(bs, i, k - 1);
        }
      } else if k != i && k + 1 != i {
        NotBoth(bs, i, k);
      }
    }
  }

  /** A free block has no free neighbour, and splitting it leaves only its second part beside one. */
  lemma SplitCoalesced(bs: seq<Blk>, i: nat, size: nat)
    requires i < |bs| && bs[i].free && Coalesced(bs, NONE) && bs[i].size >= size + OVERHEAD
    ensures i + 1 < |bs| ==> !bs[i + 1].free
    ensures i > 0 ==> !bs[i - 1].free
    ensures Coalesced(bs, i) && Coalesced(Split(bs, i, size), i + 1)
  {
    if i + 1 < |bs| {
      NotBoth(bs, NONE, i);
    }
    if i > 0 {
      NotBoth(bs, NONE, i - 1);
    }
    var q := Split(bs, i, size);
    forall k | 0 <= k < |q| - 1 && k != i + 1 && k + 1 != i + 1
      ensures !(q[k].free && q[k + 1].free)
    {
      if k < i {
        NotBoth(bs, NONE, k);
      } else {
        NotBoth(bs, NONE, k - 1);
      }
    }
  }

  lemma ReleaseCoalesced(bs: seq<Blk>, i: nat)
    requires Coalesced(bs, NONE) && i < |bs| && !bs[i].free
    ensures Coalesced(Release(bs, i), NONE)
  {
    var m := Mark(bs, i, true);
    assert forall k | 0 <= k < |m| - 1 && k != i && k + 1 != i :: !(m[k].free && m[k + 1].free) by {
      assert forall k | 0 <= k < |m| - 1 && k != i && k + 1 != i :: !(bs[k].free && bs[k + 1].free);
    }
    var (r, j) := MergePrevSpec(m, i);
    MergePrevCoalesced(m, i);
    MergeNextCoalesced(r, j);
  }

  lemma MergePrevCoalesced(bs: seq<Blk>, i: nat)
    requires i < |bs| && bs[i].free && Coalesced(bs, i)
    ensures var (r, j) := MergePrevSpec(bs, i);
            r[j].free && Coalesced(r, j) && (j > 0 ==> !r[j - 1].free)
  {
    var (r, j) := MergePrevSpec(bs, i);
    if i > 0 && bs[i - 1].free {
      if i > 1 {
        NotBoth(bs, i, i - 2);
      }
      forall k | 0 <= k < |r| - 1 && k != j && k + 1 != j
        ensures !(r[k].free && r[k + 1].free)
      {
        if k + 1 < j {
          assert !(bs[k].free && bs[k + 1].free);
        } else {
          assert !(bs[k + 1].free && bs[k + 1 + 1].free);
        }
      }
    }
  }

  lemma MergeNextCoalesced(bs: seq<Blk>, i: nat)
    requires i < |bs| && Coalesced(bs, i) && (i > 0 && bs[i].free ==> !bs[i - 1].free)
    ensures Coalesced(MergeNextSpec(bs, i), NONE)
  {
    var r := MergeNextSpec(bs, i);
    forall k | 0 <= k < |r| - 1
      ensures !(r[k].free && r[k + 1].free)
    {
      if r == bs {
        assert k != i && k + 1 != i ==> !(bs[k].free && bs[k + 1].free);
      } else if k + 1 < i {
        assert !(bs[k].free && bs[k + 1].free);
      } else if k == i {
        assert !(bs[i + 1].free && bs[i + 1 + 1].free);
      } else if k > i {
        assert !(bs[k + 1].free && bs[k + 1 + 1].free);
      }
    }
  }

  /** Whether the i-th block, in use, can be resized in place. */
  predicate Fits(bs: seq<Blk>, i: nat, size: nat)
    requires i < |bs|
  {
    size <= bs[i].size || (i + 1 < |bs| && bs[i + 1].free && size <= bs[i].size + bs[i + 1].size + OVERHEAD)
  }

  /** A block in use loses its tail, which is merged with a free successor. */
  function TrimUsedSpec(bs: seq<Blk>, i: nat, size: nat): (r: seq<Blk>)
    requires i < |bs|
    ensures i < |r|
  {
    if bs[i].size >= HEADER_SIZE + size then MergeNextSpec(Split(bs, i, size), i + 1) else bs
  }

  function Resize(bs: seq<Blk>, i: nat, size: nat): (r: seq<Blk>)
    requires i < |bs| && Fits(bs, i, size)
    ensures i < |r|
  {
    TrimUsedSpec(if size > bs[i].size then Absorb(bs, i) else bs, i, size)
  }

  lemma GrowCoalesced(bs: seq<Blk>, i: nat)
    requires i + 1 < |bs| && !bs[i].free && Coalesced(bs, NONE)
    ensures Coalesced(Absorb(bs, i), NONE)
  {
    var r := Absorb(bs, i);
    forall k | 0 <= k < |r| - 1
      ensures !(r[k].free && r[k + 1].free)
    {
      NotBoth(bs, NONE, if k < i then k else k + 1);
    }
  }

  lemma TrimUsedCoalesced(bs: seq<Blk>, i: nat, size: nat)
    requires i < |bs| && !bs[i].free && Coalesced(bs, NONE)
    ensures Coalesced(TrimUsedSpec(bs, i, size), NONE)
  {
    if bs[i].size >= HEADER_SIZE + size {
      var q := Split(bs, i, size);
      forall k | 0 <= k < |q| - 1 && k != i + 1 && k + 1 != i + 1
        ensures !(q[k].free && q[k + 1].free)
      {
        NotBoth(bs, NONE, if k < i then k else k - 1);
      }
      MergeNextCoalesced(q, i + 1);
    }
  }

  /** When everything has been freed one free block is left, as large as the one at the start. */
  lemma AllFreeIsOneBlock(bs: seq<Blk>, start: Addr, end: Addr)
    requires Tiles(bs, start, end) && Coalesced(bs, NONE)
    requires forall k | 0 <= k < |bs| :: bs[k].free
    ensures |bs| == 1 && bs[0].addr == start && bs[0].size == end - start - OVERHEAD
  {
    assert TileOk(bs, end, 0);
    if |bs| > 1 {
      assert false;
    }
  }
}
