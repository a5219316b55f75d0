/** The TLSF allocator: tlsf/tlsf.c in its 64-bit build. */
module Tlsf {
  import opened Arith
  import opened TlsfMapping
  import opened TlsfLists
  import opened TlsfBlocks
  import opened TlsfPayloads

  const POOL_SIZE := 6536
  const POOL_OVERHEAD := 6552
  const SIZE_T_RANGE := 0x1_0000_0000_0000_0000

  /** adjust_request_size: 0 stands for a request that cannot be met. */
  function AdjustRequest(size: nat, align: nat): (r: nat)
    requires align > 0
  {
    if 0 < size < BLOCK_SIZE_MAX then
      var aligned := AlignTo(size, align);
      if aligned > BLOCK_SIZE_MIN then aligned else BLOCK_SIZE_MIN
    else 0
  }

  /** A block of n bytes can hold size bytes. */
  predicate Suits(n: nat, size: nat) {
    n >= BLOCK_SIZE_MIN && n % ALIGN_SIZE == 0 && n >= size
  }

  /** The adjusted request is the smallest block that holds the size asked for, in the range of sizes. */
  lemma AdjustIsLeast(size: nat, n: nat)
    ensures 0 < size < BLOCK_SIZE_MAX ==> Suits(AdjustRequest(size, ALIGN_SIZE), size)
    ensures 0 < size < BLOCK_SIZE_MAX && Suits(n, size) ==> AdjustRequest(size, ALIGN_SIZE) <= n
    ensures size == 0 || size >= BLOCK_SIZE_MAX ==> AdjustRequest(size, ALIGN_SIZE) == 0
  {
    hide AlignTo;
    if 0 < size < BLOCK_SIZE_MAX && Suits(n, size) {
      NextMultiple(size, AlignTo(size, ALIGN_SIZE), n);
    }
  }

  lemma NextMultiple(x: nat, r: nat, n: nat)
    requires x <= r < x + 8 && r % 8 == 0 && n % 8 == 0 && n >= x
    ensures r <= n
  {
  }

  ghost predicate PowerOfTwo(align: nat) {
    exists k: nat :: align == Pow2(k)
  }

  predicate IsAligned(p: Addr, align: nat) {
    align > 0 && p % align == 0
  }

  /** A power of two is at most the base alignment, or a multiple of 16. */
  lemma PowerOfTwoCases(align: nat)
    requires PowerOfTwo(align)
    ensures align == 1 || align == 2 || align == 4 || align == 8 || (align >= 16 && align % 16 == 0)
  {
    var k: nat :| align == Pow2(k);
    assert Pow2(1) == 2 && Pow2(2) == 4 && Pow2(3) == 8 && Pow2(4) == 16;
    if k >= 4 {
      Pow2Add(4, k - 4);
      DivModUnique(align, 16, Pow2(k - 4), 0);
    }
  }

  /** How much tlsf_memalign looks for. */
  function AlignedRequest(align: nat, size: nat): (r: nat)
    requires align > 0
  {
    var adjust := AdjustRequest(size, ALIGN_SIZE);
    if align <= ALIGN_SIZE then adjust else AdjustRequest(adjust + align + HEADER_SIZE, align)
  }

  /** The distance from ptr to the address tlsf_memalign hands out. */
  function Gap(ptr: Addr, align: nat): (r: nat)
    requires align > 0
  {
    var aligned := AlignTo(ptr, align);
    var gap := aligned - ptr;
    if 0 < gap < HEADER_SIZE then
      var offset := if HEADER_SIZE - gap > align then HEADER_SIZE - gap else align;
      AlignTo(aligned + offset, align) - ptr
    else gap
  }

  lemma AlignUpIs(x: nat, align: nat, r: nat)
    requires align > 0 && x <= r < x + align && r % align == 0
    ensures AlignTo(x, align) == r
  {
    var u := AlignTo(x, align);
    if u <= r {
      AddMod(r, u, align);
      DivModUnique(r - u, align, 0, r - u);
    } else {
      AddMod(u, r, align);
      DivModUnique(u - r, align, 0, u - r);
    }
  }

  /** Multiples of a multiple. */
  lemma ModTrans(r: nat, a: nat, b: nat)
    requires a > 0 && b > 0 && r % a == 0 && a % b == 0
    ensures r % b == 0
  {
    var q, m := r / a, a / b;
    assert r == q * a && a == m * b;
    assert r == (q * m) * b by {
      assert q * (m * b) == (q * m) * b;
    }
    DivModUnique(r, b, q * m, 0);
  }

  /** The gap is aligned, is nothing or a whole block, and is at most align + 24. */
  lemma GapOk(ptr: Addr, align: nat)
    requires PowerOfTwo(align) && ptr % ALIGN_SIZE == 0
    ensures var gap := Gap(ptr, align);
      && IsAligned(ptr + gap, align) && gap % ALIGN_SIZE == 0 && (gap == 0 || gap >= HEADER_SIZE)
      && gap <= align + 24 && (align <= ALIGN_SIZE ==> gap == 0)
  {
    hide PowerOfTwo, Gap, IsAligned;
    PowerOfTwoCases(align);
    if align <= ALIGN_SIZE {
      NoGap(ptr, align);
    } else {
      WideGap(ptr, align, AlignTo(ptr, align));
    }
  }

  lemma NoGap(ptr: Addr, align: nat)
    requires ptr % 8 == 0 && (align == 1 || align == 2 || align == 4 || align == 8)
    ensures Gap(ptr, align) == 0 && IsAligned(ptr, align)
  {
    hide AlignTo;
    DividesMultipleOf8(ptr, align);
    AlignUpIs(ptr, align, ptr);
  }

  lemma WideGap(ptr: Addr, align: nat, aligned: nat)
    requires align >= 16 && align % 16 == 0 && ptr % ALIGN_SIZE == 0 && aligned == AlignTo(ptr, align)
    ensures var gap := Gap(ptr, align);
      && IsAligned(ptr + gap, align) && gap % ALIGN_SIZE == 0 && (gap == 0 || gap >= HEADER_SIZE) && gap <= align + 24
  {
    hide Gap, IsAligned, AlignTo;
    AlignedIs(ptr, align, aligned);
    ModTrans(aligned, align, 16);
    GapIs(ptr, align, aligned);
    Multiples(ptr, aligned, align);
  }

  lemma AlignedIs(ptr: Addr, align: nat, aligned: nat)
    requires align > 0 && aligned == AlignTo(ptr, align)
    ensures ptr <= aligned < ptr + align && aligned % align == 0
  {
  }

  lemma DividesMultipleOf8(ptr: nat, align: nat)
    requires ptr % 8 == 0 && (align == 1 || align == 2 || align == 4 || align == 8)
    ensures ptr % align == 0
  {
    if align == 1 {
      assert ptr % 1 == 0;
    } else if align == 2 {
      assert ptr % 2 == 0;
    } else if align == 4 {
      assert ptr % 4 == 0;
    }
  }

  /** The three cases of the gap for an alignment above the base alignment. */
  lemma GapIs(ptr: Addr, align: nat, aligned: nat)
    requires align >= 16 && align % 16 == 0 && ptr % ALIGN_SIZE == 0 && aligned % 16 == 0
    requires aligned == AlignTo(ptr, align)
    ensures Gap(ptr, align) ==
            if aligned - ptr == 0 || aligned - ptr >= HEADER_SIZE then aligned - ptr
            else if align == 16 then 40
            else aligned + align - ptr
    ensures IsAligned(ptr + Gap(ptr, align), align)
  {
    var gap := aligned - ptr;
    if 0 < gap < HEADER_SIZE {
      SmallGap(ptr, align, aligned);
      if align == 16 {
        AlignUpIs(aligned + 24, align, aligned + 32);
      } else {
        DivModUnique(align, align, 1, 0);
        AddMod(aligned, align, align);
        AlignUpIs(aligned + align, align, aligned + align);
      }
    }
  }

  /** The gap is the smallest that is nothing or a whole block and leads to an aligned address. */
  lemma GapIsLeast(ptr: Addr, align: nat, gap: nat)
    requires PowerOfTwo(align) && ptr % ALIGN_SIZE == 0
    requires IsAligned(ptr + gap, align) && (gap == 0 || gap >= HEADER_SIZE)
    ensures Gap(ptr, align) <= gap
  {
    hide PowerOfTwo, Gap, IsAligned;
    PowerOfTwoCases(align);
    if align <= ALIGN_SIZE {
      NoGap(ptr, align);
    } else {
      WideGapIsLeast(ptr, align, AlignTo(ptr, align), gap);
    }
  }

  lemma WideGapIsLeast(ptr: Addr, align: nat, aligned: nat, gap: nat)
    requires align >= 16 && align % 16 == 0 && ptr % ALIGN_SIZE == 0 && aligned == AlignTo(ptr, align)
    requires IsAligned(ptr + gap, align) && (gap == 0 || gap >= HEADER_SIZE)
    ensures Gap(ptr, align) <= gap
  {
    hide Gap, AlignTo;
    AlignedIs(ptr, align, aligned);
    ModTrans(aligned, align, 16);
    GapIs(ptr, align, aligned);
    MultipleBehind(aligned, ptr + gap, align);
    if 0 < aligned - ptr < HEADER_SIZE {
      SmallGap(ptr, align, aligned);
      if align == 16 {
        SixteenBehind(ptr, aligned, gap);
      }
    }
  }

  lemma SixteenBehind(ptr: Addr, aligned: nat, gap: nat)
    requires aligned == ptr + 8 && aligned % 16 == 0 && (ptr + gap) % 16 == 0 && gap >= 32
    ensures gap >= 40
  {
  }

  /** Multiples are a whole step apart. */
  lemma MultipleBehind(a: nat, b: nat, d: nat)
    requires d > 0 && a % d == 0 && b % d == 0 && a < b + d
    ensures a <= b && (a < b ==> a + d <= b)
  {
    var p, q := a / d, b / d;
    assert a == p * d && b == q * d;
    if q < p {
      MulOrder(q, p, d);
    } else if p < q {
      MulOrder(p, q, d);
    }
  }

  lemma SmallGap(ptr: Addr, align: nat, aligned: nat)
    requires align >= 16 && align % 16 == 0 && ptr % 8 == 0 && aligned % 16 == 0 && ptr < aligned < ptr + align
    ensures align == 16 ==> aligned - ptr == 8
    ensures align != 16 ==> align >= 32
  {
    var q, r, p := align / 16, aligned / 16, ptr / 8;
    assert align == 16 * q && aligned == 16 * r && ptr == 8 * p;
    if align == 16 {
      assert 0 < 2 * r - p < 2;
    }
  }

  lemma Multiples(ptr: Addr, aligned: nat, align: nat)
    requires align % 16 == 0 && ptr % 8 == 0 && aligned % 16 == 0 && ptr <= aligned
    ensures (aligned - ptr) % 8 == 0 && (aligned + align - ptr) % 8 == 0
  {
    var p, r, q := ptr / 8, aligned / 16, align / 16;
    DivModUnique(aligned - ptr, 8, 2 * r - p, 0);
    DivModUnique(aligned + align - ptr, 8, 2 * r + 2 * q - p, 0);
  }

  lemma AlignedRequestIsAligned(align: nat, size: nat)
    requires PowerOfTwo(align)
    ensures AlignedRequest(align, size) % ALIGN_SIZE == 0
  {
    PowerOfTwoCases(align);
    if align > ALIGN_SIZE {
      var adjust := AdjustRequest(size, ALIGN_SIZE);
      var aligned := AlignTo(adjust + align + HEADER_SIZE, align);
      ModTrans(aligned, align, 16);
      Multiples(0, aligned, 0);
      var r := AlignedRequest(align, size);
      assert r == 0 || r == aligned || r == BLOCK_SIZE_MIN;
    }
  }

  /** A block found for the enlarged request holds the gap and the request. */
  lemma GapFits(ptr: Addr, align: nat, size: nat)
    requires PowerOfTwo(align) && ptr % ALIGN_SIZE == 0 && AlignedRequest(align, size) > 0
    requires align > ALIGN_SIZE ==> 0 < size < BLOCK_SIZE_MAX
    ensures var gap := Gap(ptr, align);
      && IsAligned(ptr + gap, align) && gap % ALIGN_SIZE == 0 && (gap == 0 || gap >= HEADER_SIZE)
      && AlignedRequest(align, size) >= gap + AdjustRequest(size, ALIGN_SIZE)
      && (gap > 0 ==> AlignedRequest(align, size) >= gap + HEADER_SIZE)
      && AdjustRequest(size, ALIGN_SIZE) >= BLOCK_SIZE_MIN && AdjustRequest(size, ALIGN_SIZE) >= size
      && AdjustRequest(size, ALIGN_SIZE) % ALIGN_SIZE == 0
  {
    GapOk(ptr, align);
  }

  /** b has been made of the i-th block, gap bytes behind its beginning: cut to the smallest block that holds
      size bytes if what is left over makes a block, all of it otherwise. */
  predicate Chosen(before: seq<Blk>, i: nat, gap: nat, size: nat, b: Blk) {
    && i < |before| && before[i].free && 0 < size < BLOCK_SIZE_MAX
    && !b.free && b.addr == before[i].addr + gap && gap + b.size <= before[i].size
    && var least, room := AdjustRequest(size, ALIGN_SIZE), before[i].size - gap;
       b.size == if room >= least + HEADER_SIZE then least else room
  }

  /** A chosen block is never a whole block larger than needed. */
  lemma ChosenIsTight(before: seq<Blk>, i: nat, gap: nat, size: nat, b: Blk, n: nat)
    requires Chosen(before, i, gap, size, b) && Suits(n, size)
    ensures b.size < n + HEADER_SIZE
  {
    AdjustIsLeast(size, n);
  }

  /** The i-th block is of the lowest class, at or above that of the rounded request, in which a block is free. */
  predicate BestClass(before: seq<Blk>, i: nat, request: nat) {
    && i < |before| && ClassOf(Rounded(request)) <= ClassOf(before[i].size)
    && forall k | 0 <= k < |before| && before[k].free && ClassOf(Rounded(request)) <= ClassOf(before[k].size) ::
         ClassOf(before[i].size) <= ClassOf(before[k].size)
  }

  /** No free block reaches the rounded request. */
  predicate NoRoom(before: seq<Blk>, request: nat) {
    forall k | 0 <= k < |before| && before[k].free :: before[k].size < Rounded(request)
  }

  /** b has been made of a block of the lowest class that serves the request. */
  ghost predicate Found(before: seq<Blk>, size: nat, b: Blk) {
    exists i: nat :: Chosen(before, i, 0, size, b) && BestClass(before, i, AdjustRequest(size, ALIGN_SIZE))
  }

  /** b is the i-th block resized in place: cut to the smallest block that holds size bytes if what is left over
      makes a block; its free successor is used only if it is needed. */
  predicate InPlace(before: seq<Blk>, i: nat, size: nat, b: Blk) {
    && i < |before| && !b.free && b.addr == before[i].addr
    && var least := AdjustRequest(size, ALIGN_SIZE);
       var room := if least <= before[i].size then before[i].size
                   else if i + 1 < |before| then before[i].size + OVERHEAD + before[i + 1].size else 0;
       least <= room && b.size == if room >= least + HEADER_SIZE then least else room
  }

  lemma ResizeIs(bs: seq<Blk>, i: nat, size: nat)
    requires i < |bs| && !bs[i].free && Fits(bs, i, AdjustRequest(size, ALIGN_SIZE))
    ensures InPlace(bs, i, size, Resize(bs, i, AdjustRequest(size, ALIGN_SIZE))[i])
  {
    hide AdjustRequest;
  }

  /** Then no free block is one part in 32 larger than the request. */
  lemma NoRoomBound(before: seq<Blk>, request: nat, k: nat)
    requires NoRoom(before, request) && request > 0 && k < |before| && before[k].free
    ensures 32 * before[k].size < 33 * request
  {
    hide Rounded;
    RoundedBound(request);
  }

  /** What tlsf_memalign looks for in excess of the request. */
  lemma AlignedRequestBound(align: nat, size: nat)
    requires PowerOfTwo(align) && 0 < size < BLOCK_SIZE_MAX
    ensures AlignedRequest(align, size) <= AdjustRequest(size, ALIGN_SIZE) + 2 * align + HEADER_SIZE
    ensures align <= ALIGN_SIZE ==> AlignedRequest(align, size) == AdjustRequest(size, ALIGN_SIZE)
  {
    hide AlignTo;
    PowerOfTwoCases(align);
  }

  /** The i-th block has just been handed out at p for size bytes, and no other block in use changed. */
  predicate Taken(before: seq<Blk>, bs: seq<Blk>, p: Addr, size: nat, i: nat)
    requires i < |bs|
  {
    && !bs[i].free && p == bs[i].addr + START_OFFSET && size <= bs[i].size
    && bs[i] !in Live(before) && Live(bs) == Live(before) + {bs[i]}
  }

  /** Block i without its first gap bytes, which become a free block of their own. */
  function CutAt(bs: seq<Blk>, i: nat, gap: nat): (r: seq<Blk>)
    requires i < |bs| && (gap > 0 ==> OVERHEAD <= gap <= bs[i].size)
  {
    if gap > 0 then Split(bs, i, gap - OVERHEAD) else bs
  }

  function CutIndex(i: nat, gap: nat): (r: nat) {
    if gap > 0 then i + 1 else i
  }

  /** Block i has been handed out for size bytes at p, gap bytes behind its old payload; the gap is
      nothing or has become a free block. */
  predicate Placed(before: seq<Blk>, bs: seq<Blk>, i: nat, gap: nat, p: Addr, size: nat)
    requires i < |before|
  {
    var adjust, j := AdjustRequest(size, ALIGN_SIZE), CutIndex(i, gap);
    && p == before[i].addr + START_OFFSET + gap && (gap == 0 || gap >= HEADER_SIZE) && gap + adjust <= before[i].size
    && bs == Use(CutAt(before, i, gap), j, adjust)
    && j < |bs| && Taken(before, bs, p, size, j) && Chosen(before, i, gap, size, bs[j])
  }

  /** What block_trim_free_leading and block_prepare_used do to the block that was found. */
  lemma PlaceAt(bs: seq<Blk>, start: Addr, end: Addr, i: nat, gap: nat, size: nat)
    requires Tiles(bs, start, end) && Coalesced(bs, NONE) && i < |bs| && bs[i].free
    requires gap > 0 ==> HEADER_SIZE <= gap && gap % ALIGN_SIZE == 0 && bs[i].size >= HEADER_SIZE + gap
    requires var adjust := AdjustRequest(size, ALIGN_SIZE);
             BLOCK_SIZE_MIN <= adjust && size <= adjust && gap + adjust <= bs[i].size && adjust % ALIGN_SIZE == 0
    ensures var cut, j := CutAt(bs, i, gap), CutIndex(i, gap);
         && j < |cut| && cut[j].free && cut[j].addr == bs[i].addr + gap && Coalesced(cut, j)
           && (j + 1 < |cut| ==> !cut[j + 1].free)
         && Placed(bs, Use(cut, j, AdjustRequest(size, ALIGN_SIZE)), i, gap, bs[i].addr + START_OFFSET + gap, size)
  {
    hide AdjustRequest, Tiles, Live, Use, Coalesced;
    var adjust := AdjustRequest(size, ALIGN_SIZE);
    AdjustIsLeast(size, adjust);
    UseFirst(CutAt(bs, i, gap), CutIndex(i, gap), adjust);
    if gap > 0 {
      var cut := Split(bs, i, gap - OVERHEAD);
      SplitCoalesced(bs, i, gap - OVERHEAD);
      SplitTiles(bs, start, end, i, gap - OVERHEAD);
      LiveSplit(bs, start, end, i, gap - OVERHEAD);
      LiveUse(cut, start, end, i + 1, adjust);
    } else {
      SplitCoalesced(bs, i, 0);
      LiveUse(bs, start, end, i, adjust);
    }
  }

  lemma PayloadAligned(bs: seq<Blk>, start: Addr, end: Addr, i: nat)
    requires Tiles(bs, start, end) && i < |bs|
    ensures (bs[i].addr + START_OFFSET) % ALIGN_SIZE == 0
  {
    InOrder(bs, start, end, i, |bs|);
  }

  /** block_trim_free_leading: block i without its first gap bytes, if that leaves a block. */
  function TrimLeading(bs: seq<Blk>, i: nat, gap: nat): (r: (seq<Blk>, nat))
    requires i < |bs| && (gap == 0 || gap >= HEADER_SIZE)
    ensures r.1 < |r.0|
  {
    if gap > 0 && bs[i].size >= HEADER_SIZE + gap then (Split(bs, i, gap - OVERHEAD), i + 1) else (bs, i)
  }

  /** The blocks after a call of tlsf_memalign that has found block i. */
  function AlignedUse(bs: seq<Blk>, i: nat, align: nat, size: nat): (r: seq<Blk>)
    requires i < |bs| && align > 0
    requires var gap := Gap(bs[i].addr + START_OFFSET, align); gap == 0 || gap >= HEADER_SIZE
  {
    var (cut, j) := TrimLeading(bs, i, Gap(bs[i].addr + START_OFFSET, align));
    Use(cut, j, AdjustRequest(size, ALIGN_SIZE))
  }

  /** With the condition that such requests are not made, the gap is always cut off. */
  lemma AlignedUseIs(bs: seq<Blk>, i: nat, align: nat, size: nat)
    requires i < |bs| && align > 0
    requires var gap := Gap(bs[i].addr + START_OFFSET, align);
              gap > 0 ==> gap >= HEADER_SIZE && bs[i].size >= HEADER_SIZE + gap
    ensures var gap := Gap(bs[i].addr + START_OFFSET, align);
            AlignedUse(bs, i, align, size) == Use(CutAt(bs, i, gap), CutIndex(i, gap), AdjustRequest(size, ALIGN_SIZE))
  {
    hide Gap, AdjustRequest, Use;
  }

  lemma GapPlaced(bs: seq<Blk>, start: Addr, end: Addr, i: nat, align: nat, size: nat)
    requires Tiles(bs, start, end) && Coalesced(bs, NONE) && PowerOfTwo(align)
    requires i < |bs| && bs[i].free && 0 < AlignedRequest(align, size) <= bs[i].size
    requires align > ALIGN_SIZE ==> 0 < size < BLOCK_SIZE_MAX
    ensures var gap, adjust := Gap(bs[i].addr + START_OFFSET, align), AdjustRequest(size, ALIGN_SIZE);
      && IsAligned(bs[i].addr + START_OFFSET + gap, align) && adjust >= BLOCK_SIZE_MIN && adjust % ALIGN_SIZE == 0
      && (gap > 0 ==> HEADER_SIZE <= gap && gap % ALIGN_SIZE == 0 && bs[i].size >= HEADER_SIZE + gap)
      && var cut, j := CutAt(bs, i, gap), CutIndex(i, gap);
         && j < |cut| && cut[j].free && cut[j].addr == bs[i].addr + gap && Coalesced(cut, j)
           && (j + 1 < |cut| ==> !cut[j + 1].free)
         && Placed(bs, Use(cut, j, adjust), i, gap, bs[i].addr + START_OFFSET + gap, size)
         && AlignedUse(bs, i, align, size) == Use(cut, j, adjust)
  {
    PayloadAligned(bs, start, end, i);
    PowerOfTwoCases(align);
    var ptr: Addr := bs[i].addr + START_OFFSET;
    hide *;
    GapFits(ptr, align, size);
    PlaceAt(bs, start, end, i, Gap(ptr, align), size);
    AlignedUseIs(bs, i, align, size);
  }

  function Min(a: nat, b: nat): (r: nat) {
    if a <= b then a else b
  }

  ghost predicate SamePrefix(m: seq<int>, a: Addr, m': seq<int>, a': Addr, n: nat) {
    && a + n <= |m| && a' + n <= |m'|
    && m'[a'..a' + n] == m[a..a + n]
  }

  /** Block was has been replaced by block b at p, which holds size bytes and begins with the same
      bytes; nothing else in use has changed. */
  ghost predicate Moved(was: Blk, live: set<Blk>, m: seq<int>, b: Blk, live': set<Blk>, m': seq<int>, p: Addr,
                        size: nat) {
    && !b.free && p == b.addr + START_OFFSET && size <= b.size
    && live' == live - {was} + {b}
    && Kept(live - {was}, m, m')
    && SamePrefix(m, was.addr + START_OFFSET, m', p, Min(was.size, size))
  }

  lemma MovedLess(was: Blk, live: set<Blk>, m: seq<int>, b: Blk, live': set<Blk>, m': seq<int>, p: Addr, adjust: nat,
                  size: nat)
    requires Moved(was, live, m, b, live', m', p, adjust) && size <= adjust
    ensures Moved(was, live, m, b, live', m', p, size)
  {
    var n, k, a := Min(was.size, adjust), Min(was.size, size), was.addr + START_OFFSET;
    assert m'[p..p + k] == m'[p..p + n][..k];
    assert m[a..a + k] == m[a..a + n][..k];
  }

  /** Handing out a block, copying into it and releasing the old one. */
  lemma MovedChain(was: Blk, live: set<Blk>, taken: Blk, m0: seq<int>, m1: seq<int>, m2: seq<int>, m3: seq<int>,
                   p: Addr, size: nat)
    requires was in live && taken !in live && !taken.free && p == taken.addr + START_OFFSET && size <= taken.size
    requires was.addr + START_OFFSET + was.size <= |m0| && |m0| == |m1|
    requires Kept(live, m0, m1) && Kept(live + {taken} - {taken}, m1, m2) && Kept(live + {taken} - {was}, m2, m3)
    requires SamePrefix(m1, was.addr + START_OFFSET, m2, p, Min(was.size, size))
    ensures Moved(was, live, m0, taken, live - {was} + {taken}, m3, p, size)
  {
    var others, n := live - {was}, Min(was.size, size);
    assert live + {taken} - {taken} == live;
    PrefixHeld(was, live, was.addr + START_OFFSET, m0, m1, n);
    PrefixHeld(taken, live + {taken} - {was}, p, m2, m3, n);
    KeptFewer(live, others, m0, m1);
    KeptFewer(live, others, m1, m2);
    KeptFewer(live + {taken} - {was}, others, m2, m3);
    hide Kept;
    KeptTrans(others, m0, m1, m2);
    KeptTrans(others, m0, m2, m3);
  }

  ghost function IndexOfLive(bs: seq<Blk>, b: Blk): (k: nat)
    requires b in Live(bs)
    ensures k < |bs| && bs[k] == b && !b.free
  {
    var k :| 0 <= k < |bs| && bs[k] == b; k
  }

  /** What is kept of a block includes its first bytes. */
  lemma PrefixHeld(b: Blk, live: set<Blk>, p: Addr, m: seq<int>, m': seq<int>, n: nat)
    requires b in live && Kept(live, m, m') && p == b.addr + START_OFFSET && n <= b.size && p + n <= |m|
    ensures SamePrefix(m, p, m', p, n)
  {
    forall x | p <= x < p + n
      ensures m'[x] == m[x]
    {
      assert InPayload(b, x);
    }
  }

  /** The memories agree except for the words of n bytes at the given addresses. */
  ghost predicate SameOutside(at: set<Addr>, n: nat, m: seq<int>, m': seq<int>) {
    |m| == |m'| && forall x | 0 <= x < |m| && (forall a | a in at :: !(a <= x < a + n)) :: m'[x] == m[x]
  }

  /** One free block and the sentinel satisfy the invariant. */
  lemma PristinePool(block: Addr, size: nat)
    requires block % ALIGN_SIZE == 0 && size % ALIGN_SIZE == 0 && size >= BLOCK_SIZE_MIN
    ensures var end := block + size + OVERHEAD;
            var bs := [Blk(block, size, true)];
            && Tiles(bs, block, end) && Coalesced(bs, NONE)
            && Tagged(bs, end, Tags(map[block := size][end := 0], map[block := true][end := false],
                                    map[block := false][end := true], map[][end := block]), NONE)
            && Indexed(bs, map[][block := ClassOf(size)], NONE)
  {
    hide MappingInsert;
    var end := block + size + OVERHEAD;
    var bs := [Blk(block, size, true)];
    var t := Tags(map[block := size][end := 0], map[block := true][end := false],
                  map[block := false][end := true], map[][end := block]);
    assert TileOk(bs, end, 0);
    assert TagOk(bs, end, t, 0);
    assert PrevOk(bs, end, t, 0) && PrevOk(bs, end, t, 1);
    assert IndexOk(bs, map[][block := ClassOf(size)], NONE, 0);
    assert bs[0].addr == block;
  }

  /** The size of the first block: what is left of bytes, in 64-bit arithmetic. */
  function PoolBytes(bytes: nat): (r: nat)
    requires bytes < SIZE_T_RANGE
  {
    var rest := (bytes + SIZE_T_RANGE - POOL_OVERHEAD) % SIZE_T_RANGE;
    rest - rest % ALIGN_SIZE
  }

  /** tlsf_create rejects all sizes but these, and one that the size classes cannot hold. */
  lemma PoolBytesIs(bytes: nat)
    requires bytes < SIZE_T_RANGE
    ensures BLOCK_SIZE_MIN <= PoolBytes(bytes) <= BLOCK_SIZE_MAX <==>
            POOL_OVERHEAD + BLOCK_SIZE_MIN <= bytes < POOL_OVERHEAD + BLOCK_SIZE_MAX + ALIGN_SIZE
    ensures bytes >= POOL_OVERHEAD ==> PoolBytes(bytes) <= bytes - POOL_OVERHEAD && PoolBytes(bytes) % ALIGN_SIZE == 0
  {
    if bytes >= POOL_OVERHEAD {
      assert (bytes + SIZE_T_RANGE - POOL_OVERHEAD) % SIZE_T_RANGE == bytes - POOL_OVERHEAD;
    } else {
      assert (bytes + SIZE_T_RANGE - POOL_OVERHEAD) % SIZE_T_RANGE == bytes + SIZE_T_RANGE - POOL_OVERHEAD;
    }
  }

  /** Cutting a block to nothing leaves no tiling, if the block can be cut. */
  lemma CutToNothing(bs: seq<Blk>, start: Addr, end: Addr, i: nat)
    requires Tiles(bs, start, end) && i < |bs|
    ensures Tiles(Use(bs, i, 0), start, end) <==> bs[i].size < HEADER_SIZE
  {
    var u := Use(bs, i, 0);
    if bs[i].size >= HEADER_SIZE {
      assert !TileOk(u, end, i);
    } else {
      MarkTiles(bs, start, end, i, false);
    }
  }

  lemma ZeroRequestIs(align: nat, size: nat)
    requires align > ALIGN_SIZE && (size == 0 || size >= BLOCK_SIZE_MAX)
    ensures AdjustRequest(size, ALIGN_SIZE) == 0
    ensures AlignedRequest(align, size) > 0 <==> align + HEADER_SIZE < BLOCK_SIZE_MAX
    ensures AlignedRequest(align, size) > 0 ==> AlignedRequest(align, size) >= align + HEADER_SIZE
  {
  }

  /** A request for nothing, or for too much, with more than the base alignment must not be made: when
      it finds a block, and it may, the call leaves a heap that does not tile. */
  lemma ZeroRequestBreaksTiling(bs: seq<Blk>, start: Addr, end: Addr, i: nat, align: nat, size: nat)
    requires Tiles(bs, start, end) && i < |bs| && PowerOfTwo(align) && align > ALIGN_SIZE
              && AlignedRequest(align, size) <= bs[i].size
    requires size == 0 || size >= BLOCK_SIZE_MAX
    ensures var gap := Gap(bs[i].addr + START_OFFSET, align); gap == 0 || gap >= HEADER_SIZE
    ensures AlignedRequest(align, size) > 0 ==> !Tiles(AlignedUse(bs, i, align, size), start, end)
    ensures AlignedRequest(align, size) > 0 <==> align + HEADER_SIZE < BLOCK_SIZE_MAX
  {
    hide PowerOfTwo, Gap, Tiles, Use, AdjustRequest, AlignedRequest;
    PayloadAligned(bs, start, end, i);
    ZeroRequestIs(align, size);
    var ptr: Addr := bs[i].addr + START_OFFSET;
    GapOk(ptr, align);
    var gap := Gap(ptr, align);
    var (cut, j) := TrimLeading(bs, i, gap);
    if cut != bs {
      SplitTiles(bs, start, end, i, gap - OVERHEAD);
    }
    CutToNothing(cut, start, end, j);
  }

  class Pool {
    const base: Addr
    const start: Addr
    const end: Addr
    var t: Tags
    const lists: FreeLists
    /** The blocks that the tags in memory represent. */
    ghost var bs: seq<Blk>
    /** The memory as the users of the blocks see it.  The size words are kept in t; list links and
        prev_phys words are kept there and in lists, but writing them also overwrites payload bytes. */
    ghost var bytes: seq<int>

    /** The heap invariant except that block skip, if free, is not listed. */
    ghost predicate Loose(skip: int)
      reads this, lists
    {
      && Shape()
      && Tagged(bs, end, t, NONE)
      && Indexed(bs, lists.where, skip)
    }

    ghost predicate Shape()
      reads this, lists
    {
      && lists.Valid() && lists.nil == base && base < start
      && Tiles(bs, start, end)
      && end - start - OVERHEAD < BLOCK_SIZE_MAX
      && |bytes| >= end + START_OFFSET
    }

    /** tlsf_check_heap, and what it takes for granted. */
    ghost predicate Valid()
      reads this, lists
    {
      Loose(NONE) && Coalesced(bs, NONE)
    }

    /** The part of tlsf_create after its checks: one free block and the sentinel. */
    constructor (base: Addr, poolBytes: nat, ghost memory: seq<int>)
      requires base % ALIGN_SIZE == 0 && poolBytes % ALIGN_SIZE == 0
      requires BLOCK_SIZE_MIN <= poolBytes < BLOCK_SIZE_MAX
      requires |memory| >= base + POOL_OVERHEAD + poolBytes
      ensures Valid() && fresh(lists) && this.base == base
      ensures bs == [Blk(base + POOL_SIZE - OVERHEAD, poolBytes, true)]
    {
      this.base := base;
      var block := base + POOL_SIZE - OVERHEAD;
      start, end := block, block + poolBytes + OVERHEAD;
      var l := new FreeLists(base);
      MappingRange(poolBytes);
      var (fl, sl) := MappingInsert(poolBytes);
      l.Insert(block, fl, sl);
      lists := l;
      t := Tags(map[block := poolBytes], map[block := true], map[block := false], map[]);
      bs := [Blk(block, poolBytes, true)];
      bytes := memory;
      new;
      var next := block + poolBytes + OVERHEAD;
      t := Tags(t.size[next := 0], t.free[next := false], t.prevFree[next := true], t.prevPhys[next := block]);
      PristinePool(block, poolBytes);
    }

    lemma SizeInRange(i: nat)
      requires Shape() && i < |bs|
      ensures bs[i].size < BLOCK_SIZE_MAX && bs[i].addr != base
      ensures var (fl, sl) := MappingInsert(bs[i].size); fl < FL_INDEX_COUNT && sl < SL_INDEX_COUNT
    {
      InOrder(bs, start, end, i, |bs|);
      MappingRange(bs[i].size);
    }

    /** The effect on payloads of writing the prev_phys word behind a free block. */
    ghost method OverwritePrevPhys(i: nat)
      requires Tiles(bs, start, end) && |bytes| >= end + START_OFFSET && i < |bs| && bs[i].free
      modifies this`bytes
      ensures Kept(Live(bs), old(bytes), bytes)
    {
      assert TileOk(bs, end, i);
      LinksInside(bs, end, i);
      var n := AddrAt(bs, end, i + 1);
      assert SameOutside({n}, OVERHEAD, bytes, bytes);
      var m :| SameOutside({n}, OVERHEAD, bytes, m);
      assert SameOutside({n}, OVERHEAD, bytes, m);
      forall x | 0 <= x < |m| && Held(Live(bs), x)
        ensures m[x] == bytes[x]
      {
        if InPayload(bs[i], x) {
          FreeNotHeld(bs, start, end, i, x);
        }
      }
      bytes := m;
    }

    /** The effect on payloads of writing the list links of the listed blocks. */
    ghost method OverwriteLinks(skip: int)
      requires Tiles(bs, start, end) && |bytes| >= end + START_OFFSET && Indexed(bs, lists.where, skip)
      modifies this`bytes
      ensures Kept(Live(bs), old(bytes), bytes)
    {
      var links := set a | a in lists.where :: a + START_OFFSET;
      assert SameOutside(links, START_OFFSET, bytes, bytes);
      var m :| SameOutside(links, START_OFFSET, bytes, m);
      assert SameOutside(links, START_OFFSET, bytes, m);
      forall x | 0 <= x < |m| && Held(Live(bs), x)
        ensures m[x] == bytes[x]
      {
        forall a | a in lists.where
          ensures !(a + START_OFFSET <= x < a + START_OFFSET + START_OFFSET)
        {
          var k :| 0 <= k < |bs| && bs[k].addr == a;
          assert IndexOk(bs, lists.where, skip, k) && TileOk(bs, end, k);
          LinksInside(bs, end, k);
          if InPayload(bs[k], x) {
            FreeNotHeld(bs, start, end, k, x);
          }
        }
      }
      bytes := m;
    }

    /** block_next */
    method BlockNext(b: Addr, ghost i: nat) returns (n: Addr)
      requires i < |bs| && bs[i].addr == b && Tiles(bs, start, end) && TagOk(bs, end, t, i)
      ensures n == AddrAt(bs, end, i + 1)
    {
      assert TileOk(bs, end, i);
      n := b + START_OFFSET + (t.size[b] - OVERHEAD);
    }

    /** block_insert */
    method BlockInsert(b: Addr, ghost i: nat)
      requires Loose(i) && i < |bs| && bs[i].addr == b && bs[i].free
      modifies lists, this`bytes
      ensures Loose(NONE) && Kept(Live(bs), old(bytes), bytes)
    {
      assert TagOk(bs, end, t, i);
      SizeInRange(i);
      IndexInsert(bs, start, end, lists.where, i);
      var (fl, sl) := MappingInsert(t.size[b]);
      lists.Insert(b, fl, sl);
      OverwriteLinks(NONE);
    }

    /** block_mark_as_free */
    method MarkAsFree(b: Addr, ghost i: nat)
      requires Loose(NONE) && i < |bs| && bs[i].addr == b && !bs[i].free
      modifies this
      ensures bs == Mark(old(bs), i, true) && Loose(i)
      ensures Live(bs) == Live(old(bs)) - {old(bs)[i]} && Kept(Live(bs), old(bytes), bytes)
    {
      assert TagOk(bs, end, t, i);
      LiveMark(bs, start, end, i, true);
      TagMark(bs, start, end, t, i, true, NONE);
      MarkTiles(bs, start, end, i, true);
      IndexMark(bs, lists.where, i, true);
      var n := BlockNext(b, i);
      t := t.(prevPhys := t.prevPhys[n := b], prevFree := t.prevFree[n := true], free := t.free[b := true]);
      bs := Mark(bs, i, true);
      OverwritePrevPhys(i);
    }

    /** block_mark_as_used */
    method MarkAsUsed(b: Addr, ghost i: nat)
      requires Loose(i) && i < |bs| && bs[i].addr == b && bs[i].free
      modifies this`t, this`bs
      ensures bs == Mark(old(bs), i, false) && Loose(NONE)
    {
      assert TagOk(bs, end, t, i);
      TagMark(bs, start, end, t, i, false, NONE);
      MarkTiles(bs, start, end, i, false);
      IndexMark(bs, lists.where, i, false);
      var n := BlockNext(b, i);
      t := t.(prevFree := t.prevFree[n := false], free := t.free[b := false]);
      bs := Mark(bs, i, false);
    }

    /** block_absorb */
    method BlockAbsorb(prev: Addr, b: Addr, ghost i: nat)
      requires i + 1 < |bs| && prev == bs[i].addr && b == bs[i + 1].addr && Tiles(bs, start, end)
      requires TagOk(bs, end, t, i) && TagOk(bs, end, t, i + 1)
      modifies this`t
      ensures t == AbsorbTags(bs, end, old(t), i)
    {
      var n := BlockNext(b, i + 1);
      t := t.(size := t.size[prev := t.size[prev] + (t.size[b] + OVERHEAD)], prevPhys := t.prevPhys[n := prev]);
    }

    /** block_remove of one and block_absorb of both of two free neighbours; left is the index of
        the one that is not listed. */
    method RemoveAndAbsorb(listed: Addr, prev: Addr, b: Addr, ghost i: nat, ghost left: nat)
      requires (left == i || left == i + 1) && Loose(left) && i + 1 < |bs| && bs[i].free && bs[i + 1].free
      requires prev == bs[i].addr && b == bs[i + 1].addr && listed == if left == i then b else prev
      modifies this, lists
      ensures bs == Absorb(old(bs), i) && Loose(i) && i < |bs| && bs[i].free && bs[i].addr == prev
      ensures Live(bs) == Live(old(bs)) && Kept(Live(bs), old(bytes), bytes)
    {
      hide Tagged, Indexed, Tiles, Live, Held, AbsorbTags;
      TagsAt(i);
      TagsAt(i + 1);
      SizeInRange(if left == i then i + 1 else i);
      IndexAbsorb(bs, start, end, lists.where, i, left);
      TagAbsorb(bs, start, end, t, i);
      AbsorbTiles(bs, start, end, i);
      LiveAbsorb(bs, start, end, i);
      var (fl, sl) := MappingInsert(t.size[listed]);
      OverwriteLinks(left);
      lists.Remove(listed, fl, sl);
      BlockAbsorb(prev, b, i);
      bs := Absorb(bs, i);
      OverwritePrevPhys(i);
    }

    /** block_merge_prev */
    method MergePrev(b: Addr, ghost i: nat) returns (b': Addr, ghost i': nat)
      requires Loose(i) && i < |bs| && bs[i].addr == b && bs[i].free
      modifies this, lists
      ensures (bs, i') == MergePrevSpec(old(bs), i) && b' == bs[i'].addr
      ensures Loose(i') && bs[i'].free
      ensures Live(bs) == Live(old(bs)) && Kept(Live(bs), old(bytes), bytes)
    {
      b', i' := b, i;
      assert PrevOk(bs, end, t, i) && (i > 0 ==> TagOk(bs, end, t, i - 1));
      if t.prevFree[b] {
        hide Loose, Live, Kept;
        b', i' := t.prevPhys[b], i - 1;
        RemoveAndAbsorb(b', b', b, i - 1, i);
      }
    }

    /** block_merge_next for a free block. */
    method MergeNext(b: Addr, ghost i: nat)
      requires Loose(i) && i < |bs| && bs[i].addr == b && bs[i].free
      modifies this, lists
      ensures bs == MergeNextSpec(old(bs), i) && bs[i].addr == b
      ensures Loose(i) && bs[i].free
      ensures Live(bs) == Live(old(bs)) && Kept(Live(bs), old(bytes), bytes)
    {
      assert TagOk(bs, end, t, i);
      var next := BlockNext(b, i);
      assert i + 1 < |bs| ==> TagOk(bs, end, t, i + 1);
      if t.free[next] {
        hide Loose, Live, Kept;
        RemoveAndAbsorb(next, b, next, i, i);
      }
    }

    /** tlsf_free for a block in use. */
    method Free(ptr: Addr, ghost i: nat)
      requires Valid() && i < |bs| && !bs[i].free && ptr == bs[i].addr + START_OFFSET
      modifies this, lists
      ensures Valid() && bs == Release(old(bs), i)
      ensures Live(bs) == Live(old(bs)) - {old(bs)[i]} && Kept(Live(bs), old(bytes), bytes)
    {
      var block := ptr - START_OFFSET;
      ReleaseCoalesced(bs, i);
      MarkAsFree(block, i);
      ghost var j;
      block, j := MergePrev(block, i);
      MergeNext(block, j);
      BlockInsert(block, j);
    }

    /** block_locate_free: a free block of at least size bytes, taken off its list; base stands for none. */
    method LocateFree(size: nat) returns (b: Addr, ghost i: nat)
      requires Valid() && size % ALIGN_SIZE == 0 && Rounded(size) < BLOCK_SIZE_MAX
      modifies lists, this`bytes
      ensures Kept(Live(bs), old(bytes), bytes)
      ensures b == base ==> Loose(NONE)
      ensures b == base && size > 0 ==> forall k | 0 <= k < |bs| && bs[k].free :: bs[k].size < Rounded(size)
      ensures b != base ==> size > 0 && i < |bs| && bs[i].addr == b && bs[i].free && size <= bs[i].size && Loose(i)
      ensures b != base ==> BestClass(bs, i, size)
    {
      b, i := base, 0;
      if size > 0 {
        MappingRange(Rounded(size));
        var (fl0, sl0) := MappingSearch(size);
        var fl, sl;
        b, fl, sl := lists.SearchSuitable(fl0, sl0);
        if b != base {
          i :| 0 <= i < |bs| && bs[i].addr == b;
          assert IndexOk(bs, lists.where, NONE, i);
          GoodFit(size, bs[i].size);
          forall k | 0 <= k < |bs| && bs[k].free
            ensures ClassOf(Rounded(size)) <= ClassOf(bs[k].size) ==> ClassOf(bs[i].size) <= ClassOf(bs[k].size)
          {
            assert IndexOk(bs, lists.where, NONE, k);
          }
          IndexRemove(bs, start, end, lists.where, i);
          OverwriteLinks(NONE);
          lists.Remove(b, fl, sl);
        } else {
          forall k | 0 <= k < |bs| && bs[k].free
            ensures bs[k].size < Rounded(size)
          {
            assert IndexOk(bs, lists.where, NONE, k);
            GoodFit(size, bs[k].size);
          }
        }
      }
    }

    /** block_trim_free */
    method TrimFree(b: Addr, size: nat, ghost i: nat)
      requires Loose(i) && i < |bs| && bs[i].addr == b && bs[i].free
      requires BLOCK_SIZE_MIN <= size && size % ALIGN_SIZE == 0
      modifies this, lists
      ensures bs == if old(bs[i].size) >= HEADER_SIZE + size then Split(old(bs), i, size) else old(bs)
      ensures Loose(i)
      ensures Live(bs) == Live(old(bs)) && Kept(Live(bs), old(bytes), bytes)
    {
      assert TagOk(bs, end, t, i);
      if t.size[b] >= HEADER_SIZE + size {
        var r := SplitBlock(b, size, i, true);
        BlockInsertAt(r, i + 1, i);
      }
    }

    /** block_split together with what the callers write to the new header. */
    method SplitHeader(b: Addr, size: nat, ghost i: nat, link: bool) returns (r: Addr)
      requires Tiles(bs, start, end) && i < |bs| && bs[i].addr == b && TagOk(bs, end, t, i)
      requires BLOCK_SIZE_MIN <= size && bs[i].size >= HEADER_SIZE + size && link == bs[i].free
      modifies this`t
      ensures t == SplitTags(bs, end, old(t), i, size, link) && r == Split(bs, i, size)[i + 1].addr
    {
      var n := BlockNext(b, i);
      r := b + START_OFFSET + (size - OVERHEAD);
      var remain := t.size[b] - (size + OVERHEAD);
      t := t.(size := t.size[r := remain][b := size], free := t.free[r := true],
              prevFree := t.prevFree[n := true][r := link],
              prevPhys := if link then t.prevPhys[n := r][r := b] else t.prevPhys[n := r]);
    }

    /** Cuts block i; the index of free blocks is left to the caller. */
    method SplitBlock(b: Addr, size: nat, ghost i: nat, link: bool) returns (r: Addr)
      requires Shape() && Tagged(bs, end, t, NONE) && i < |bs| && bs[i].addr == b
      requires Indexed(bs, lists.where, if bs[i].free then i else NONE)
      requires BLOCK_SIZE_MIN <= size && size % ALIGN_SIZE == 0 && bs[i].size >= HEADER_SIZE + size
      requires link == bs[i].free
      modifies this
      ensures bs == Split(old(bs), i, size) && r == bs[i + 1].addr
      ensures Shape() && Tagged(bs, end, t, NONE)
      ensures bs[i].addr !in lists.where && bs[i + 1].addr !in lists.where
      ensures Indexed(bs, lists.where[r := ClassOf(bs[i + 1].size)], if old(bs[i].free) then i else NONE)
      ensures old(bs[i].free) ==> Indexed(bs, lists.where[b := ClassOf(bs[i].size)], i + 1)
      ensures !old(bs[i].free) ==> Indexed(bs, lists.where, i + 1)
      ensures Kept(Live(bs), old(bytes), bytes)
      ensures Live(bs) == if bs[i].free then Live(old(bs)) else Live(old(bs)) - {old(bs)[i]} + {bs[i]}
    {
      assert TagOk(bs, end, t, i);
      LiveSplit(bs, start, end, i, size);
      TagSplit(bs, start, end, t, i, size, link);
      SplitTiles(bs, start, end, i, size);
      IndexSplit(bs, lists.where, i, size, start, end);
      hide Tagged, Indexed, Tiles, Live, Held, SplitTags;
      r := SplitHeader(b, size, i, link);
      bs := Split(bs, i, size);
      OverwritePrevPhys(i + 1);
      if link {
        OverwritePrevPhys(i);
      }
    }

    /** block_insert of block j while block skip stays unlisted. */
    method BlockInsertAt(b: Addr, ghost j: nat, ghost skip: int)
      requires Shape() && Tagged(bs, end, t, NONE) && j < |bs| && bs[j].addr == b && b !in lists.where
      requires Indexed(bs, lists.where[b := ClassOf(bs[j].size)], skip)
      modifies lists, this`bytes
      ensures Loose(skip) && Kept(Live(bs), old(bytes), bytes)
    {
      hide Tagged, Indexed, Tiles, Live, Held;
      TagsAt(j);
      SizeInRange(j);
      var (fl, sl) := MappingInsert(t.size[b]);
      lists.Insert(b, fl, sl);
      OverwriteLinks(skip);
    }

    /** block_prepare_used */
    method PrepareUsed(b: Addr, size: nat, ghost i: nat) returns (p: Addr)
      requires Loose(i) && i < |bs| && bs[i].addr == b && bs[i].free
      requires Coalesced(bs, i) && (i + 1 < |bs| ==> !bs[i + 1].free)
      requires BLOCK_SIZE_MIN <= size && size % ALIGN_SIZE == 0
      modifies this, lists
      ensures Valid() && bs == Use(old(bs), i, size) && p == b + START_OFFSET
      ensures Kept(Live(old(bs)), old(bytes), bytes)
    {
      UseCoalesced(bs, i, size);
      TrimFree(b, size, i);
      MarkAsUsed(b, i);
      p := b + START_OFFSET;
    }

    /** tlsf_malloc */
    method Malloc(size: nat) returns (p: Addr, ghost i: nat)
      requires Valid() && Rounded(AdjustRequest(size, ALIGN_SIZE)) < BLOCK_SIZE_MAX
      modifies this, lists
      ensures Valid() && Kept(Live(old(bs)), old(bytes), bytes)
      ensures p == 0 ==> bs == old(bs)
      ensures p == 0 && 0 < size < BLOCK_SIZE_MAX ==> NoRoom(bs, AdjustRequest(size, ALIGN_SIZE))
      ensures p != 0 ==> i < |bs| && Chosen(old(bs), i, 0, size, bs[i])
      ensures p != 0 ==> BestClass(old(bs), i, AdjustRequest(size, ALIGN_SIZE))
      ensures p != 0 ==> size <= AdjustRequest(size, ALIGN_SIZE) <= old(bs)[i].size
      ensures p != 0 ==> bs == Use(old(bs), i, AdjustRequest(size, ALIGN_SIZE)) && p == old(bs)[i].addr + START_OFFSET
      ensures p != 0 ==> i < |bs| && Taken(old(bs), bs, p, size, i)
    {
      var adjust := AdjustRequest(size, ALIGN_SIZE);
      var b;
      b, i := LocateFree(adjust);
      if b == base {
        p := 0;
      } else {
        AdjustIsLeast(size, adjust);
        UseFirst(bs, i, adjust);
        SplitCoalesced(bs, i, 0);
        LiveUse(bs, start, end, i, adjust);
        p := PrepareUsed(b, adjust, i);
      }
    }

    /** block_trim_free_leading */
    method TrimFreeLeading(b: Addr, size: nat, ghost i: nat) returns (r: Addr, ghost i': nat)
      requires Loose(i) && i < |bs| && bs[i].addr == b && bs[i].free
      requires HEADER_SIZE <= size && size % ALIGN_SIZE == 0
      modifies this, lists
      ensures if old(bs[i].size) >= HEADER_SIZE + size then bs == Split(old(bs), i, size - OVERHEAD) && i' == i + 1
              else bs == old(bs) && i' == i
      ensures Loose(i') && r == bs[i'].addr
      ensures Live(bs) == Live(old(bs)) && Kept(Live(bs), old(bytes), bytes)
    {
      assert TagOk(bs, end, t, i);
      r, i' := b, i;
      if t.size[b] >= HEADER_SIZE + size {
        r := SplitBlock(b, size - OVERHEAD, i, true);
        i' := i + 1;
        BlockInsertAt(b, i, i + 1);
      }
    }

    /** tlsf_memalign.  gap is the part of the chosen block that becomes a free block of its own. */
    method Memalign(align: nat, size: nat) returns (p: Addr, ghost i: nat, gap: nat)
      requires Valid() && PowerOfTwo(align)
      requires align > ALIGN_SIZE ==> 0 < size < BLOCK_SIZE_MAX
      requires Rounded(AlignedRequest(align, size)) < BLOCK_SIZE_MAX
      modifies this, lists
      ensures Valid() && Kept(Live(old(bs)), old(bytes), bytes)
      ensures p == 0 ==> bs == old(bs)
      ensures p == 0 && AlignedRequest(align, size) > 0 ==> NoRoom(bs, AlignedRequest(align, size))
      ensures p != 0 ==> i < |old(bs)| && old(bs)[i].free && IsAligned(p, align)
      ensures p != 0 ==> BestClass(old(bs), i, AlignedRequest(align, size))
      ensures p != 0 ==> Placed(old(bs), bs, i, gap, p, size)
      ensures p != 0 ==> gap == Gap(old(bs)[i].addr + START_OFFSET, align) && bs == AlignedUse(old(bs), i, align, size)
    {
      hide Loose, Valid, Coalesced, Live, Kept, AdjustRequest, AlignedRequest, Gap, PowerOfTwo, IsAligned, Placed,
          AlignedUse, Rounded, BestClass, ClassOf;
      PowerOfTwoCases(align);
      NoFreeNeighbours();
      ghost var m0 := bytes;
      AlignedRequestIsAligned(align, size);
      var b;
      b, i := LocateFree(AlignedRequest(align, size));
      p, gap := 0, 0;
      if b != base {
        ghost var m1 := bytes;
        p, gap := UseAligned(b, align, size, i);
        KeptTrans(Live(old(bs)), m0, m1, bytes);
      } else {
        NothingLoose();
      }
    }

    /** The part of tlsf_memalign that cuts the block that was found. */
    method UseAligned(b: Addr, align: nat, size: nat, ghost i: nat) returns (p: Addr, gap: nat)
      requires Loose(i) && Coalesced(bs, NONE) && PowerOfTwo(align) && align > 0
      requires i < |bs| && bs[i].addr == b && bs[i].free && 0 < AlignedRequest(align, size) <= bs[i].size
      requires align > ALIGN_SIZE ==> 0 < size < BLOCK_SIZE_MAX
      modifies this, lists
      ensures Valid() && Kept(Live(old(bs)), old(bytes), bytes)
      ensures p != 0 && IsAligned(p, align) && i < |old(bs)| && Placed(old(bs), bs, i, gap, p, size)
      ensures gap == Gap(old(bs)[i].addr + START_OFFSET, align) && bs == AlignedUse(old(bs), i, align, size)
    {
      hide Loose, Valid, Coalesced, Live, Kept, Tiles, AdjustRequest, AlignedRequest, Gap, PowerOfTwo, IsAligned, CutAt,
          CutIndex, Use, Placed, AlignedUse;
      LooseTiles(i);
      ghost var m0 := bytes;
      var adjust := AdjustRequest(size, ALIGN_SIZE);
      gap := Gap(b + START_OFFSET, align);
      GapPlaced(bs, start, end, i, align, size);
      var found, j := CutGap(b, gap, i);
      ghost var m1 := bytes;
      p := PrepareUsed(found, adjust, j);
      KeptTrans(Live(old(bs)), m0, m1, bytes);
    }

    lemma NothingLoose()
      requires Loose(NONE) && Coalesced(bs, NONE)
      ensures Valid()
    {
    }

    lemma NoFreeNeighbours()
      requires Valid()
      ensures Coalesced(bs, NONE)
    {
    }

    lemma LooseTiles(skip: int)
      requires Loose(skip)
      ensures Tiles(bs, start, end)
    {
    }

    /** tlsf_memalign's use of block_trim_free_leading */
    method CutGap(b: Addr, gap: nat, ghost i: nat) returns (r: Addr, ghost j: nat)
      requires Loose(i) && i < |bs| && bs[i].addr == b && bs[i].free
      requires gap > 0 ==> HEADER_SIZE <= gap && gap % ALIGN_SIZE == 0 && bs[i].size >= HEADER_SIZE + gap
      modifies this, lists
      ensures bs == CutAt(old(bs), i, gap) && j == CutIndex(i, gap) && Loose(j) && j < |bs| && r == bs[j].addr
      ensures Live(bs) == Live(old(bs)) && Kept(Live(bs), old(bytes), bytes)
    {
      hide Loose;
      r, j := b, i;
      if gap > 0 {
        r, j := TrimFreeLeading(b, gap, i);
      }
    }

    /** block_merge_next and block_mark_as_used for a block in use whose successor is free. */
    method GrowUsed(b: Addr, ghost i: nat)
      requires Valid() && i + 1 < |bs| && bs[i].addr == b && !bs[i].free && bs[i + 1].free
      modifies this, lists
      ensures bs == Absorb(old(bs), i) && Valid()
      ensures Kept(Live(old(bs)), old(bytes), bytes)
      ensures Live(bs) == Live(old(bs)) - {old(bs)[i]} + {bs[i]} && bs[i] !in Live(old(bs))
    {
      hide Tagged, Indexed, Tiles, Live, Held, Coalesced, AbsorbTags;
      TagsAt(i);
      TagsAt(i + 1);
      SizeInRange(i + 1);
      IndexAbsorb(bs, start, end, lists.where, i, i);
      TagGrow(bs, start, end, t, i);
      AbsorbTiles(bs, start, end, i);
      LiveAbsorb(bs, start, end, i);
      GrowCoalesced(bs, i);
      var next := BlockNext(b, i);
      var (fl, sl) := MappingInsert(t.size[next]);
      OverwriteLinks(NONE);
      lists.Remove(next, fl, sl);
      OverwritePrevPhys(i + 1);
      var n := BlockNext(next, i + 1);
      BlockAbsorb(b, next, i);
      t := t.(prevFree := t.prevFree[n := false], free := t.free[b := false]);
      bs := Absorb(bs, i);
    }

    lemma TagsAt(i: nat)
      requires Tagged(bs, end, t, NONE) && i < |bs|
      ensures TagOk(bs, end, t, i)
    {
    }

    /** block_trim_used */
    method TrimUsed(b: Addr, size: nat, ghost i: nat)
      requires Valid() && i < |bs| && bs[i].addr == b && !bs[i].free
      requires BLOCK_SIZE_MIN <= size && size % ALIGN_SIZE == 0
      modifies this, lists
      ensures bs == TrimUsedSpec(old(bs), i, size) && Valid()
      ensures bs[i].addr == b && !bs[i].free && (size <= old(bs)[i].size ==> size <= bs[i].size <= old(bs)[i].size)
      ensures Kept(Live(bs), old(bytes), bytes) && Live(bs) == Live(old(bs)) - {old(bs)[i]} + {bs[i]}
    {
      assert TagOk(bs, end, t, i);
      TrimUsedCoalesced(bs, i, size);
      if t.size[b] >= HEADER_SIZE + size {
        var r := SplitBlock(b, size, i, false);
        MergeNext(r, i + 1);
        BlockInsert(r, i + 1);
      }
    }

    lemma LiveInside(i: nat)
      requires Valid() && i < |bs| && !bs[i].free
      ensures bs[i] in Live(bs) && bs[i].addr + START_OFFSET + bs[i].size <= |bytes|
    {
      InOrder(bs, start, end, i, |bs|);
    }

    /** The part of tlsf_realloc that moves the block. */
    method MoveBlock(ptr: Addr, size: nat, curSize: nat, ghost i: nat) returns (p: Addr, ghost j: nat)
      requires Valid() && i < |bs| && !bs[i].free && ptr == bs[i].addr + START_OFFSET && curSize == bs[i].size
      requires Rounded(AdjustRequest(size, ALIGN_SIZE)) < BLOCK_SIZE_MAX
      modifies this, lists
      ensures Valid()
      ensures p == 0 ==> bs == old(bs) && Kept(Live(bs), old(bytes), bytes)
      ensures p == 0 && 0 < size < BLOCK_SIZE_MAX ==> NoRoom(bs, AdjustRequest(size, ALIGN_SIZE))
      ensures p != 0 ==> j < |bs| && Found(old(bs), size, bs[j])
      ensures p != 0 ==> j < |bs| && Moved(old(bs)[i], Live(old(bs)), old(bytes), bs[j], Live(bs), bytes, p, size)
    {
      hide Valid, Live, Kept, Held, AdjustRequest, Rounded, Use, Moved, Chosen, BestClass, NoRoom;
      LiveInside(i);
      ghost var was, live, m0 := bs[i], Live(bs), bytes;
      p, j := Malloc(size);
      if p != 0 {
        ghost var m1, taken := bytes, bs[j];
        var n := Min(curSize, size);
        CopyPayload(p, ptr, n, j);
        ghost var m2 := bytes;
        Free(ptr, IndexOfLive(bs, was));
        MovedChain(was, live, taken, m0, m1, m2, bytes, p, size);
        j := IndexOfLive(bs, taken);
        assert Live(bs) == live - {was} + {taken};
      }
    }

    /** memcpy of the first bytes of another payload into block j. */
    method CopyPayload(p: Addr, ptr: Addr, n: nat, ghost j: nat)
      requires Valid() && j < |bs| && !bs[j].free && p == bs[j].addr + START_OFFSET && n <= bs[j].size
      requires ptr + n <= |bytes|
      modifies this`bytes
      ensures Valid() && Kept(Live(bs) - {bs[j]}, old(bytes), bytes)
      ensures SamePrefix(old(bytes), ptr, bytes, p, n)
    {
      CopyKeeps(bs, start, end, j, bytes, ptr, n);
      bytes := Copied(bytes, p, ptr, n);
    }

    /** The part of tlsf_realloc that resizes in place. */
    method ResizeBlock(b: Addr, adjust: nat, curSize: nat, ghost i: nat)
      requires Valid() && i < |bs| && !bs[i].free && b == bs[i].addr && curSize == bs[i].size
      requires Fits(bs, i, adjust) && BLOCK_SIZE_MIN <= adjust && adjust % ALIGN_SIZE == 0
      modifies this, lists
      ensures Valid() && bs == Resize(old(bs), i, adjust)
      ensures Moved(old(bs)[i], Live(old(bs)), old(bytes), bs[i], Live(bs), bytes, b + START_OFFSET, adjust)
    {
      hide Valid, Live, Kept, Held, TrimUsedSpec;
      LiveInside(i);
      ghost var was, live, m0 := bs[i], Live(bs), bytes;
      if adjust > curSize {
        GrowUsed(b, i);
      } else {
        KeptSelf(live, bytes);
      }
      ghost var m1 := bytes;
      TrimUsed(b, adjust, i);
      var n := Min(curSize, adjust);
      PrefixHeld(was, live, b + START_OFFSET, m0, m1, n);
      PrefixHeld(bs[i], Live(bs), b + START_OFFSET, m1, bytes, n);
      ghost var others := live - {was};
      KeptFewer(live, others, m0, m1);
      KeptFewer(Live(bs), others, m1, bytes);
      KeptTrans(others, m0, m1, bytes);
    }

    /** tlsf_realloc.  The block at ptr is the i-th; the result is the j-th afterwards. */
    method Realloc(ptr: Addr, size: nat, ghost i: nat) returns (p: Addr, ghost j: nat)
      requires Valid()
      requires ptr != 0 ==> i < |bs| && !bs[i].free && ptr == bs[i].addr + START_OFFSET && size < BLOCK_SIZE_MAX
      requires ptr == 0 || !Fits(bs, i, AdjustRequest(size, ALIGN_SIZE)) ==>
                Rounded(AdjustRequest(size, ALIGN_SIZE)) < BLOCK_SIZE_MAX
      modifies this, lists
      ensures Valid()
      ensures ptr == 0 ==> Kept(Live(old(bs)), old(bytes), bytes)
      ensures ptr == 0 && p == 0 ==> bs == old(bs)
      ensures ptr == 0 && p != 0 ==> j < |bs| && Taken(old(bs), bs, p, size, j) && Found(old(bs), size, bs[j])
      ensures p == 0 && 0 < size < BLOCK_SIZE_MAX ==> NoRoom(bs, AdjustRequest(size, ALIGN_SIZE))
      ensures ptr != 0 && size == 0 ==> p == 0 && bs == Release(old(bs), i)
      ensures ptr != 0 && size == 0 ==> Live(bs) == Live(old(bs)) - {old(bs)[i]} && Kept(Live(bs), old(bytes), bytes)
      ensures ptr != 0 && size > 0 && Fits(old(bs), i, AdjustRequest(size, ALIGN_SIZE)) ==>
                p == ptr && j == i && bs == Resize(old(bs), i, AdjustRequest(size, ALIGN_SIZE))
      ensures ptr != 0 && size > 0 && Fits(old(bs), i, AdjustRequest(size, ALIGN_SIZE)) ==>
                j < |bs| && InPlace(old(bs), i, size, bs[j])
      ensures ptr != 0 && size > 0 && !Fits(old(bs), i, AdjustRequest(size, ALIGN_SIZE)) && p != 0 ==>
                j < |bs| && Found(old(bs), size, bs[j])
      ensures ptr != 0 && size > 0 && p == 0 ==> bs == old(bs) && Kept(Live(bs), old(bytes), bytes)
      ensures ptr != 0 && size > 0 && p != 0 ==>
                j < |bs| && Moved(old(bs)[i], Live(old(bs)), old(bytes), bs[j], Live(bs), bytes, p, size)
    {
      hide BestClass, Chosen, NoRoom;
      p, j := 0, i;
      if ptr != 0 && size == 0 {
        Free(ptr, i);
      } else if ptr == 0 {
        p, j := Malloc(size);
      } else {
        var block := ptr - START_OFFSET;
        var next, curSize := NextAndSize(block, i);
        var combined := curSize + t.size[next] + OVERHEAD;
        var adjust := AdjustRequest(size, ALIGN_SIZE);
        if adjust > curSize && (!t.free[next] || adjust > combined) {
          p, j := MoveBlock(ptr, size, curSize, i);
        } else {
          ghost var was, live, m := bs[i], Live(bs), bytes;
          AdjustIsLeast(size, adjust);
          ResizeIs(bs, i, size);
          ResizeBlock(block, adjust, curSize, i);
          MovedLess(was, live, m, bs[i], Live(bs), bytes, ptr, adjust, size);
          p := ptr;
        }
      }
    }

    /** The first reads of tlsf_realloc. */
    method NextAndSize(b: Addr, ghost i: nat) returns (next: Addr, curSize: nat)
      requires Valid() && i < |bs| && bs[i].addr == b
      ensures next in t.size && next in t.free && curSize == bs[i].size
      ensures t.free[next] == (i + 1 < |bs| && bs[i + 1].free)
      ensures i + 1 < |bs| ==> t.size[next] == bs[i + 1].size
    {
      assert TagOk(bs, end, t, i) && (i + 1 < |bs| ==> TagOk(bs, end, t, i + 1));
      next := BlockNext(b, i);
      curSize := t.size[b];
    }
  }

  /** tlsf_create: the memory at mem, bytes long.  A pool whose first block would be as large as
      BLOCK_SIZE_MAX passes the checks although no size class holds it. */
  method Create(mem: Addr, bytes: nat, ghost memory: seq<int>) returns (pool: Pool?)
    requires mem % ALIGN_SIZE == 0 && bytes < SIZE_T_RANGE && |memory| == mem + bytes
    requires PoolBytes(bytes) != BLOCK_SIZE_MAX
    ensures pool != null <==> POOL_OVERHEAD + BLOCK_SIZE_MIN <= bytes < POOL_OVERHEAD + BLOCK_SIZE_MAX
    ensures pool != null ==> fresh(pool) && fresh(pool.lists) && pool.Valid() && pool.base == mem
    ensures pool != null ==> pool.bs == [Blk(mem + POOL_SIZE - OVERHEAD, PoolBytes(bytes), true)]
  {
    var poolBytes := PoolBytes(bytes);
    PoolBytesIs(bytes);
    if poolBytes < BLOCK_SIZE_MIN || poolBytes > BLOCK_SIZE_MAX {
      pool := null;
    } else {
      pool := new Pool(mem, poolBytes, memory);
    }
  }
}
