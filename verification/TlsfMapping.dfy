/** The size classes of the TLSF allocator: tlsf/tlsf.c mapping_insert and mapping_search, for the
    64-bit build. */
module TlsfMapping {
  import opened Arith

  const ALIGN_SIZE := 8
  const SL_INDEX_COUNT_LOG2: nat := 5
  const SL_INDEX_COUNT := 32
  const FL_INDEX_MAX: nat := 32
  const FL_INDEX_SHIFT := 8
  const FL_INDEX_COUNT := 25
  const SMALL_BLOCK_SIZE := 256
  const BLOCK_SIZE_MAX := 0x1_0000_0000
  const CLASS_COUNT := 800

  /** tlsf_fls_sizet: the position of the highest one bit. */
  function Fls(n: nat): (f: nat)
    requires n > 0
    ensures Pow2(f) <= n < 2 * Pow2(f)
  {
    if n == 1 then 0 else Fls(n / 2) + 1
  }

  lemma FlsIs(n: nat, f: nat)
    requires n > 0 && Pow2(f) <= n < 2 * Pow2(f)
    ensures Fls(n) == f
  {
    if Fls(n) < f {
      Pow2Monotone(Fls(n), f);
    } else if f < Fls(n) {
      Pow2Monotone(f, Fls(n));
    }
  }

  /** mapping_insert: first and second level index; the exclusive or clears the leading bit. */
  function MappingInsert(size: nat): (r: (nat, nat)) {
    if size < SMALL_BLOCK_SIZE then (0, size / (SMALL_BLOCK_SIZE / SL_INDEX_COUNT))
    else
      var fl := Fls(size);
      FlsAtLeast(size, 8);
      (fl - (FL_INDEX_SHIFT - 1), ClearBit5(Quotient(size, Pow2(fl - SL_INDEX_COUNT_LOG2))))
  }

  /** A shift to the right by the logarithm of w. */
  function Quotient(n: nat, w: nat): (r: nat)
    requires w > 0
  {
    n / w
  }

  lemma FlsAtLeast(size: nat, k: nat)
    requires size >= Pow2(k)
    ensures size > 0 && Fls(size) >= k
  {
    if Fls(size) < k {
      Pow2Monotone(Fls(size), k);
    }
  }

  /** Exclusive or with 1 << SL_INDEX_COUNT_LOG2, on numbers that have that bit as their highest. */
  function ClearBit5(q: nat): (r: nat) {
    if q / 32 % 2 == 1 then q - 32 else q + 32
  }

  /** mapping_search: rounds the size up to the next class first. */
  function Rounded(size: nat): (r: nat) {
    if size >= 32 then
      FlsAtLeast(size, 5);
      size + Pow2(Fls(size) - SL_INDEX_COUNT_LOG2) - 1
    else size
  }

  /** Rounding up adds less than one part in 32. */
  lemma RoundedBound(size: nat)
    requires size > 0
    ensures size <= Rounded(size) && 32 * (Rounded(size) - size) < size
  {
    if size >= 32 {
      assert Pow2(5) == 32;
      FlsAtLeast(size, 5);
      Pow2Times32(Fls(size) - 5);
    }
  }

  function MappingSearch(size: nat): (r: (nat, nat)) {
    MappingInsert(Rounded(size))
  }

  /** The smallest size in a class, and how many sizes it spans. */
  function Low(fl: nat, sl: nat): (r: nat) {
    if fl == 0 then 8 * sl else (32 + sl) * Pow2(fl + 2)
  }

  function Span(fl: nat): (r: nat) {
    if fl == 0 then 8 else Pow2(fl + 2)
  }

  /** How mapping_insert takes a large size apart. */
  lemma LargeParts(size: nat) returns (f: nat, w: nat, q: nat)
    requires size >= SMALL_BLOCK_SIZE
    ensures f == Fls(size) && f >= 8 && w == Pow2(f - 5) && q == Quotient(size, w)
    ensures SL_INDEX_COUNT <= q < 2 * SL_INDEX_COUNT && q * w <= size < q * w + w
    ensures MappingInsert(size) == (f - 7, q - SL_INDEX_COUNT)
  {
    assert Pow2(8) == 256;
    FlsAtLeast(size, 8);
    f := Fls(size);
    w := Pow2(f - 5);
    Pow2Times32(f - 5);
    hide Pow2, Fls;
    q := Quotient(size, w);
    assert 32 * w <= size < 64 * w;
    hide Quotient;
    QuotientRange(size, w);
  }

  lemma QuotientRange(size: nat, w: nat)
    requires w > 0 && 32 * w <= size < 64 * w
    ensures var q := Quotient(size, w);
      32 <= q < 64 && q * w <= size < q * w + w && ClearBit5(q) == q - 32
  {
    var q, r := size / w, size % w;
    assert size == q * w + r;
    Bounds(q, w, r);
    hide Quotient;
    assert q / 32 == 1;
  }

  lemma Bounds(q: nat, w: nat, r: nat)
    requires w > 0 && 32 * w <= q * w + r < 64 * w && r < w
    ensures 32 <= q < 64
  {
    if q < 32 {
      MulLe(q + 1, 32, w, w);
    } else if q >= 64 {
      MulLe(64, q, w, w);
    }
  }

  lemma LowOf(f: nat, q: nat)
    requires f >= 8 && q >= 32
    ensures Low(f - 7, q - 32) == q * Pow2(f - 5) && Span(f - 7) == Pow2(f - 5)
  {
    assert f - 7 + 2 == f - 5;
  }

  /** A size is in the range of its class, and the indices are in range below 2^32. */
  lemma MappingRange(size: nat)
    ensures var (fl, sl) := MappingInsert(size); sl < SL_INDEX_COUNT && Low(fl, sl) <= size < Low(fl, sl) + Span(fl)
    ensures size < BLOCK_SIZE_MAX ==> MappingInsert(size).0 < FL_INDEX_COUNT
  {
    if size >= SMALL_BLOCK_SIZE {
      var f, w, q := LargeParts(size);
      LowOf(f, q);
      FlsBelow(size, f);
      hide *;
    }
  }

  /** The first-level index is in range exactly for the sizes below 2^32. */
  lemma IndexInRange(size: nat)
    ensures MappingInsert(size).0 < FL_INDEX_COUNT <==> size < BLOCK_SIZE_MAX
  {
    MappingRange(size);
    if size >= BLOCK_SIZE_MAX {
      PowersOfTwo();
      FlsAtLeast(size, 32);
    }
  }

  lemma FlsBelow(size: nat, f: nat)
    requires size > 0 && f == Fls(size)
    ensures size < BLOCK_SIZE_MAX ==> f < FL_INDEX_MAX
  {
    if size < BLOCK_SIZE_MAX && f >= 32 {
      Pow2Monotone(32, f);
      PowersOfTwo();
    }
  }

  /** Classes in index order. */
  function ClassOf(size: nat): (r: nat) {
    var (fl, sl) := MappingInsert(size);
    fl * SL_INDEX_COUNT + sl
  }

  /** The ranges of the classes are in index order. */
  lemma RangesOrdered(fl: nat, sl: nat, fl': nat, sl': nat)
    requires sl < SL_INDEX_COUNT && sl' < SL_INDEX_COUNT
    requires fl * SL_INDEX_COUNT + sl < fl' * SL_INDEX_COUNT + sl'
    ensures Low(fl, sl) + Span(fl) <= Low(fl', sl')
  {
    if fl == fl' {
      if fl > 0 {
        var w := Pow2(fl + 2);
        MulLe(32 + sl + 1, 32 + sl', w, w);
        MulLe(32 + sl, 32 + sl, w, w);
      }
    } else {
      LevelsOrdered(fl, sl, fl', sl');
    }
  }

  lemma LevelsOrdered(fl: nat, sl: nat, fl': nat, sl': nat)
    requires sl < SL_INDEX_COUNT && fl < fl'
    ensures Low(fl, sl) + Span(fl) <= Low(fl', sl')
  {
    var w, w' := Pow2(fl + 2), Pow2(fl' + 2);
    MulLe(32, 32 + sl', w', w');
    if fl == 0 {
      Pow2Monotone(3, fl' + 2);
      assert Pow2(3) == 8;
    } else {
      Pow2Monotone(fl + 2, fl' + 2);
      MulLe(32 + sl, 32 + sl, w, w);
      MulLe(32 + sl + 1, 64, w, w);
    }
  }

  /** The class map is monotone, and sizes in a higher class are larger. */
  lemma ClassMonotone(a: nat, b: nat)
    ensures a <= b ==> ClassOf(a) <= ClassOf(b)
    ensures ClassOf(a) < ClassOf(b) ==> a < b
  {
    var (fl, sl) := MappingInsert(a);
    var (fl', sl') := MappingInsert(b);
    MappingRange(a);
    MappingRange(b);
    if ClassOf(a) < ClassOf(b) {
      RangesOrdered(fl, sl, fl', sl');
    } else if ClassOf(b) < ClassOf(a) {
      RangesOrdered(fl', sl', fl, sl);
    }
  }

  /** Good fit: for an aligned request the searched class begins at or above the request. */
  lemma SearchStartsAbove(size: nat)
    requires size % ALIGN_SIZE == 0
    ensures var (fl, sl) := MappingSearch(size); size <= Low(fl, sl) && size <= Rounded(size)
  {
    if size >= 32 {
      assert Pow2(5) == 32 && Pow2(8) == 256;
      FlsAtLeast(size, 5);
      if Fls(size) < 8 {
        SmallRound(size);
      } else {
        Pow2Monotone(8, Fls(size));
        LargeRound(size);
      }
    }
  }

  lemma LargeRound(size: nat)
    requires size >= SMALL_BLOCK_SIZE && Fls(size) >= 8
    ensures var (fl, sl) := MappingSearch(size); size <= Low(fl, sl) && size <= Rounded(size)
  {
    var f, r := Fls(size), Rounded(size);
    assert r == size + Pow2(f - 5) - 1;
    hide Rounded, Fls, Pow2, MappingInsert;
    if r < 2 * Pow2(f) {
      NoCarry(size, f, r);
    } else {
      Carry(size, f, r);
    }
  }

  lemma NoCarry(size: nat, f: nat, r: nat)
    requires f >= 8 && Pow2(f) <= size < 2 * Pow2(f) && r == size + Pow2(f - 5) - 1 < 2 * Pow2(f)
              && size >= SMALL_BLOCK_SIZE
    ensures var (fl, sl) := MappingInsert(r); size <= Low(fl, sl)
  {
    FlsIs(r, f);
    var f', w, q := LargeParts(r);
    LowOf(f, q);
    RoundUp(size, w, r, q);
  }

  lemma Carry(size: nat, f: nat, r: nat)
    requires f >= 8 && Pow2(f) <= size < 2 * Pow2(f) <= r == size + Pow2(f - 5) - 1 && size >= SMALL_BLOCK_SIZE
    ensures var (fl, sl) := MappingInsert(r); size <= Low(fl, sl)
  {
    var w := Pow2(f - 5);
    Pow2Times32(f - 5);
    assert Pow2(f + 1) == 2 * Pow2(f) && Pow2(f - 4) == 2 * w;
    FlsIs(r, f + 1);
    var f', w', q := LargeParts(r);
    LowOf(f + 1, q);
    hide *;
    CarryBound(size, w, w', q);
  }

  lemma CarryBound(size: nat, w: nat, w': nat, q: nat)
    requires size < 64 * w && w' == 2 * w && q >= 32
    ensures size <= q * w'
  {
    MulLe(32, q, w', w');
  }

  lemma SmallRound(size: nat)
    requires 32 <= size && size % 8 == 0 && Fls(size) < 8
    ensures var (fl, sl) := MappingSearch(size); size <= Low(fl, sl) && size <= Rounded(size)
  {
    var f := Fls(size);
    Pow2Monotone(f, 7);
    assert Pow2(7) == 128 && Pow2(2) == 4;
    FlsAtLeast(size, 5);
    Pow2Monotone(f - 5, 2);
    SmallInsert(size, Rounded(size));
  }

  lemma SmallInsert(size: nat, r: nat)
    requires size % 8 == 0 && size <= r < size + 4 && size < 256
    ensures var (fl, sl) := MappingInsert(r); size <= Low(fl, sl)
  {
    assert size <= 248;
  }

  lemma RoundUp(size: nat, w: nat, r: nat, q: nat)
    requires r == size + w - 1 && r < q * w + w
    ensures size <= q * w
  {
  }

  /** Any block in a class at or above the searched one is big enough; any block at least as
      large as the rounded request is in such a class. */
  lemma GoodFit(request: nat, block: nat)
    requires request % ALIGN_SIZE == 0
    ensures ClassOf(Rounded(request)) <= ClassOf(block) ==> request <= block
    ensures Rounded(request) <= block ==> ClassOf(Rounded(request)) <= ClassOf(block)
  {
    SearchStartsAbove(request);
    var (fl, sl) := MappingSearch(request);
    var (fl', sl') := MappingInsert(block);
    MappingRange(Rounded(request));
    MappingRange(block);
    ClassMonotone(Rounded(request), block);
    if ClassOf(Rounded(request)) < ClassOf(block) {
      RangesOrdered(fl, sl, fl', sl');
    } else if ClassOf(Rounded(request)) == ClassOf(block) {
      assert fl == fl' && sl == sl';
    }
  }
}
