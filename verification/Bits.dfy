/** Sets of small numbers packed into 32-bit words, and the packed triangular
    matrix that holds the interference relation. */
module Bits {

  /** A 32-bit word that is only used as a bit set is the set of its one bits:
      or is union, and-with-complement is difference, 1 << b is {b}. */
  type BitWord = w: set<nat> | forall b | b in w :: b < 32 witness {}

  const ALL_ONES: BitWord := set b: nat | b < 32

  /** Bit k of a row of words. */
  predicate Bit(words: seq<BitWord>, k: nat)
    requires k < 32 * |words|
  {
    k % 32 in words[k / 32]
  }

  /** bitset: turns on bit v and no other. */
  method BitSet(bs: array<BitWord>, v: nat)
    requires v < 32 * bs.Length
    modifies bs
    ensures forall k | 0 <= k < 32 * bs.Length :: Bit(bs[..], k) <==> k == v || Bit(old(bs[..]), k)
  {
    bs[v / 32] := bs[v / 32] + {v % 32};
  }

  /** bitclr: turns off bit v and no other. */
  method BitClr(bs: array<BitWord>, v: nat)
    requires v < 32 * bs.Length
    modifies bs
    ensures forall k | 0 <= k < 32 * bs.Length :: Bit(bs[..], k) <==> k != v && Bit(old(bs[..]), k)
  {
    bs[v / 32] := bs[v / 32] - {v % 32};
  }

  /** bitchk: tests bit v. */
  method BitChk(bs: array<BitWord>, v: nat) returns (r: bool)
    requires v < 32 * bs.Length
    ensures r == Bit(bs[..], v)
  {
    r := v % 32 in bs[v / 32];
  }

  /** bitset_or: or-ing word by word is set union. */
  method BitSetOr(bs: array<BitWord>, src: array<BitWord>, words: nat)
    requires bs != src && words == bs.Length == src.Length
    modifies bs
    ensures forall k | 0 <= k < 32 * words :: Bit(bs[..], k) <==> Bit(old(bs[..]), k) || Bit(src[..], k)
  {
    for i := 0 to words
      invariant forall j | 0 <= j < i :: bs[j] == old(bs[j]) + src[j]
      invariant forall j | i <= j < words :: bs[j] == old(bs[j])
      invariant src[..] == old(src[..])
    {
      bs[i] := bs[i] + src[i];
    }
  }

  /** ffs: one more than the position of the lowest one bit, 0 for the zero word. */
  method Ffs(w: BitWord) returns (r: nat)
    ensures r <= 32
    ensures r == 0 <==> w == {}
    ensures r > 0 ==> r - 1 in w && forall b | b in w :: r - 1 <= b
  {
    r := 0;
    while r < 32 && r !in w
      invariant r <= 32
      invariant forall b | b in w :: r <= b
    {
      r := r + 1;
    }
    r := if r < 32 then r + 1 else 0;
  }

  function Triangle(n: nat): (r: nat) {
    (n * n + n) / 2
  }

  /** Where the packed matrix keeps the pair (x, y). */
  function TriPos(x: nat, y: nat): (r: nat) {
    if x > y then Triangle(x) + y else Triangle(y) + x
  }

  /** How many bits tribitmtx_alloc asks for. */
  function TriBits(size: nat): (r: nat) {
    if size == 0 then 0 else Triangle(size - 1) + (size - 1) + 1
  }

  lemma TriangleStep(n: nat)
    ensures Triangle(n + 1) == Triangle(n) + n + 1
  {
    assert (n + 1) * (n + 1) == n * n + 2 * n + 1;
  }

  lemma {:induction false} TriangleMonotone(x: nat, y: nat)
    requires x < y
    ensures Triangle(x) + x < Triangle(y)
  {
    TriangleStep(y - 1);
    hide Triangle;
    if x < y - 1 {
      TriangleMonotone(x, y - 1);
    }
  }

  /** Different unordered pairs are kept in different bits, all inside the allocation. */
  lemma TriPosInjective(size: nat, x: nat, y: nat, x': nat, y': nat)
    requires x < size && y < size && x' < size && y' < size
    ensures TriPos(x, y) < TriBits(size)
    ensures TriPos(x, y) == TriPos(x', y') <==> (x == x' && y == y') || (x == y' && y == x')
  {
    hide Triangle;
    var lo, hi := if x > y then y else x, if x > y then x else y;
    var lo', hi' := if x' > y' then y' else x', if x' > y' then x' else y';
    if hi < size - 1 {
      TriangleMonotone(hi, size - 1);
    }
    if hi < hi' {
      TriangleMonotone(hi, hi');
    } else if hi' < hi {
      TriangleMonotone(hi', hi);
    }
  }

  /** A relation on the numbers below its length: each number's neighbours. */
  type Graph = seq<set<nat>>

  ghost predicate Symmetric(g: Graph) {
    forall x, y {:trigger y in g[x]} | 0 <= x < |g| && y in g[x] :: y < |g| && x in g[y]
  }

  function Connected(g: Graph, x: nat, y: nat): (r: Graph)
    requires x < |g| && y < |g| && x != y
    ensures |r| == |g|
  {
    g[x := g[x] + {y}][y := g[y] + {x}]
  }

  function Disconnected(g: Graph, x: nat, y: nat): (r: Graph)
    requires x < |g| && y < |g| && x != y
    ensures |r| == |g|
  {
    g[x := g[x] - {y}][y := g[y] - {x}]
  }

  /** The words hold exactly the pairs of g. */
  ghost predicate Packs(words: seq<BitWord>, size: nat, g: Graph) {
    && |g| == size
    && TriBits(size) <= 32 * |words|
    && Symmetric(g)
    && forall x: nat, y: nat | x < size && y < size :: y in g[x] <==> HasBit(words, size, x, y)
  }

  predicate HasBit(words: seq<BitWord>, size: nat, x: nat, y: nat)
    requires x < size && y < size && TriBits(size) <= 32 * |words|
  {
    TriPosInjective(size, x, y, x, y);
    Bit(words, TriPos(x, y))
  }

  /** Turning on the bit of (x, y) relates exactly x and y. */
  lemma PacksSet(words: seq<BitWord>, words': seq<BitWord>, size: nat, g: Graph, x: nat, y: nat)
    requires Packs(words, size, g) && x < size && y < size && x != y && |words'| == |words|
    requires forall k | 0 <= k < 32 * |words| :: Bit(words', k) <==> k == TriPos(x, y) || Bit(words, k)
    ensures Packs(words', size, Connected(g, x, y))
  {
    forall a: nat, b: nat | a < size && b < size
      ensures b in Connected(g, x, y)[a] <==> HasBit(words', size, a, b)
    {
      TriPosInjective(size, a, b, x, y);
      TriPosInjective(size, b, a, x, y);
      assert b in g[a] <==> HasBit(words, size, a, b);
    }
  }

  lemma PacksClr(words: seq<BitWord>, words': seq<BitWord>, size: nat, g: Graph, x: nat, y: nat)
    requires Packs(words, size, g) && x < size && y < size && x != y && |words'| == |words|
    requires forall k | 0 <= k < 32 * |words| :: Bit(words', k) <==> k != TriPos(x, y) && Bit(words, k)
    ensures Packs(words', size, Disconnected(g, x, y))
  {
    forall a: nat, b: nat | a < size && b < size
      ensures b in Disconnected(g, x, y)[a] <==> HasBit(words', size, a, b)
    {
      TriPosInjective(size, a, b, x, y);
      TriPosInjective(size, b, a, x, y);
      assert b in g[a] <==> HasBit(words, size, a, b);
    }
  }

  /** The symmetric bit matrix of the register allocator; rel is the relation it holds. */
  class TriMatrix {
    const size: nat
    const words: array<BitWord>
    ghost var rel: Graph

    ghost predicate Valid()
      reads this, words
    {
      Packs(words[..], size, rel)
    }

    /** tribitmtx_alloc: calloc gives zero words. */
    constructor (size: nat)
      ensures Valid() && this.size == size && fresh(words)
      ensures rel == seq(size, _ => {})
    {
      this.size := size;
      var n := (TriBits(size) + 31) / 32;
      words := new BitWord[n](_ => {});
      rel := seq(size, _ => {});
      new;
      assert TriBits(size) <= 32 * words.Length;
      forall x: nat, y: nat | x < size && y < size
        ensures !HasBit(words[..], size, x, y)
      {
        TriPosInjective(size, x, y, x, y);
      }
    }

    /** tribitmtx_get */
    method Get(x: nat, y: nat) returns (r: bool)
      requires Valid() && x < size && y < size
      ensures r == (y in rel[x]) == (x in rel[y])
    {
      TriPosInjective(size, x, y, x, y);
      r := BitChk(words, TriPos(x, y));
      assert r == HasBit(words[..], size, x, y);
    }

    /** tribitmtx_set */
    method Set(x: nat, y: nat)
      requires Valid() && x < size && y < size && x != y
      modifies this, words
      ensures Valid() && rel == Connected(old(rel), x, y)
    {
      TriPosInjective(size, x, y, x, y);
      BitSet(words, TriPos(x, y));
      PacksSet(old(words[..]), words[..], size, rel, x, y);
      rel := Connected(rel, x, y);
    }

    /** tribitmtx_clr */
    method Clr(x: nat, y: nat)
      requires Valid() && x < size && y < size && x != y
      modifies this, words
      ensures Valid() && rel == Disconnected(old(rel), x, y)
    {
      TriPosInjective(size, x, y, x, y);
      BitClr(words, TriPos(x, y));
      PacksClr(old(words[..]), words[..], size, rel, x, y);
      rel := Disconnected(rel, x, y);
    }
  }
}
