/** The reader of LLVM bitcode: src/vmir_bitstream.c.  Bits are numbered from the lowest bit of the
    first byte. */
module BitStream {
  import opened Basics
  import opened Arith

  function Bit(data: seq<Byte>, i: nat): (r: nat)
    ensures r < 2
  {
    if i / 8 < |data| then data[i / 8] / Pow2(i % 8) % 2 else 0
  }

  /** The number that n bits from pos spell, lowest bit first. */
  function ValueAt(data: seq<Byte>, pos: nat, n: nat): (r: nat)
    ensures r < Pow2(n)
    decreases n
  {
    if n == 0 then 0 else Bit(data, pos) + 2 * ValueAt(data, pos + 1, n - 1)
  }

  /** Reading a + b bits is reading a bits and then b bits. */
  lemma {:induction false} ValueJoin(data: seq<Byte>, pos: nat, a: nat, b: nat)
    ensures ValueAt(data, pos, a + b) == ValueAt(data, pos, a) + Pow2(a) * ValueAt(data, pos + a, b)
    decreases a
  {
    hide Bit;
    if a > 0 {
      ValueJoin(data, pos + 1, a - 1, b);
      Doubled(Pow2(a - 1), ValueAt(data, pos + a, b));
    }
  }

  /** n bits of byte i from its bit j. */
  lemma {:induction false} ByteBits(data: seq<Byte>, i: nat, j: nat, n: nat)
    requires j + n <= 8 && i < |data|
    ensures data[i] / Pow2(j) % Pow2(n) == ValueAt(data, 8 * i + j, n)
    decreases n
  {
    hide Bit;
    if n > 0 {
      BitOfByte(data, i, j);
      ByteBits(data, i, j + 1, n - 1);
      NextBits(data[i], j, n);
    }
  }

  lemma BitOfByte(data: seq<Byte>, i: nat, j: nat)
    requires j < 8 && i < |data|
    ensures Bit(data, 8 * i + j) == data[i] / Pow2(j) % 2
  {
    hide Pow2;
    assert (8 * i + j) / 8 == i && (8 * i + j) % 8 == j;
  }

  lemma NextBits(b: nat, j: nat, n: nat)
    requires n > 0
    ensures b / Pow2(j) % Pow2(n) == b / Pow2(j) % 2 + 2 * (b / Pow2(j + 1) % Pow2(n - 1))
  {
    var x := b / Pow2(j);
    assert Pow2(j + 1) == Pow2(j) * 2 && Pow2(n) == 2 * Pow2(n - 1);
    DivDiv(b, Pow2(j), 2);
    ModStep(x, Pow2(n - 1));
  }

  // ----- reading as a function of the position -----

  /** Whether num bits can be read at pos.  The bits must exist, and a read may not start inside
      the last byte. */
  predicate CanRead(length: nat, pos: nat, num: nat) {
    num == 0 || (pos + num <= 8 * length && (pos % 8 != 0 ==> pos / 8 + 1 < length))
  }

  /** What read_bits returns, and the position after it. */
  function ReadAt(data: seq<Byte>, pos: nat, num: nat): (r: (nat, nat))
    ensures r.0 < Pow2(num)
  {
    if CanRead(|data|, pos, num) then (ValueAt(data, pos, num), pos + num)
    else (0, if pos + 7 >= 8 * |data| then pos else 8 * |data|)
  }

  function ShiftLeft(x: nat, k: nat): (r: nat) {
    x * Pow2(k)
  }

  /** What read_vbr and read_vbr64 make of the bits from pos, behind stride bits of the number; None
      stands for a failed assertion. */
  function VbrAt(data: seq<Byte>, pos: nat, width: nat, stride: nat, limit: nat): (r: Option<(nat, nat)>)
    requires width > 0
    decreases 8 * |data| - pos
  {
    var (x, next) := ReadAt(data, pos, width);
    var cont := Pow2(width - 1);
    if x < cont then Some((ShiftLeft(x, stride), next))
    else if stride + width - 1 >= limit then None
    else
      match VbrAt(data, next, width, stride + width - 1, limit)
      case None => None
      case Some((rest, end)) => Some((ShiftLeft(x % cont, stride) + rest, end))
  }

  // ----- the reader -----

  /** Where read_bits is after off of num bits. */
  ghost predicate Progress(length: nat, pos: nat, off: nat, left: nat, num: nat, offset: nat, remain: nat) {
    && remain < 8 && 8 * offset - remain == pos + off && off + left == num
    && (off > 0 ==> pos + off <= 8 * length && pos + 7 < 8 * length)
    && (off > 0 && left > 0 ==> remain == 0)
    && (off > 0 && pos % 8 != 0 ==> pos / 8 + 1 < length)
  }

  lemma ReadNothing(data: seq<Byte>, pos: nat, offset: nat, remain: nat, num: nat)
    requires remain < 8 && 8 * offset - remain == pos
    ensures Progress(|data|, pos, 0, num, num, offset, remain) && ValueAt(data, pos, 0) == 0
  {
  }

  lemma ReadStops(length: nat, pos: nat, off: nat, left: nat, num: nat, offset: nat, remain: nat)
    requires Progress(length, pos, off, left, num, offset, remain) && left > 0 && offset >= length
    ensures !CanRead(length, pos, num) && 8 * offset - remain == if pos + 7 >= 8 * length then pos else 8 * length
  {
  }

  lemma ReadStep(length: nat, pos: nat, off: nat, left: nat, num: nat, offset: nat, remain: nat, pick: nat,
                 offset': nat, remain': nat)
    requires Progress(length, pos, off, left, num, offset, remain) && offset < length && 0 < pick <= left
    requires remain' < 8 && 8 * offset' - remain' == pos + off + pick
              && (remain' > 0 ==> pick == left) && offset' <= length
    ensures Progress(length, pos, off + pick, left - pick, num, offset', remain')
  {
  }

  lemma ReadDone(length: nat, pos: nat, off: nat, left: nat, num: nat, offset: nat, remain: nat)
    requires Progress(length, pos, off, left, num, offset, remain) && left == 0
    ensures CanRead(length, pos, num) && off == num
  {
  }

  class Reader {
    const data: seq<Byte>
    var offset: nat
    var remain: nat
    var tmp: nat

    /** tmp holds the bits of the byte before offset that have not been read. */
    ghost predicate Valid()
      reads this
    {
      remain < 8 && (remain > 0 ==> 0 < offset <= |data| && tmp == data[offset - 1] / Pow2(8 - remain))
    }

    /** The position of the next bit. */
    function Pos(): (r: nat)
      reads this
      requires Valid()
    {
      8 * offset - remain
    }

    constructor (data: seq<Byte>)
      ensures Valid() && Pos() == 0 && this.data == data
    {
      this.data, offset, remain, tmp := data, 0, 0, 0;
    }

    /** One turn of the loop of read_bits. */
    method Pick(num: nat) returns (pick: nat, x: nat)
      requires Valid() && num > 0 && offset < |data|
      modifies this
      ensures Valid() && 0 < pick <= num && Pos() == old(Pos()) + pick && x == ValueAt(data, old(Pos()), pick)
      ensures (remain > 0 ==> pick == num) && offset <= |data|
    {
      hide Bit, ValueAt, Pow2;
      if remain == 0 {
        tmp := data[offset];
        offset := offset + 1;
        remain := 8;
        DivOne(tmp);
      }
      pick := if num < remain then num else remain;
      Pow2Positive(pick);
      ShiftedOut(tmp, Pow2(pick));
      PickedBits(data, offset, remain, tmp, pick);
      x := tmp % Pow2(pick);
      tmp := tmp / Pow2(pick);
      remain := remain - pick;
    }

    /** read_bits */
    method ReadBits(num: nat) returns (r: nat)
      requires Valid() && num <= 32
      modifies this
      ensures Valid() && (r, Pos()) == ReadAt(data, old(Pos()), num)
    {
      hide Bit, Pow2, ValueAt, Progress, CanRead;
      ghost var pos := Pos();
      r := 0;
      var off, left := 0, num;
      ReadNothing(data, pos, offset, remain, num);
      while left > 0
        invariant Valid() && Pos() == pos + off && r == ValueAt(data, pos, off)
        invariant Progress(|data|, pos, off, left, num, offset, remain)
        decreases left
      {
        ghost var offset0, remain0 := offset, remain;
        if offset >= |data| {
          ReadStops(|data|, pos, off, left, num, offset, remain);
          return 0;
        }
        var pick, x := Pick(left);
        ReadStep(|data|, pos, off, left, num, offset0, remain0, pick, offset, remain);
        ValueJoin(data, pos, off, pick);
        r := r + Pow2(off) * x;
        off := off + pick;
        left := left - pick;
      }
      ReadDone(|data|, pos, off, left, num, offset, remain);
    }

    /** align_bits32 */
    method AlignBits32()
      requires Valid()
      modifies this
      ensures Valid() && Pos() % 32 == 0 && old(Pos()) <= Pos() < old(Pos()) + 32
    {
      offset := (offset + 3) / 4 * 4;
      remain := 0;
    }

    /** read_vbr with limit 32 and read_vbr64 with limit 64; false stands for a failed assertion. */
    method ReadVbr(width: nat, limit: nat) returns (ok: bool, ret: nat)
      requires Valid() && 0 < width <= 32
      modifies this
      ensures Valid()
      ensures ok == VbrAt(data, old(Pos()), width, 0, limit).Some?
      ensures ok ==> (ret, Pos()) == var v := VbrAt(data, old(Pos()), width, 0, limit).value; (v.0 % Pow2(limit), v.1)
    {
      hide Pow2, ReadAt, VbrAt, Prepend;
      ok, ret := true, 0;
      var cont: nat, stride: nat, more := Pow2(width - 1), 0, true;
      ghost var all, sum: nat := VbrAt(data, Pos(), width, 0, limit), 0;
      NothingRead(all, limit);
      while more
        invariant Valid() && ret == sum % Pow2(limit)
        invariant more ==> all == Prepend(sum, VbrAt(data, Pos(), width, stride, limit))
        invariant !more ==> all == Some((sum, Pos()))
        decreases more, if 8 * |data| > Pos() then 8 * |data| - Pos() else 0
      {
        VbrStep(data, Pos(), width, stride, limit, sum);
        var x := ReadBits(width);
        var y: nat := x % cont * Pow2(stride);
        AddModulo(sum, y, Pow2(limit));
        ret := (ret + y) % Pow2(limit);
        sum := sum + y;
        if x >= cont {
          stride := stride + width - 1;
          if stride >= limit {
            return false, 0;
          }
        } else {
          more := false;
        }
      }
    }
  }

  lemma NothingRead(all: Option<(nat, nat)>, limit: nat)
    ensures Prepend(0, all) == all && 0 % Pow2(limit) == 0
  {
  }

  /** One turn of the loop of read_vbr. */
  lemma VbrStep(data: seq<Byte>, pos: nat, width: nat, stride: nat, limit: nat, sum: nat)
    requires width > 0
    ensures var (x, next) := ReadAt(data, pos, width);
            var y: nat := x % Pow2(width - 1) * Pow2(stride);
            var all := Prepend(sum, VbrAt(data, pos, width, stride, limit));
            if x < Pow2(width - 1) then all == Some((sum + y, next))
            else if stride + width - 1 >= limit then all == None
            else
              pos < next <= 8 * |data| && all == Prepend(sum + y, VbrAt(data, next, width, stride + width - 1, limit))
  {
    var (x, next) := ReadAt(data, pos, width);
    hide Pow2, ValueAt, Bit;
    if x < Pow2(width - 1) {
      Small(x, Pow2(width - 1));
    }
  }

  function Prepend(sum: nat, r: Option<(nat, nat)>): (res: Option<(nat, nat)>) {
    match r
    case None => None
    case Some((v, end)) => Some((sum + v, end))
  }

  lemma AddModulo(a: nat, b: nat, m: nat)
    requires m > 0
    ensures (a % m + b) % m == (a + b) % m
  {
    var q, r := a / m, a % m;
    var p, s := (r + b) / m, (r + b) % m;
    assert a == q * m + r && r + b == p * m + s;
    Distribute(q, p, m);
    DivModUnique(a + b, m, q + p, s);
  }

  lemma DivOne(b: nat)
    ensures b / Pow2(0) == b
  {
  }

  lemma ShiftByte(b: nat, j: nat, n: nat)
    ensures b / Pow2(j) / Pow2(n) == b / Pow2(j + n)
  {
    Pow2Add(j, n);
    DivDiv(b, Pow2(j), Pow2(n));
  }

  // ----- the encoding, and reading it back -----

  /** Fixed width integers. */
  function Fixed(v: nat, n: nat): (bits: seq<nat>)
    ensures |bits| == n
    decreases n
  {
    if n == 0 then [] else [v % 2] + Fixed(v / 2, n - 1)
  }

  /** Variable width integers: the high bit of each chunk says whether another one follows. */
  function Vbr(v: nat, width: nat): (bits: seq<nat>)
    requires width >= 2
    ensures |bits| >= width
    decreases v
  {
    var cont := Pow2(width - 1);
    if v < cont then Fixed(v, width)
    else
      Smaller(v, width);
      Fixed(v % cont + cont, width) + Vbr(v / cont, width)
  }

  /** The low bits of what is left of a byte, and what is left after them. */
  lemma PickedBits(data: seq<Byte>, offset: nat, remain: nat, tmp: nat, pick: nat)
    requires 0 < offset <= |data| && pick <= remain <= 8 && tmp == data[offset - 1] / Pow2(8 - remain)
    ensures Pow2(pick) > 0 && tmp % Pow2(pick) == ValueAt(data, 8 * offset - remain, pick)
    ensures tmp / Pow2(pick) == data[offset - 1] / Pow2(8 - (remain - pick))
  {
    hide Bit, ValueAt, Pow2;
    Pow2Positive(pick);
    ByteBits(data, offset - 1, 8 - remain, pick);
    ShiftByte(data[offset - 1], 8 - remain, pick);
  }

  lemma ShiftedOut(x: nat, w: nat)
    requires w > 0
    ensures 0 <= x / w && 0 <= x % w
  {
  }

  lemma Pow2Positive(k: nat)
    ensures Pow2(k) > 0
  {
  }

  lemma Smaller(v: nat, width: nat)
    requires width >= 2 && v >= Pow2(width - 1)
    ensures v / Pow2(width - 1) < v
  {
    var w := Pow2(width - 1);
    assert w >= 2 by {
      Pow2Monotone(1, width - 1);
      assert Pow2(1) == 2;
    }
    hide Pow2;
    var q := v / w;
    assert v == q * w + v % w;
    MulLe(q, q, 2, w);
  }

  ghost predicate Spells(data: seq<Byte>, pos: nat, bits: seq<nat>) {
    pos + |bits| <= 8 * |data| && forall i | 0 <= i < |bits| :: Bit(data, pos + i) == bits[i]
  }

  lemma SpellsParts(data: seq<Byte>, pos: nat, a: seq<nat>, b: seq<nat>)
    requires Spells(data, pos, a + b)
    ensures Spells(data, pos, a) && Spells(data, pos + |a|, b)
  {
    hide Bit;
    forall i | 0 <= i < |a|
      ensures Bit(data, pos + i) == a[i]
    {
      assert (a + b)[i] == a[i];
    }
    forall i | 0 <= i < |b|
      ensures Bit(data, pos + |a| + i) == b[i]
    {
      assert Bit(data, pos + (|a| + i)) == (a + b)[|a| + i];
    }
  }

  /** Reading undoes the fixed width encoding. */
  lemma {:induction false} FixedRoundTrip(data: seq<Byte>, pos: nat, v: nat, n: nat)
    requires v < Pow2(n) && Spells(data, pos, Fixed(v, n))
    ensures ValueAt(data, pos, n) == v
    decreases n
  {
    hide Bit;
    if n > 0 {
      SpellsParts(data, pos, [v % 2], Fixed(v / 2, n - 1));
      FixedRoundTrip(data, pos + 1, v / 2, n - 1);
      assert Bit(data, pos + 0) == Fixed(v, n)[0];
    }
  }

  /** Every chunk of the encoding of v at pos can be read. */
  predicate Readable(length: nat, pos: nat, v: nat, width: nat)
    requires width >= 2
    decreases v
  {
    CanRead(length, pos, width) &&
    if v < Pow2(width - 1) then true
    else
      Smaller(v, width);
      Readable(length, pos + width, v / Pow2(width - 1), width)
  }

  /** That is so if it ends before the last byte. */
  lemma {:induction false} EndsBeforeLastByte(length: nat, pos: nat, v: nat, width: nat)
    requires width >= 2 && pos + |Vbr(v, width)| + 8 <= 8 * length
    ensures Readable(length, pos, v, width)
    decreases v
  {
    hide Fixed, Pow2;
    if v >= Pow2(width - 1) {
      Smaller(v, width);
      EndsBeforeLastByte(length, pos + width, v / Pow2(width - 1), width);
    }
  }

  /** Reading undoes the variable width encoding, behind stride bits of the number. */
  lemma {:induction false} VbrChunks(data: seq<Byte>, pos: nat, v: nat, width: nat, stride: nat, limit: nat)
    requires width >= 2 && stride <= limit && v < Pow2(limit - stride)
    requires Spells(data, pos, Vbr(v, width)) && Readable(|data|, pos, v, width)
    ensures VbrAt(data, pos, width, stride, limit) == Some((v * Pow2(stride), pos + |Vbr(v, width)|))
    decreases v
  {
    hide Fixed, Spells, CanRead, ValueAt, Pow2;
    var cont := Pow2(width - 1);
    Doubles(width);
    if v < cont {
      FixedRoundTrip(data, pos, v, width);
    } else {
      var q, r := v / cont, v % cont;
      SpellsParts(data, pos, Fixed(r + cont, width), Vbr(q, width));
      FixedRoundTrip(data, pos, r + cont, width);
      ChunkFits(v, width, limit - stride);
      Smaller(v, width);
      VbrChunks(data, pos + width, q, width, stride + (width - 1), limit);
      AddCont(r, cont);
      Pow2Add(width - 1, stride);
      Weighted(v, cont, Pow2(stride));
    }
  }

  lemma Doubles(width: nat)
    requires width >= 1
    ensures Pow2(width) == 2 * Pow2(width - 1)
  {
  }

  lemma AddCont(r: nat, cont: nat)
    requires r < cont
    ensures (r + cont) % cont == r
  {
    DivModUnique(r + cont, cont, 1, r);
  }

  /** A number that needs another chunk leaves room for it. */
  lemma ChunkFits(v: nat, width: nat, room: nat)
    requires width >= 1 && Pow2(width - 1) <= v < Pow2(room)
    ensures width - 1 < room && v / Pow2(width - 1) < Pow2(room - (width - 1))
  {
    hide Pow2;
    if width - 1 >= room {
      Pow2Monotone(room, width - 1);
    }
    Pow2Add(width - 1, room - (width - 1));
    QuotientBelow(v, Pow2(width - 1), Pow2(room - (width - 1)));
  }

  lemma QuotientBelow(v: nat, w: nat, m: nat)
    requires w > 0 && v < w * m
    ensures v / w < m
  {
    var q := v / w;
    assert v == q * w + v % w;
    if q >= m {
      MulLe(m, q, w, w);
    }
  }

  lemma Weighted(v: nat, a: nat, w: nat)
    requires a > 0
    ensures v % a * w + v / a * (a * w) == v * w
  {
    var q, r := v / a, v % a;
    assert v == q * a + r;
    assert (q * a + r) * w == (q * a) * w + r * w;
    assert (q * a) * w == q * (a * w);
  }

  /** read_vbr and read_vbr64 undo the encoding of every number below 2^limit. */
  lemma VbrRoundTrip(data: seq<Byte>, pos: nat, v: nat, width: nat, limit: nat)
    requires width >= 2 && v < Pow2(limit)
    requires Spells(data, pos, Vbr(v, width)) && Readable(|data|, pos, v, width)
    ensures VbrAt(data, pos, width, 0, limit) == Some((v, pos + |Vbr(v, width)|))
  {
    hide Vbr, Spells, Readable, VbrAt;
    VbrChunks(data, pos, v, width, 0, limit);
    assert v * Pow2(0) == v;
  }

  // ----- signed numbers -----

  const SIGN := 0x8000_0000_0000_0000

  /** The signed encoding: the sign is the lowest bit, and -0 stands for the smallest number. */
  function Rotate(v: int): (u: nat)
    requires -SIGN <= v < SIGN
    ensures u < 2 * SIGN
  {
    if v >= 0 then 2 * v else if v == -SIGN then 1 else 2 * -v + 1
  }

  /** read_sign_rotated */
  function SignRotated(u: nat): (r: int)
    requires u < 2 * SIGN
  {
    if u % 2 == 0 then u / 2 else if u != 1 then -(u / 2) else -SIGN
  }

  /** Signed numbers come back from the bits that encode them. */
  lemma SignedRoundTrip(data: seq<Byte>, pos: nat, v: int, width: nat)
    requires width >= 2 && -SIGN <= v < SIGN
    requires Spells(data, pos, Vbr(Rotate(v), width)) && Readable(|data|, pos, Rotate(v), width)
    ensures var r := VbrAt(data, pos, width, 0, 64);
            r.Some? && r.value.1 == pos + |Vbr(Rotate(v), width)| && r.value.0 < 2 * SIGN && SignRotated(r.value.0) == v
  {
    hide Pow2, Vbr, Spells, Readable, VbrAt, Rotate, SignRotated;
    PowersOfTwo();
    RotateRoundTrip(v);
    VbrRoundTrip(data, pos, Rotate(v), width, 64);
  }

  lemma RotateRoundTrip(v: int)
    requires -SIGN <= v < SIGN
    ensures SignRotated(Rotate(v)) == v
  {
  }

  /** The bits that can be read are all but those that follow the start of the last byte, unless the
      read begins there: a buffer can be read to its end only from a byte boundary. */
  lemma LastByte(length: nat, pos: nat, num: nat)
    requires num > 0 && pos + num <= 8 * length
    ensures !CanRead(length, pos, num) <==> 8 * length - 8 < pos
  {
  }
}
