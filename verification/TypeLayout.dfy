/** Sizes, alignments and struct layout: src/vmir_type.c. */
module TypeLayout {
  import opened Arith

  datatype Type =
    | Void
    | Int(bits: nat)
    | Float
    | Double
    | Pointer(pointee: nat)
    | Struct(packed: bool, elements: seq<nat>)
    | Array(num: nat, element: nat)

  type Table = seq<Type>

  /** A type that objects can have: what it holds by value stands before it in the table, which is
      the order in which LLVM writes types. */
  predicate TypeOk(t: Table, i: nat)
    requires i < |t|
  {
    match t[i]
    case Int(bits) => 1 <= bits <= 64
    case Struct(_, elements) => forall x | 0 <= x < |elements| :: elements[x] < i && t[elements[x]] != Void
    case Array(_, element) => element < i && t[element] != Void
    case Pointer(pointee) => pointee < |t|
    case _ => true
  }

  ghost predicate TableOk(t: Table) {
    forall i | 0 <= i < |t| :: TypeOk(t, i)
  }

  predicate IsAlignment(a: nat) {
    a == 1 || a == 2 || a == 4 || a == 8
  }

  // ----- what the layout is -----

  /** The size of a scalar, which is its alignment too. */
  function ScalarSize(ty: Type): (r: nat)
    requires !ty.Struct? && !ty.Array? && !ty.Void?
    ensures IsAlignment(r)
  {
    match ty
    case Int(bits) => if bits == 1 || bits == 8 then 1 else if bits == 16 then 2 else if bits <= 32 then 4 else 8
    case Float => 4
    case Double => 8
    case Pointer(_) => 4
  }

  function AlignOf(t: Table, i: nat): (r: nat)
    requires TableOk(t) && i < |t| && t[i] != Void
    ensures IsAlignment(r)
    decreases i, 1, 0
  {
    assert TypeOk(t, i);
    if t[i].Struct? then if t[i].packed then 1 else MaxAlign(t, i, |t[i].elements|)
    else if t[i].Array? then AlignOf(t, t[i].element)
    else ScalarSize(t[i])
  }

  /** The largest alignment among the first n elements of struct i. */
  function MaxAlign(t: Table, i: nat, n: nat): (r: nat)
    requires TableOk(t) && i < |t| && t[i].Struct? && n <= |t[i].elements|
    ensures IsAlignment(r)
    decreases i, 0, n
  {
    assert TypeOk(t, i);
    if n == 0 then 1
    else
      var a, b := MaxAlign(t, i, n - 1), AlignOf(t, t[i].elements[n - 1]);
      if a > b then a else b
  }

  function SizeOf(t: Table, i: nat): (r: nat)
    requires TableOk(t) && i < |t|
    decreases i, 1, 0
  {
    assert TypeOk(t, i);
    if t[i].Struct? then
      var end := End(t, i, |t[i].elements|);
      if t[i].packed then end else AlignTo(end, MaxAlign(t, i, |t[i].elements|))
    else if t[i].Array? then SizeOf(t, t[i].element) * t[i].num
    else if t[i].Void? then 0
    else ScalarSize(t[i])
  }

  /** Where the first n elements of struct i end. */
  function End(t: Table, i: nat, n: nat): (r: nat)
    requires TableOk(t) && i < |t| && t[i].Struct? && n <= |t[i].elements|
    decreases i, 0, n
  {
    assert TypeOk(t, i);
    if n == 0 then 0
    else
      var e, end := t[i].elements[n - 1], End(t, i, n - 1);
      (if t[i].packed then end else AlignTo(end, AlignOf(t, e))) + SizeOf(t, e)
  }

  function Offset(t: Table, i: nat, x: nat): (r: nat)
    requires TableOk(t) && i < |t| && t[i].Struct? && x < |t[i].elements|
  {
    assert TypeOk(t, i);
    if t[i].packed then End(t, i, x) else AlignTo(End(t, i, x), AlignOf(t, t[i].elements[x]))
  }

  // ----- properties of the layout -----

  /** Integers of a machine width take that width, one bit takes a byte, other widths the next of 32 and 64
      bits; floats take 32 and 64 bits. */
  lemma ScalarSizes(ty: Type)
    requires !ty.Struct? && !ty.Array? && !ty.Void? && (ty.Int? ==> 1 <= ty.bits <= 64)
    ensures ty.Int? && ty.bits in {8, 16, 32, 64} ==> 8 * ScalarSize(ty) == ty.bits
    ensures ty.Int? ==> 8 * ScalarSize(ty) >= ty.bits && (ScalarSize(ty) == 1 <==> ty.bits == 1 || ty.bits == 8)
    ensures ty.Int? ==> (ScalarSize(ty) == 8 <==> ty.bits > 32) && (ScalarSize(ty) == 2 <==> ty.bits == 16)
    ensures ty.Float? ==> 8 * ScalarSize(ty) == 32
    ensures ty.Double? ==> 8 * ScalarSize(ty) == 64
    ensures ty.Pointer? ==> Pow2(8 * ScalarSize(ty)) == 0x1_0000_0000
  {
    PowersOfTwo();
  }

  /** No more padding than alignment asks for: in front of an element, and at the end. */
  lemma PaddingIsLeast(t: Table, i: nat, x: nat)
    requires TableOk(t) && i < |t| && t[i].Struct? && x < |t[i].elements|
    ensures TypeOk(t, i) && Offset(t, i, 0) == 0
    ensures var e := t[i].elements[x];
      && End(t, i, x + 1) == Offset(t, i, x) + SizeOf(t, e)
      && End(t, i, x) <= Offset(t, i, x) < End(t, i, x) + (if t[i].packed then 1 else AlignOf(t, e))
      && End(t, i, |t[i].elements|) <= SizeOf(t, i) < End(t, i, |t[i].elements|) + AlignOf(t, i)
  {
    hide MaxAlign;
    OffsetSteps(t, i, x);
    PaddingBefore(t, i, 0);
    PaddingBefore(t, i, x);
    PaddingBehind(t, i);
  }

  lemma PaddingBefore(t: Table, i: nat, x: nat)
    requires TableOk(t) && i < |t| && t[i].Struct? && x < |t[i].elements|
    ensures TypeOk(t, i) && (x == 0 ==> Offset(t, i, x) == 0)
    ensures End(t, i, x) <= Offset(t, i, x) < End(t, i, x) + (if t[i].packed then 1 else AlignOf(t, t[i].elements[x]))
  {
    hide AlignOf, SizeOf;
    assert TypeOk(t, i);
    if x == 0 && !t[i].packed {
      AlignZero(AlignOf(t, t[i].elements[x]));
    }
  }

  lemma AlignZero(a: nat)
    requires IsAlignment(a)
    ensures AlignTo(0, a) == 0
  {
    Small(a - 1, a);
  }

  lemma PaddingBehind(t: Table, i: nat)
    requires TableOk(t) && i < |t| && t[i].Struct?
    ensures var end := End(t, i, |t[i].elements|); end <= SizeOf(t, i) < end + AlignOf(t, i)
  {
    hide End, MaxAlign;
  }

  /** The alignment of a struct is the largest of its elements', one if it is packed or empty. */
  lemma {:induction false} AlignmentIsLargest(t: Table, i: nat, n: nat)
    requires TableOk(t) && i < |t| && t[i].Struct? && n <= |t[i].elements|
    ensures TypeOk(t, i)
    ensures MaxAlign(t, i, n) == 1 || exists x | 0 <= x < n :: MaxAlign(t, i, n) == AlignOf(t, t[i].elements[x])
    ensures forall x | 0 <= x < n :: AlignOf(t, t[i].elements[x]) <= MaxAlign(t, i, n)
    ensures AlignOf(t, i) == if t[i].packed then 1 else MaxAlign(t, i, |t[i].elements|)
    decreases n
  {
    assert TypeOk(t, i);
    if n > 0 {
      AlignmentIsLargest(t, i, n - 1);
    }
  }

  lemma SizeCases(t: Table, i: nat)
    requires TableOk(t) && i < |t|
    ensures TypeOk(t, i) && (t[i].Void? ==> SizeOf(t, i) == 0)
    ensures t[i].Array? ==> SizeOf(t, i) == SizeOf(t, t[i].element) * t[i].num
    ensures !t[i].Array? && !t[i].Struct? && !t[i].Void? ==> SizeOf(t, i) == ScalarSize(t[i])
  {
    assert TypeOk(t, i);
  }

  lemma OffsetSteps(t: Table, i: nat, x: nat)
    requires TableOk(t) && i < |t| && t[i].Struct? && x < |t[i].elements|
    ensures TypeOk(t, i)
    ensures End(t, i, x) <= Offset(t, i, x)
    ensures End(t, i, x + 1) == Offset(t, i, x) + SizeOf(t, t[i].elements[x])
  {
    assert TypeOk(t, i);
  }

  lemma {:induction false} EndGrows(t: Table, i: nat, m: nat, n: nat)
    requires TableOk(t) && i < |t| && t[i].Struct? && m <= n <= |t[i].elements|
    ensures End(t, i, m) <= End(t, i, n)
    decreases n
  {
    hide AlignOf, SizeOf, End, Offset;
    if m < n {
      EndGrows(t, i, m, n - 1);
      OffsetSteps(t, i, n - 1);
    }
  }

  /** Elements lie one behind the other inside the struct, and without packing each is aligned. */
  lemma ElementsApart(t: Table, i: nat, x: nat, y: nat)
    requires TableOk(t) && i < |t| && t[i].Struct? && x < y < |t[i].elements|
    ensures TypeOk(t, i)
    ensures Offset(t, i, x) + SizeOf(t, t[i].elements[x]) <= Offset(t, i, y)
    ensures Offset(t, i, y) + SizeOf(t, t[i].elements[y]) <= SizeOf(t, i)
    ensures !t[i].packed ==> Offset(t, i, y) % AlignOf(t, t[i].elements[y]) == 0
  {
    hide AlignOf, MaxAlign, SizeOf, End, Offset, AlignTo;
    var n := |t[i].elements|;
    OffsetSteps(t, i, x);
    OffsetSteps(t, i, y);
    EndGrows(t, i, x + 1, y);
    EndGrows(t, i, y + 1, n);
    StructSize(t, i);
    OffsetAligned(t, i, y);
  }

  lemma OffsetAligned(t: Table, i: nat, x: nat)
    requires TableOk(t) && i < |t| && t[i].Struct? && x < |t[i].elements|
    ensures TypeOk(t, i)
    ensures !t[i].packed ==> Offset(t, i, x) % AlignOf(t, t[i].elements[x]) == 0
  {
    hide AlignOf, SizeOf, End, AlignTo;
  }

  lemma StructSize(t: Table, i: nat)
    requires TableOk(t) && i < |t| && t[i].Struct?
    ensures SizeOf(t, i) >= End(t, i, |t[i].elements|)
  {
    hide End, AlignOf, MaxAlign;
  }

  lemma AlignmentsDivide(a: nat, b: nat, n: nat)
    requires IsAlignment(a) && IsAlignment(b) && a <= b && n % b == 0
    ensures n % a == 0
  {
    hide IsAlignment;
    var k := Ratio(a, b);
    var q := n / b;
    assert n == b * q;
    assert n == (k * q) * a by {
      assert b * q == (a * k) * q == (k * q) * a;
    }
    DivModUnique(n, a, k * q, 0);
  }

  lemma Ratio(a: nat, b: nat) returns (k: nat)
    requires IsAlignment(a) && IsAlignment(b) && a <= b
    ensures a > 0 && b > 0 && b == a * k
  {
    k := if a == b then 1 else if a == 1 then b else if b == 4 then 2 else if a == 4 then 2 else 4;
  }

  lemma {:induction false} MaxAlignIs(t: Table, i: nat, n: nat, x: nat)
    requires TableOk(t) && i < |t| && t[i].Struct? && x < n <= |t[i].elements|
    ensures TypeOk(t, i) && AlignOf(t, t[i].elements[x]) <= MaxAlign(t, i, n)
    decreases n
  {
    assert TypeOk(t, i);
    if x < n - 1 {
      MaxAlignIs(t, i, n - 1, x);
    }
  }

  /** Sizes are multiples of alignments, so that the elements of arrays are aligned too. */
  lemma {:induction false} SizeIsAligned(t: Table, i: nat)
    requires TableOk(t) && i < |t| && t[i] != Void
    ensures SizeOf(t, i) % AlignOf(t, i) == 0
    decreases i
  {
    assert TypeOk(t, i);
    if t[i].Array? {
      SizeIsAligned(t, t[i].element);
      Multiple(SizeOf(t, t[i].element), t[i].num, AlignOf(t, t[i].element));
    } else if t[i].Struct? {
      StructAligned(t, i);
    }
  }

  lemma StructAligned(t: Table, i: nat)
    requires TableOk(t) && i < |t| && t[i].Struct?
    ensures SizeOf(t, i) % AlignOf(t, i) == 0
  {
    hide MaxAlign, End;
    if t[i].packed {
      ByOne(SizeOf(t, i));
    }
  }

  lemma ByOne(n: nat)
    ensures n % 1 == 0
  {
  }

  lemma Multiple(s: nat, n: nat, a: nat)
    requires a > 0 && s % a == 0
    ensures s * n % a == 0
  {
    var q := s / a;
    assert s == q * a;
    assert s * n == (q * n) * a by {
      assert (q * a) * n == (q * n) * a;
    }
    RemainderIs(s * n, a, q * n, 0);
  }

  lemma StructAlign(t: Table, i: nat)
    requires TableOk(t) && i < |t| && t[i].Struct? && !t[i].packed
    ensures AlignOf(t, i) == MaxAlign(t, i, |t[i].elements|)
  {
    hide MaxAlign;
  }

  /** In an aligned object every element of an unpacked struct is aligned. */
  lemma FieldAligned(t: Table, i: nat, x: nat, addr: nat)
    requires TableOk(t) && i < |t| && t[i].Struct? && !t[i].packed && x < |t[i].elements| && addr % AlignOf(t, i) == 0
    ensures TypeOk(t, i) && (addr + Offset(t, i, x)) % AlignOf(t, t[i].elements[x]) == 0
  {
    hide AlignOf, MaxAlign, SizeOf, End, Offset, AlignTo;
    OffsetAligned(t, i, x);
    StructAlign(t, i);
    var a := AlignOf(t, t[i].elements[x]);
    MaxAlignIs(t, i, |t[i].elements|, x);
    AlignmentsDivide(a, AlignOf(t, i), addr);
    AddMod(addr, Offset(t, i, x), a);
  }

  // ----- computing it -----

  datatype Layout = Unknown | Layout(offsets: seq<nat>, size: nat, alignment: nat)

  /** What has been computed is the layout. */
  ghost predicate Right(t: Table, ls: seq<Layout>, i: nat)
    requires TableOk(t) && i < |t| == |ls|
  {
    ls[i].Layout? ==>
      && t[i].Struct? && |ls[i].offsets| == |t[i].elements|
      && (forall x | 0 <= x < |t[i].elements| :: ls[i].offsets[x] == Offset(t, i, x))
      && ls[i].size == SizeOf(t, i) && ls[i].alignment == AlignOf(t, i)
  }

  /** The struct that a type is, or is an array of, has been computed. */
  ghost predicate Known(t: Table, ls: seq<Layout>, i: nat)
    requires TableOk(t) && i < |t| == |ls|
    decreases i
  {
    assert TypeOk(t, i);
    match t[i]
    case Struct(_, _) => ls[i].Layout?
    case Array(_, element) => Known(t, ls, element)
    case _ => true
  }

  /** type_struct_layout can do its work: it computes the structs inside a struct itself, but not
      those inside arrays. */
  ghost predicate Ready(t: Table, ls: seq<Layout>, i: nat)
    requires TableOk(t) && i < |t| == |ls| && t[i].Struct?
    decreases i
  {
    assert TypeOk(t, i);
    forall x | 0 <= x < |t[i].elements| ::
      var e := t[i].elements[x];
      Known(t, ls, e) || (t[e].Struct? && Ready(t, ls, e))
  }

  ghost predicate More(ls: seq<Layout>, ls': seq<Layout>) {
    |ls| == |ls'| && forall i | 0 <= i < |ls| && ls[i].Layout? :: ls'[i].Layout?
  }

  lemma {:induction false} KnownStays(t: Table, ls: seq<Layout>, ls': seq<Layout>, i: nat)
    requires TableOk(t) && i < |t| == |ls| && More(ls, ls') && Known(t, ls, i)
    ensures Known(t, ls', i)
    decreases i
  {
    assert TypeOk(t, i);
    if t[i].Array? {
      KnownStays(t, ls, ls', t[i].element);
    }
  }

  lemma {:induction false} ReadyStays(t: Table, ls: seq<Layout>, ls': seq<Layout>, i: nat)
    requires TableOk(t) && i < |t| == |ls| && More(ls, ls') && t[i].Struct? && Ready(t, ls, i)
    ensures Ready(t, ls', i)
    decreases i
  {
    assert TypeOk(t, i);
    forall x | 0 <= x < |t[i].elements|
      ensures var e := t[i].elements[x]; Known(t, ls', e) || (t[e].Struct? && Ready(t, ls', e))
    {
      var e := t[i].elements[x];
      if Known(t, ls, e) {
        KnownStays(t, ls, ls', e);
      } else {
        ReadyStays(t, ls, ls', e);
      }
    }
  }

  /** In table order everything is ready when its turn comes. */
  lemma {:induction false} KnownInOrder(t: Table, ls: seq<Layout>, i: nat, n: nat)
    requires TableOk(t) && i < n <= |t| == |ls| && forall j | 0 <= j < n && t[j].Struct? :: ls[j].Layout?
    ensures Known(t, ls, i)
    decreases i
  {
    assert TypeOk(t, i);
    if t[i].Array? {
      KnownInOrder(t, ls, t[i].element, n);
    }
  }

  lemma ReadyInOrder(t: Table, ls: seq<Layout>, i: nat)
    requires TableOk(t) && i < |t| == |ls| && t[i].Struct? && forall j | 0 <= j < i && t[j].Struct? :: ls[j].Layout?
    ensures Ready(t, ls, i)
  {
    assert TypeOk(t, i);
    forall x | 0 <= x < |t[i].elements|
      ensures Known(t, ls, t[i].elements[x])
    {
      KnownInOrder(t, ls, t[i].elements[x], i);
    }
  }

  class Types {
    const table: Table
    var layouts: seq<Layout>

    constructor (table: Table)
      requires TableOk(table)
      ensures Valid() && this.table == table && forall i | 0 <= i < |table| :: layouts[i].Unknown?
    {
      this.table := table;
      layouts := seq(|table|, _ => Unknown);
    }

    ghost predicate Valid()
      reads this
    {
      TableOk(table) && |layouts| == |table| && forall i | 0 <= i < |table| :: Right(table, layouts, i)
    }

    /** type_sizeof_ptr */
    method Sizeof(i: nat) returns (r: nat)
      requires Valid() && i < |table| && Known(table, layouts, i)
      ensures r == SizeOf(table, i)
      decreases i
    {
      hide End, MaxAlign, SizeOf, AlignOf, Offset;
      assert TypeOk(table, i) && Right(table, layouts, i);
      SizeCases(table, i);
      if table[i].Void? {
        r := 0;
      } else if table[i].Struct? {
        r := layouts[i].size;
      } else if table[i].Array? {
        r := Sizeof(table[i].element);
        r := r * table[i].num;
      } else {
        r := ScalarSize(table[i]);
      }
    }

    /** type_alignment_ptr */
    method Alignment(i: nat) returns (r: nat)
      requires Valid() && i < |table| && table[i] != Void && Known(table, layouts, i)
      ensures r == AlignOf(table, i)
      decreases i
    {
      hide End, MaxAlign, SizeOf, Offset;
      assert TypeOk(table, i) && Right(table, layouts, i);
      if table[i].Struct? {
        r := layouts[i].alignment;
      } else if table[i].Array? {
        r := Alignment(table[i].element);
      } else {
        r := ScalarSize(table[i]);
      }
    }

    /** type_struct_layout */
    method StructLayout(i: nat)
      requires Valid() && i < |table| && table[i].Struct? && Ready(table, layouts, i)
      modifies this
      ensures Valid() && layouts[i].Layout? && More(old(layouts), layouts)
      decreases i
    {
      hide AlignOf, SizeOf, Right, End, Offset, MaxAlign, Ready, Known, TypeOk, TableOk;
      var offset, ba := 0, 1;
      var elements := table[i].elements;
      var offsets := [];
      NothingPlaced(i);
      for x := 0 to |elements|
        invariant Valid() && More(old(layouts), layouts) && |offsets| == x
        invariant offset == End(table, i, x) && ba == if table[i].packed then 1 else MaxAlign(table, i, x)
        invariant forall y | 0 <= y < x :: offsets[y] == Offset(table, i, y)
      {
        var e := elements[x];
        ElementReady(i, x, old(layouts));
        if table[e].Struct? && layouts[e].Unknown? {
          StructLayout(e);
          NowKnown(e);
        }
        var at;
        at, offset, ba := Place(i, x, offset, ba);
        offsets := offsets + [at];
      }
      var size := if table[i].packed then offset else AlignTo(offset, ba);
      NewLayout(i, offsets, size, ba);
      layouts := layouts[i := Layout(offsets, size, ba)];
    }

    lemma NothingPlaced(i: nat)
      requires TableOk(table) && i < |table| && table[i].Struct?
      ensures End(table, i, 0) == 0 && MaxAlign(table, i, 0) == 1
    {
    }

    lemma NowKnown(e: nat)
      requires TableOk(table) && e < |table| == |layouts| && table[e].Struct? && layouts[e].Layout?
      ensures Known(table, layouts, e)
    {
      assert TypeOk(table, e);
    }

    /** One turn of the loop of type_struct_layout: the place of an element, and where it ends. */
    method Place(i: nat, x: nat, offset: nat, ba: nat) returns (at: nat, end: nat, ba': nat)
      requires Valid() && i < |table| && table[i].Struct? && x < |table[i].elements| && TypeOk(table, i)
      requires Known(table, layouts, table[i].elements[x])
      requires offset == End(table, i, x) && ba == if table[i].packed then 1 else MaxAlign(table, i, x)
      ensures at == Offset(table, i, x) && end == End(table, i, x + 1)
      ensures ba' == if table[i].packed then 1 else MaxAlign(table, i, x + 1)
    {
      hide AlignOf, SizeOf, Right, Known;
      var e := table[i].elements[x];
      var s := Sizeof(e);
      at, ba' := offset, ba;
      if !table[i].packed {
        var a := Alignment(e);
        at := AlignTo(offset, a);
        ba' := if ba > a then ba else a;
      }
      end := at + s;
    }

    /** An element can be measured, or laid out. */
    lemma ElementReady(i: nat, x: nat, before: seq<Layout>)
      requires Valid() && i < |table| && table[i].Struct? && x < |table[i].elements| && |before| == |table|
      requires Ready(table, before, i) && More(before, layouts)
      ensures TypeOk(table, i)
      ensures var e := table[i].elements[x];
              if table[e].Struct? && layouts[e].Unknown? then Ready(table, layouts, e) else Known(table, layouts, e)
    {
      assert TypeOk(table, i);
      var e := table[i].elements[x];
      if Known(table, before, e) {
        KnownStays(table, before, layouts, e);
      } else {
        ReadyStays(table, before, layouts, e);
      }
    }

    lemma NewLayout(i: nat, offsets: seq<nat>, size: nat, ba: nat)
      requires Valid() && i < |table| && table[i].Struct? && |offsets| == |table[i].elements|
      requires forall y | 0 <= y < |offsets| :: offsets[y] == Offset(table, i, y)
      requires ba == if table[i].packed then 1 else MaxAlign(table, i, |offsets|)
      requires size == if table[i].packed then End(table, i, |offsets|) else AlignTo(End(table, i, |offsets|), ba)
      ensures var ls := layouts[i := Layout(offsets, size, ba)]; forall j | 0 <= j < |table| :: Right(table, ls, j)
    {
      var ls := layouts[i := Layout(offsets, size, ba)];
      forall j | 0 <= j < |table|
        ensures Right(table, ls, j)
      {
        assert Right(table, layouts, j);
      }
    }

    /** Every struct has been laid out. */
    ghost predicate Finalized()
      reads this
    {
      Valid() && forall i | 0 <= i < |table| && table[i].Struct? :: layouts[i].Layout?
    }

    /** Then every type has a size, and the stored offsets are those of the layout. */
    lemma LaidOut(i: nat)
      requires Finalized() && i < |table|
      ensures Known(table, layouts, i)
      ensures table[i].Struct? ==> layouts[i].Layout? && |layouts[i].offsets| == |table[i].elements|
      ensures table[i].Struct? ==>
                forall x | 0 <= x < |table[i].elements| :: layouts[i].offsets[x] == Offset(table, i, x)
    {
      KnownInOrder(table, layouts, i, |table|);
      assert Right(table, layouts, i);
    }

    /** types_finalize */
    method Finalize()
      requires Valid()
      modifies this
      ensures Finalized()
    {
      for i := 0 to |table|
        invariant Valid() && forall j | 0 <= j < i && table[j].Struct? :: layouts[j].Layout?
      {
        if table[i].Struct? && layouts[i].Unknown? {
          ReadyInOrder(table, layouts, i);
          StructLayout(i);
        }
      }
    }
  }
}
