/** Address arithmetic: getelementptr as LLVM means it, its evaluation for constants, its lowering
    to LEA instructions, and the forms of LEA the interpreter has. */
module Gep {
  import opened Basics
  import opened Arith
  import opened TypeLayout

  const WORD := 0x1_0000_0000

  type Id = nat
  type Env = map<Id, nat>

  datatype Index = Const(v: nat) | Var(id: Id)

  function Reg(env: Env, id: Id): (r: nat)
    ensures r < WORD
  {
    if id in env then env[id] % WORD else 0
  }

  function IndexValue(env: Env, x: Index): (r: nat)
    ensures r < WORD
  {
    match x
    case Const(v) => v % WORD
    case Var(id) => Reg(env, id)
  }

  // ----- what a getelementptr means -----

  datatype Position = Position(offset: nat, ty: nat)

  function Scaled(x: nat, size: nat): (r: nat) {
    x * size
  }

  /** One index: how far it goes, and to what type. */
  function StepTo(t: Table, ty: nat, x: nat): (r: Option<Position>)
    requires TableOk(t)
  {
    if ty >= |t| then None
    else
      assert TypeOk(t, ty);
      match t[ty]
      case Pointer(pointee) => Some(Position(Scaled(x, SizeOf(t, pointee)), pointee))
      case Array(_, element) => Some(Position(Scaled(x, SizeOf(t, element)), element))
      case Struct(_, elements) => if x < |elements| then Some(Position(Offset(t, ty, x), elements[x])) else None
      case _ => None
  }

  /** The first j indices, one after the other. */
  function Walk(t: Table, ty: nat, xs: seq<nat>, j: nat): (r: Option<Position>)
    requires TableOk(t) && j <= |xs|
  {
    if j == 0 then Some(Position(0, ty))
    else
      match Walk(t, ty, xs, j - 1)
      case None => None
      case Some(p) =>
        match StepTo(t, p.ty, xs[j - 1])
        case None => None
        case Some(q) => Some(Position(p.offset + q.offset, q.ty))
  }

  function Values(env: Env, idx: seq<Index>): (r: seq<nat>)
    ensures |r| == |idx| && forall j | 0 <= j < |idx| :: r[j] == IndexValue(env, idx[j])
  {
    seq(|idx|, j requires 0 <= j < |idx| => IndexValue(env, idx[j]))
  }

  // ----- the walk stays inside the object -----

  /** The type and the index select a part of an object: an element that an array has, or an element of a
      struct. */
  predicate IsPart(t: Table, ty: nat, x: nat) {
    ty < |t| && ((t[ty].Array? && x < t[ty].num) || (t[ty].Struct? && x < |t[ty].elements|))
  }

  /** From the i-th index on the walk goes into parts of the object. */
  ghost predicate IntoParts(t: Table, ty: nat, xs: seq<nat>, i: nat)
    requires TableOk(t)
  {
    forall k | i <= k < |xs| :: Walk(t, ty, xs, k).Some? ==> IsPart(t, Walk(t, ty, xs, k).value.ty, xs[k])
  }

  lemma PartInside(t: Table, ty: nat, x: nat)
    requires TableOk(t) && IsPart(t, ty, x)
    ensures StepTo(t, ty, x).Some? && StepTo(t, ty, x).value.ty < ty
    ensures var q := StepTo(t, ty, x).value; q.offset + SizeOf(t, q.ty) <= SizeOf(t, ty) && t[q.ty] != Void
  {
    hide AlignOf, MaxAlign, End, Offset, AlignTo;
    assert TypeOk(t, ty);
    if t[ty].Struct? {
      ElementInside(t, ty, x);
    } else {
      var s, n := SizeOf(t, t[ty].element), t[ty].num;
      assert SizeOf(t, ty) == s * n;
      hide SizeOf;
      RowInside(x, s, n);
    }
  }

  /** Behind a pointer and in an array objects lie one behind the other, from the beginning on and without gaps,
      and those of an array fill it. */
  lemma RowsTouch(t: Table, ty: nat, x: nat)
    requires TableOk(t) && ty < |t| && (t[ty].Pointer? || t[ty].Array?)
    ensures StepTo(t, ty, 0).Some? && StepTo(t, ty, x).Some? && StepTo(t, ty, x + 1).Some?
    ensures var e := StepTo(t, ty, x).value.ty;
      && e == (if t[ty].Pointer? then t[ty].pointee else t[ty].element) && e < |t|
      && StepTo(t, ty, 0).value == Position(0, e)
      && StepTo(t, ty, x + 1).value == Position(StepTo(t, ty, x).value.offset + SizeOf(t, e), e)
      && (t[ty].Array? && x + 1 == t[ty].num ==> StepTo(t, ty, x).value.offset + SizeOf(t, e) == SizeOf(t, ty))
  {
    assert TypeOk(t, ty);
    var s := SizeOf(t, if t[ty].Pointer? then t[ty].pointee else t[ty].element);
    assert t[ty].Array? ==> SizeOf(t, ty) == s * t[ty].num;
    hide SizeOf, TypeOk;
    NextInRow(x, s);
  }

  lemma NextInRow(x: nat, s: nat)
    ensures Scaled(0, s) == 0 && Scaled(x + 1, s) == Scaled(x, s) + s == s * (x + 1)
  {
  }

  lemma RowInside(x: nat, s: nat, n: nat)
    requires x < n
    ensures Scaled(x, s) + s <= s * n
  {
    MulLe(x + 1, n, s, s);
  }

  lemma ElementInside(t: Table, ty: nat, x: nat)
    requires TableOk(t) && ty < |t| && t[ty].Struct? && x < |t[ty].elements|
    ensures TypeOk(t, ty) && Offset(t, ty, x) + SizeOf(t, t[ty].elements[x]) <= SizeOf(t, ty)
  {
    hide AlignOf, MaxAlign, SizeOf, End, Offset, AlignTo;
    OffsetSteps(t, ty, x);
    EndGrows(t, ty, x + 1, |t[ty].elements|);
    StructSize(t, ty);
  }

  /** What a walk reaches lies inside what it reached before. */
  lemma {:induction false} WalkInside(t: Table, ty: nat, xs: seq<nat>, i: nat, j: nat)
    requires TableOk(t) && i <= j <= |xs| && IntoParts(t, ty, xs, i)
    requires Walk(t, ty, xs, i).Some? && Walk(t, ty, xs, i).value.ty < |t|
    ensures Walk(t, ty, xs, j).Some? && Walk(t, ty, xs, j).value.ty < |t|
    ensures var p, q := Walk(t, ty, xs, i).value, Walk(t, ty, xs, j).value;
            p.offset <= q.offset && q.offset + SizeOf(t, q.ty) <= p.offset + SizeOf(t, p.ty)
    decreases j
  {
    hide SizeOf, StepTo, IsPart;
    if i < j {
      WalkInside(t, ty, xs, i, j - 1);
      PartInside(t, Walk(t, ty, xs, j - 1).value.ty, xs[j - 1]);
      PartExists(t, Walk(t, ty, xs, j - 1).value.ty, xs[j - 1]);
    }
  }

  lemma PartExists(t: Table, ty: nat, x: nat)
    requires IsPart(t, ty, x)
    ensures ty < |t|
  {
  }

  /** Different parts of one object are disjoint. */
  lemma PartsApart(t: Table, ty: nat, x: nat, y: nat)
    requires TableOk(t) && IsPart(t, ty, x) && IsPart(t, ty, y) && x < y
    ensures StepTo(t, ty, x).Some? && StepTo(t, ty, y).Some?
    ensures StepTo(t, ty, x).value.ty < |t| && StepTo(t, ty, y).value.ty < |t|
    ensures var p, q := StepTo(t, ty, x).value, StepTo(t, ty, y).value; p.offset + SizeOf(t, p.ty) <= q.offset
  {
    hide AlignOf, MaxAlign, SizeOf, End, Offset, AlignTo;
    assert TypeOk(t, ty);
    if t[ty].Struct? {
      ElementsApart(t, ty, x, y);
    } else {
      MulLe(x + 1, y, SizeOf(t, t[ty].element), SizeOf(t, t[ty].element));
    }
  }

  lemma {:induction false} SamePrefix(t: Table, ty: nat, xs: seq<nat>, ys: seq<nat>, k: nat)
    requires TableOk(t) && k <= |xs| && k <= |ys| && xs[..k] == ys[..k]
    ensures Walk(t, ty, xs, k) == Walk(t, ty, ys, k)
    decreases k
  {
    hide StepTo;
    if k > 0 {
      assert xs[..k][k - 1] == xs[k - 1] && ys[..k][k - 1] == ys[k - 1];
      assert xs[..k - 1] == xs[..k][..k - 1] && ys[..k - 1] == ys[..k][..k - 1];
      SamePrefix(t, ty, xs, ys, k - 1);
    }
  }

  /** Two paths into one object that part somewhere reach disjoint bytes. */
  lemma WalksApart(t: Table, ty: nat, xs: seq<nat>, ys: seq<nat>, k: nat)
    requires TableOk(t) && k < |xs| && k < |ys| && xs[..k] == ys[..k] && xs[k] < ys[k]
    requires Walk(t, ty, xs, k).Some? && Walk(t, ty, xs, k).value.ty < |t|
    requires IntoParts(t, ty, xs, k) && IntoParts(t, ty, ys, k)
    ensures Walk(t, ty, xs, |xs|).Some? && Walk(t, ty, ys, |ys|).Some?
    ensures Walk(t, ty, xs, |xs|).value.ty < |t| && Walk(t, ty, ys, |ys|).value.ty < |t|
    ensures var p, q := Walk(t, ty, xs, |xs|).value, Walk(t, ty, ys, |ys|).value;
            p.offset + SizeOf(t, p.ty) <= q.offset
  {
    hide SizeOf, StepTo, IsPart;
    SamePrefix(t, ty, xs, ys, k);
    PartsApart(t, Walk(t, ty, xs, k).value.ty, xs[k], ys[k]);
    WalkInside(t, ty, xs, k + 1, |xs|);
    WalkInside(t, ty, ys, k + 1, |ys|);
  }

  /** The walk only goes through pointers to objects and through unpacked structs. */
  ghost predicate Unpacked(t: Table, ty: nat, xs: seq<nat>)
    requires TableOk(t)
  {
    forall k | 0 <= k < |xs| && Walk(t, ty, xs, k).Some? :: StepAligned(t, Walk(t, ty, xs, k).value.ty)
  }

  predicate StepAligned(t: Table, ty: nat) {
    ty < |t| ==> match t[ty]
                 case Struct(packed, _) => !packed
                 case Pointer(pointee) => pointee < |t| && t[pointee] != Void
                 case _ => true
  }

  /** The alignment that the address of a part has if the object is aligned; for a pointer that of what it
      points to. */
  function AlignAt(t: Table, ty: nat): (r: nat)
    requires TableOk(t)
    ensures IsAlignment(r)
  {
    if ty >= |t| || t[ty] == Void then 1 else AlignOf(t, ty)
  }

  lemma StepKeepsAligned(t: Table, ty: nat, x: nat, addr: nat)
    requires TableOk(t) && StepTo(t, ty, x).Some? && StepAligned(t, ty) && !t[ty].Pointer?
    requires addr % AlignAt(t, ty) == 0
    ensures (addr + StepTo(t, ty, x).value.offset) % AlignAt(t, StepTo(t, ty, x).value.ty) == 0
  {
    hide MaxAlign, SizeOf, End, Offset, AlignTo;
    assert TypeOk(t, ty);
    if t[ty].Struct? {
      FieldAligned(t, ty, x, addr);
    } else {
      RowAligned(t, t[ty].element, x, addr);
    }
  }

  /** Objects in a row are as aligned as the first. */
  lemma RowAligned(t: Table, e: nat, x: nat, addr: nat)
    requires TableOk(t) && e < |t| && t[e] != Void && addr % AlignOf(t, e) == 0
    ensures (addr + Scaled(x, SizeOf(t, e))) % AlignOf(t, e) == 0
  {
    hide AlignOf, SizeOf, IsAlignment;
    var a, s := AlignOf(t, e), SizeOf(t, e);
    assert a > 0 by {
      AlignPositive(t, e);
    }
    SizeIsAligned(t, e);
    Multiple(s, x, a);
    assert s * x == Scaled(x, s);
    AddMod(addr, Scaled(x, s), a);
  }

  lemma AlignPositive(t: Table, e: nat)
    requires TableOk(t) && e < |t| && t[e] != Void
    ensures AlignOf(t, e) > 0
  {
    hide AlignOf;
  }

  /** A path whose first index counts whole objects behind a pointer and whose other indices go into unpacked
      parts reaches an aligned address, if the pointer is aligned. */
  lemma {:induction false} WalkAligned(t: Table, ty: nat, xs: seq<nat>, j: nat, addr: nat)
    requires TableOk(t) && 1 <= j <= |xs| && ty < |t| && t[ty].Pointer? && IntoParts(t, ty, xs, 1)
              && Unpacked(t, ty, xs)
    requires addr % AlignAt(t, t[ty].pointee) == 0
    ensures Walk(t, ty, xs, j).Some?
    ensures (addr + Walk(t, ty, xs, j).value.offset) % AlignAt(t, Walk(t, ty, xs, j).value.ty) == 0
    decreases j
  {
    hide SizeOf, AlignOf;
    assert TypeOk(t, ty) && Walk(t, ty, xs, 0) == Some(Position(0, ty));
    if j == 1 {
      RowAligned(t, t[ty].pointee, xs[0], addr);
    } else {
      WalkAligned(t, ty, xs, j - 1, addr);
      var p := Walk(t, ty, xs, j - 1).value;
      hide StepTo;
      PartInside(t, p.ty, xs[j - 1]);
      StepKeepsAligned(t, p.ty, xs[j - 1], addr + p.offset);
    }
  }

  /** Addresses are taken modulo 2^32, which every alignment divides. */
  lemma WordAligned(addr: nat, a: nat)
    requires IsAlignment(a)
    ensures addr % WORD % a == 0 <==> addr % a == 0
  {
    if a == 2 {
    } else if a == 4 {
    } else if a == 8 {
    }
  }

  /** So the address that folding gives and code computes is aligned. */
  lemma AddressAligned(t: Table, ty: nat, xs: seq<nat>, addr: nat)
    requires TableOk(t) && 1 <= |xs| && ty < |t| && t[ty].Pointer? && IntoParts(t, ty, xs, 1) && Unpacked(t, ty, xs)
    requires addr % AlignAt(t, t[ty].pointee) == 0
    ensures Walk(t, ty, xs, |xs|).Some?
    ensures var p := Walk(t, ty, xs, |xs|).value; (addr + p.offset) % WORD % AlignAt(t, p.ty) == 0
  {
    hide AlignAt, Walk, IsAlignment;
    WalkAligned(t, ty, xs, |xs|, addr);
    var p := Walk(t, ty, xs, |xs|).value;
    WordAligned(addr + p.offset, AlignAt(t, p.ty));
  }

  /** When the walk ends early there is an index that is no part of a struct, or one for a type that has none. */
  lemma {:induction false} WalkFails(t: Table, ty: nat, xs: seq<nat>, j: nat) returns (k: nat)
    requires TableOk(t) && j <= |xs| && Walk(t, ty, xs, j).None?
    ensures k < j && Walk(t, ty, xs, k).Some?
    ensures var cur := Walk(t, ty, xs, k).value.ty;
            cur < |t| ==> !t[cur].Pointer? && !t[cur].Array? && (t[cur].Struct? ==> xs[k] >= |t[cur].elements|)
    decreases j
  {
    hide SizeOf, Offset;
    if Walk(t, ty, xs, j - 1).Some? {
      k := j - 1;
    } else {
      k := WalkFails(t, ty, xs, j - 1);
    }
  }

  // ----- constant folding -----

  /** One index in the way of eval_constexpr and replace_gep_with_lea: sizes are computed, offsets in structs
      have been stored. */
  method StepOver(types: Types, ty: nat, x: nat) returns (r: Option<Position>)
    requires types.Finalized()
    ensures r == StepTo(types.table, ty, x)
  {
    hide SizeOf, Offset, Known;
    if ty >= |types.table| {
      return None;
    }
    assert TypeOk(types.table, ty);
    types.LaidOut(ty);
    match types.table[ty] {
      case Pointer(pointee) =>
        types.LaidOut(pointee);
        var s := types.Sizeof(pointee);
        r := Some(Position(Scaled(x, s), pointee));
      case Array(_, element) =>
        types.LaidOut(element);
        var s := types.Sizeof(element);
        r := Some(Position(Scaled(x, s), element));
      case Struct(_, elements) =>
        r := if x < |elements| then Some(Position(types.layouts[ty].offsets[x], elements[x])) else None;
      case _ =>
        r := None;
    }
  }

  /** The GEP case of eval_constexpr; None stands for a parser error. */
  method Fold(types: Types, ty: nat, addr: nat, xs: seq<nat>) returns (r: Option<Position>)
    requires types.Finalized() && addr < WORD
    ensures r.None? <==> Walk(types.table, ty, xs, |xs|).None?
    ensures r.Some? ==> r.value.ty == Walk(types.table, ty, xs, |xs|).value.ty
    ensures r.Some? ==> r.value.offset == (addr + Walk(types.table, ty, xs, |xs|).value.offset) % WORD
  {
    hide SizeOf, Offset, StepTo;
    ghost var t := types.table;
    var at, cur := addr, ty;
    ghost var total: nat := 0;
    for i := 0 to |xs|
      invariant Walk(t, ty, xs, i) == Some(Position(total, cur)) && at == (addr + total) % WORD
    {
      var step := StepOver(types, cur, xs[i]);
      match step {
        case None =>
          NoWay(t, ty, xs, i + 1, |xs|);
          return None;
        case Some(q) =>
          AddWord(addr + total, q.offset);
          at, cur, total := (at + q.offset) % WORD, q.ty, total + q.offset;
      }
    }
    r := Some(Position(at, cur));
  }

  lemma {:induction false} NoWay(t: Table, ty: nat, xs: seq<nat>, i: nat, j: nat)
    requires TableOk(t) && i <= j <= |xs| && Walk(t, ty, xs, i).None?
    ensures Walk(t, ty, xs, j).None?
    decreases j
  {
    if i < j {
      NoWay(t, ty, xs, i, j - 1);
    }
  }

  lemma AddWord(a: nat, b: nat)
    ensures (a % WORD + b) % WORD == (a + b) % WORD
  {
  }

  // ----- lowering -----

  datatype Base = Temp(id: Id) | Fixed(addr: nat)

  /** Move of a constant into a register, and LEA. */
  datatype Ins = MoveConst(dst: Id, v: nat) | Lea(dst: Id, base: Id, imm: nat, off: Option<Id>, mul: nat)

  function BaseValue(env: Env, b: Base): (r: nat) {
    match b
    case Temp(id) => Reg(env, id)
    case Fixed(addr) => addr % WORD
  }

  function OffValue(env: Env, off: Option<Id>): (r: nat) {
    match off
    case None => 0
    case Some(id) => Reg(env, id)
  }

  function LeaValue(base: nat, imm: nat, off: nat, mul: nat): (r: nat)
    ensures r < WORD
  {
    (base + imm + off * mul) % WORD
  }

  function Exec(env: Env, i: Ins): (r: Env) {
    match i
    case MoveConst(dst, v) => env[dst := v % WORD]
    case Lea(dst, base, imm, off, mul) => env[dst := LeaValue(Reg(env, base), imm, OffValue(env, off), mul)]
  }

  function ExecAll(env: Env, code: seq<Ins>): (r: Env) {
    if code == [] then env else Exec(ExecAll(env, code[..|code| - 1]), code[|code| - 1])
  }

  lemma ExecPush(env: Env, code: seq<Ins>, i: Ins)
    ensures ExecAll(env, code + [i]) == Exec(ExecAll(env, code), i)
  {
    assert (code + [i])[..|code + [i]| - 1] == code;
  }

  /** The type that the j-th index applies to, as parse_gep records it. */
  function TypeAt(t: Table, ty: nat, idx: seq<Index>, j: nat): (r: Option<nat>)
    requires TableOk(t) && j <= |idx|
  {
    if j == 0 then Some(ty)
    else
      match TypeAt(t, ty, idx, j - 1)
      case None => None
      case Some(cur) =>
        if cur >= |t| then None
        else if t[cur].Pointer? then Some(t[cur].pointee)
        else if t[cur].Array? then Some(t[cur].element)
        else if t[cur].Struct? && idx[j - 1].Const? && idx[j - 1].v % WORD < |t[cur].elements|
        then Some(t[cur].elements[idx[j - 1].v % WORD])
        else None
  }

  /** The indices that can be lowered: struct indices are constants in range, and a pointer is not
      indexed by a register when another register has been used before. */
  ghost predicate Lowerable(t: Table, ty: nat, idx: seq<Index>, j: nat)
    requires TableOk(t) && j <= |idx|
  {
    TypeAt(t, ty, idx, j).Some? &&
    forall k | 0 <= k < j && idx[k].Var? && OnPointer(t, TypeAt(t, ty, idx, k)) ::
      forall i | 0 <= i < k :: idx[i].Const?
  }

  predicate OnPointer(t: Table, cur: Option<nat>) {
    cur.Some? && cur.value < |t| && t[cur.value].Pointer?
  }

  /** After j indices: running the code so far, the LEA that is pending gives the address, and no
      value below limit has changed. */
  ghost predicate Pending(env: Env, t: Table, ty: nat, base: Base, idx: seq<Index>, j: nat, code: seq<Ins>,
                          cur: Base, imm: nat, off: Option<Id>, mul: nat, limit: Id)
    requires TableOk(t) && j <= |idx|
  {
    var env' := ExecAll(env, code);
    var w := Walk(t, ty, Values(env, idx), j);
    && (forall id | 0 <= id < limit :: Reg(env', id) == Reg(env, id))
    && w.Some? && TypeAt(t, ty, idx, j) == Some(w.value.ty)
    && LeaValue(BaseValue(env', cur), imm, OffValue(env', off), mul) == (BaseValue(env, base) + w.value.offset) % WORD
  }

  lemma PendingStart(env: Env, t: Table, ty: nat, base: Base, idx: seq<Index>, limit: Id)
    requires TableOk(t)
    ensures Pending(env, t, ty, base, idx, 0, [], base, 0, None, 0, limit)
  {
  }

  /** A constant index, and a struct index. */
  lemma AddConst(env: Env, t: Table, ty: nat, base: Base, idx: seq<Index>, j: nat, code: seq<Ins>,
                 cur: Base, imm: nat, off: Option<Id>, mul: nat, limit: Id, q: Position)
    requires TableOk(t) && j < |idx| && Pending(env, t, ty, base, idx, j, code, cur, imm, off, mul, limit)
    requires idx[j].Const? && StepTo(t, TypeAt(t, ty, idx, j).value, idx[j].v % WORD) == Some(q)
    ensures Pending(env, t, ty, base, idx, j + 1, code, cur, (imm + q.offset) % WORD, off, mul, limit)
  {
    hide StepTo, TypeAt, ExecAll, LeaValue, Reg;
    var env' := ExecAll(env, code);
    var w := Walk(t, ty, Values(env, idx), j).value;
    assert Values(env, idx)[j] == idx[j].v % WORD;
    TypeStep(t, ty, idx, j, q);
    ShiftOnto(BaseValue(env', cur), imm, OffValue(env', off), mul, q.offset, BaseValue(env, base) + w.offset);
  }

  lemma TypeStep(t: Table, ty: nat, idx: seq<Index>, j: nat, q: Position)
    requires TableOk(t) && j < |idx| && idx[j].Const? && TypeAt(t, ty, idx, j).Some?
    requires StepTo(t, TypeAt(t, ty, idx, j).value, idx[j].v % WORD) == Some(q)
    ensures TypeAt(t, ty, idx, j + 1) == Some(q.ty)
  {
    hide SizeOf, Offset, Scaled;
  }

  lemma ShiftOnto(b: nat, imm: nat, x: nat, mul: nat, d: nat, goal: nat)
    requires LeaValue(b, imm, x, mul) == goal % WORD
    ensures LeaValue(b, (imm + d) % WORD, x, mul) == (goal + d) % WORD
  {
    Shift(b, imm, x * mul, d, goal);
  }

  lemma Shift(b: nat, imm: nat, y: nat, d: nat, goal: nat)
    requires (b + imm + y) % WORD == goal % WORD
    ensures (b + (imm + d) % WORD + y) % WORD == (goal + d) % WORD
  {
  }

  /** A register index when none is pending. */
  lemma AddVar(env: Env, t: Table, ty: nat, base: Base, idx: seq<Index>, j: nat, code: seq<Ins>,
               cur: Base, imm: nat, off: Option<Id>, mul: nat, limit: Id, inner: nat)
    requires TableOk(t) && j < |idx| && Pending(env, t, ty, base, idx, j, code, cur, imm, off, mul, limit)
    requires off.None? && idx[j].Var? && idx[j].id < limit
    requires var c := TypeAt(t, ty, idx, j).value;
              c < |t| && ((t[c].Pointer? && inner == t[c].pointee) || (t[c].Array? && inner == t[c].element))
    requires inner < |t|
    ensures Pending(env, t, ty, base, idx, j + 1, code, cur, imm, Some(idx[j].id), SizeOf(t, inner), limit)
  {
    hide SizeOf, Offset, ExecAll, Reg, LeaValue;
    var env' := ExecAll(env, code);
    var w := Walk(t, ty, Values(env, idx), j).value;
    var x, s := Reg(env, idx[j].id), SizeOf(t, inner);
    assert Values(env, idx)[j] == x && Reg(env', idx[j].id) == x;
    assert StepTo(t, w.ty, x) == Some(Position(x * s, inner));
    ScaleOnto(BaseValue(env', cur), imm, mul, x, s, BaseValue(env, base) + w.offset);
  }

  lemma ScaleOnto(b: nat, imm: nat, mul: nat, x: nat, s: nat, goal: nat)
    requires LeaValue(b, imm, 0, mul) == goal % WORD
    ensures LeaValue(b, imm, x, s) == (goal + x * s) % WORD
  {
    assert 0 * mul == 0;
    AddWord(b + imm, x * s);
    AddWord(goal, x * s);
  }

  /** emit_interim_lea and registerify: the pending register is added to the base. */
  lemma Interim(env: Env, t: Table, ty: nat, base: Base, idx: seq<Index>, j: nat, code: seq<Ins>, code': seq<Ins>,
                cur: Base, imm: nat, off: Option<Id>, mul: nat, limit: Id, reg: Id, dst: Id)
    requires TableOk(t) && j <= |idx| && Pending(env, t, ty, base, idx, j, code, cur, imm, off, mul, limit)
    requires Registered(env, code, code', cur, limit, reg) && dst >= limit
    requires off.Some? ==> off.value < limit
    ensures Pending(env, t, ty, base, idx, j, code' + [Lea(dst, reg, 0, off, mul)], Temp(dst), imm, None, 0, limit)
  {
    hide Walk, TypeAt, ExecAll, Values, LeaValue, Reg;
    ExecPush(env, code', Lea(dst, reg, 0, off, mul));
    var env0, env1 := ExecAll(env, code), ExecAll(env, code');
    var b, x := BaseValue(env0, cur), OffValue(env0, off);
    assert OffValue(env1, off) == x && Reg(env1, reg) == b;
    var v := LeaValue(b, 0, x, mul);
    var env2 := env1[dst := v];
    assert env2 == ExecAll(env, code' + [Lea(dst, reg, 0, off, mul)]);
    forall id
      ensures Reg(env2, id) == if id == dst then v else Reg(env1, id)
    {
      RegWritten(env1, dst, v, id);
    }
    assert BaseValue(env2, Temp(dst)) == v && OffValue(env2, None) == 0;
    InTwoParts(b, x, mul, imm);
  }

  lemma RegWritten(env: Env, dst: Id, v: nat, id: Id)
    requires v < WORD
    ensures Reg(env[dst := v], id) == if id == dst then v else Reg(env, id)
  {
  }

  lemma InTwoParts(b: nat, x: nat, mul: nat, imm: nat)
    ensures LeaValue(LeaValue(b, 0, x, mul), imm, 0, 0) == LeaValue(b, imm, x, mul)
  {
    var y := x * mul;
    var v := (b + y) % WORD;
    assert 0 * 0 == 0;
    assert LeaValue(b, 0, x, mul) == v && LeaValue(v, imm, 0, 0) == (v + imm) % WORD;
    assert LeaValue(b, imm, x, mul) == (b + imm + y) % WORD;
    AddWord(b + y, imm);
  }

  /** The base is in register reg after code', which has not changed anything below limit. */
  ghost predicate Registered(env: Env, code: seq<Ins>, code': seq<Ins>, cur: Base, limit: Id, reg: Id) {
    var before, after := ExecAll(env, code), ExecAll(env, code');
    && Reg(after, reg) == BaseValue(before, cur)
    && forall id | 0 <= id < limit :: Reg(after, id) == Reg(before, id)
  }

  /** registerify */
  method Registerify(cur: Base, code: seq<Ins>, next: Id, limit: Id) returns (reg: Id, code': seq<Ins>, next': Id)
    requires limit <= next && (cur.Temp? ==> cur.id < next)
    ensures next <= next' && reg < next'
    ensures forall env :: Registered(env, code, code', cur, limit, reg)
    ensures |code'| == |code| + if cur.Fixed? then 1 else 0
  {
    match cur {
      case Temp(id) =>
        reg, code', next' := id, code, next;
      case Fixed(addr) =>
        reg, next' := next, next + 1;
        code' := code + [MoveConst(reg, addr)];
        forall env
          ensures Registered(env, code, code', cur, limit, reg)
        {
          ExecPush(env, code, MoveConst(reg, addr));
        }
    }
  }

  /** The address the instruction stands for. */
  function Address(env: Env, t: Table, ty: nat, base: Base, idx: seq<Index>): (r: Option<nat>)
    requires TableOk(t)
  {
    match Walk(t, ty, Values(env, idx), |idx|)
    case None => None
    case Some(p) => Some((BaseValue(env, base) + p.offset) % WORD)
  }

  /** The code computes the address into dst and changes nothing else below limit. */
  ghost predicate Computes(env: Env, code: seq<Ins>, dst: Id, limit: Id, addr: Option<nat>) {
    var env' := ExecAll(env, code);
    addr == Some(Reg(env', dst)) && forall id | 0 <= id < limit && id != dst :: Reg(env', id) == Reg(env, id)
  }

  lemma Finish(env: Env, t: Table, ty: nat, base: Base, idx: seq<Index>, code: seq<Ins>, code': seq<Ins>,
               cur: Base, imm: nat, off: Option<Id>, mul: nat, limit: Id, reg: Id, dst: Id)
    requires TableOk(t) && Pending(env, t, ty, base, idx, |idx|, code, cur, imm, off, mul, limit)
    requires Registered(env, code, code', cur, limit, reg)
    requires off.Some? ==> off.value < limit
    ensures Computes(env, code' + [Lea(dst, reg, imm, off, mul)], dst, limit, Address(env, t, ty, base, idx))
  {
    hide Walk, TypeAt, ExecAll, Values;
    ExecPush(env, code', Lea(dst, reg, imm, off, mul));
  }

  /** replace_gep_with_lea; false stands for a parser error or abort.  dst is the value the
      instruction defines, next the first unused one. */
  method ReplaceGep(types: Types, ty: nat, base: Base, idx: seq<Index>, dst: Id, next: Id)
    returns (ok: bool, code: seq<Ins>, next': Id)
    requires types.Finalized() && (base.Temp? ==> base.id < next) && dst < next
    requires forall j | 0 <= j < |idx| && idx[j].Var? :: idx[j].id < next
    ensures ok <==> Lowerable(types.table, ty, idx, |idx|)
    ensures ok ==> next <= next' && forall env ::
              Computes(env, code, dst, next, Address(env, types.table, ty, base, idx))
    ensures ok ==> |code| == CodeSize(base, Registers(idx, |idx|))
  {
    hide SizeOf, Offset, ExecAll, Walk, Pending, Lowerable, TypeAt, StepTo, Registered, Known, TypeOk;
    var t := types.table;
    ok, code, next' := true, [], next;
    var imm: nat, off: Option<Id>, mul: nat, cur, at := 0, None, 0, base, ty;
    forall env
      ensures Pending(env, t, ty, base, idx, 0, [], base, 0, None, 0, next)
    {
      PendingStart(env, t, ty, base, idx, next);
    }
    LowerableStart(t, ty, idx);
    for j := 0 to |idx|
      invariant next <= next' && (cur.Temp? ==> cur.id < next') && (off.Some? ==> off.value < next)
      invariant Lowerable(t, ty, idx, j) && TypeAt(t, ty, idx, j) == Some(at)
      invariant off.Some? <==> exists i | 0 <= i < j :: idx[i].Var?
      invariant off.Some? <==> Registers(idx, j) > 0
      invariant cur.Fixed? <==> base.Fixed? && Registers(idx, j) < 2
      invariant |code| == (if base.Fixed? && !cur.Fixed? then 1 else 0) + if off.Some? then Registers(idx, j) - 1 else 0
      invariant forall env :: Pending(env, t, ty, base, idx, j, code, cur, imm, off, mul, next)
    {
      LowerableStep(t, ty, idx, j, at, off.Some?);
      if !CanLower(t, at, idx[j], off.Some?) {
        NotLowerable(t, ty, idx, j);
        return false, [], next;
      }
      ghost var j1 := j + 1;
      match idx[j] {
        case Const(v) =>
          var step := StepOver(types, at, v % WORD);
          var q := step.value;
          var sum := (imm + q.offset) % WORD;
          forall env
            ensures Pending(env, t, ty, base, idx, j1, code, cur, sum, off, mul, next)
          {
            AddConst(env, t, ty, base, idx, j, code, cur, imm, off, mul, next, q);
          }
          imm := sum;
          at := q.ty;
        case Var(id) =>
          var inner := if t[at].Pointer? then t[at].pointee else t[at].element;
          if off.Some? {
            ghost var code0, cur0 := code, cur;
            var reg;
            reg, code, next' := Registerify(cur, code, next', next);
            ghost var code1, dst1, off1, mul1 := code, next', off, mul;
            code, cur, next' := code + [Lea(next', reg, 0, off, mul)], Temp(next'), next' + 1;
            off, mul := None, 0;
            forall env
              ensures Pending(env, t, ty, base, idx, j, code, cur, imm, off, mul, next)
            {
              Interim(env, t, ty, base, idx, j, code0, code1, cur0, imm, off1, mul1, next, reg, dst1);
            }
          }
          InnerKnown(t, at);
          types.LaidOut(inner);
          var scale := types.Sizeof(inner);
          var pending := Some(id);
          forall env
            ensures Pending(env, t, ty, base, idx, j1, code, cur, imm, pending, scale, next)
          {
            AddVar(env, t, ty, base, idx, j, code, cur, imm, off, mul, next, inner);
          }
          off, mul, at := pending, scale, inner;
      }
    }
    ghost var code0, cur0 := code, cur;
    var reg;
    reg, code, next' := Registerify(cur, code, next', next);
    ghost var code1 := code;
    code := code + [Lea(dst, reg, imm, off, mul)];
    forall env
      ensures Computes(env, code, dst, next, Address(env, t, ty, base, idx))
    {
      Finish(env, t, ty, base, idx, code0, code1, cur0, imm, off, mul, next, reg, dst);
    }
  }

  /** The checks for one index. */
  predicate CanLower(t: Table, at: nat, x: Index, seen: bool) {
    && at < |t|
    && (match t[at]
        case Pointer(_) => x.Var? ==> !seen
        case Array(_, _) => true
        case Struct(_, elements) => x.Const? && x.v % WORD < |elements|
        case _ => false)
  }

  /** One LEA for each register index, at least one, and a move if the base is a constant. */
  function CodeSize(base: Base, registers: nat): (r: nat) {
    (if base.Fixed? then 1 else 0) + if registers > 1 then registers else 1
  }

  /** How many of the first j indices are in registers. */
  function Registers(idx: seq<Index>, j: nat): (r: nat)
    requires j <= |idx|
  {
    if j == 0 then 0 else Registers(idx, j - 1) + if idx[j - 1].Var? then 1 else 0
  }

  lemma InnerKnown(t: Table, at: nat)
    requires TableOk(t) && at < |t| && (t[at].Pointer? || t[at].Array?)
    ensures (if t[at].Pointer? then t[at].pointee else t[at].element) < |t|
  {
    assert TypeOk(t, at);
  }

  lemma LowerableStart(t: Table, ty: nat, idx: seq<Index>)
    requires TableOk(t)
    ensures Lowerable(t, ty, idx, 0) && TypeAt(t, ty, idx, 0) == Some(ty)
  {
  }

  lemma LowerableStep(t: Table, ty: nat, idx: seq<Index>, j: nat, at: nat, seen: bool)
    requires TableOk(t) && j < |idx| && Lowerable(t, ty, idx, j) && TypeAt(t, ty, idx, j) == Some(at)
    requires seen <==> exists i | 0 <= i < j :: idx[i].Var?
    ensures Lowerable(t, ty, idx, j + 1) <==> CanLower(t, at, idx[j], seen)
    ensures CanLower(t, at, idx[j], seen) ==> TypeOk(t, at)
    ensures CanLower(t, at, idx[j], seen) && idx[j].Const? ==>
              var q := StepTo(t, at, idx[j].v % WORD); q.Some? && TypeAt(t, ty, idx, j + 1) == Some(q.value.ty)
    ensures CanLower(t, at, idx[j], seen) && idx[j].Var? ==>
              TypeAt(t, ty, idx, j + 1) == Some(if t[at].Pointer? then t[at].pointee else t[at].element)
  {
    hide SizeOf, Offset;
    if at < |t| {
      assert TypeOk(t, at);
    }
    assert TypeAt(t, ty, idx, j + 1).Some? ==> at < |t|;
  }

  lemma {:induction false} NotLowerable(t: Table, ty: nat, idx: seq<Index>, j: nat)
    requires TableOk(t) && j < |idx| && !Lowerable(t, ty, idx, j + 1)
    ensures !Lowerable(t, ty, idx, |idx|)
  {
    if TypeAt(t, ty, idx, j + 1).None? {
      NoTypeLater(t, ty, idx, j + 1, |idx|);
    }
  }

  lemma {:induction false} NoTypeLater(t: Table, ty: nat, idx: seq<Index>, i: nat, j: nat)
    requires TableOk(t) && i <= j <= |idx| && TypeAt(t, ty, idx, i).None?
    ensures TypeAt(t, ty, idx, j).None?
    decreases j
  {
    if i < j {
      NoTypeLater(t, ty, idx, i, j - 1);
    }
  }

  /** The recorded types of constant indices are those of the walk. */
  lemma {:induction false} ConstTypes(t: Table, ty: nat, idx: seq<Index>, xs: seq<nat>, j: nat)
    requires TableOk(t) && j <= |xs| == |idx| && forall k | 0 <= k < |idx| :: idx[k] == Const(xs[k]) && xs[k] < WORD
    ensures TypeAt(t, ty, idx, j).Some? <==> Walk(t, ty, xs, j).Some?
    ensures Walk(t, ty, xs, j).Some? ==> TypeAt(t, ty, idx, j).value == Walk(t, ty, xs, j).value.ty
    decreases j
  {
    hide SizeOf, Offset;
    if j > 0 {
      ConstTypes(t, ty, idx, xs, j - 1);
      Small(xs[j - 1], WORD);
    }
  }

  lemma ConstValues(env: Env, idx: seq<Index>, xs: seq<nat>)
    requires |xs| == |idx| && forall k | 0 <= k < |idx| :: idx[k] == Const(xs[k]) && xs[k] < WORD
    ensures Values(env, idx) == xs
  {
    forall j | 0 <= j < |idx|
      ensures Values(env, idx)[j] == xs[j]
    {
      Small(xs[j], WORD);
    }
  }

  /** Folding a constant path and lowering it to code both succeed or both fail, and when they succeed
      the code computes the address that folding gives. */
  method FoldingAgrees(types: Types, ty: nat, addr: nat, xs: seq<nat>, dst: Id, next: Id)
    returns (folded: Option<Position>, ok: bool, code: seq<Ins>)
    requires types.Finalized() && addr < WORD && dst < next && forall k | 0 <= k < |xs| :: xs[k] < WORD
    ensures ok <==> folded.Some?
    ensures ok ==> forall env :: Reg(ExecAll(env, code), dst) == folded.value.offset
  {
    hide Walk, TypeAt, ExecAll;
    ghost var t := types.table;
    var idx := seq(|xs|, k requires 0 <= k < |xs| => Const(xs[k]));
    folded := Fold(types, ty, addr, xs);
    var next';
    ok, code, next' := ReplaceGep(types, ty, Fixed(addr), idx, dst, next);
    ConstTypes(t, ty, idx, xs, |xs|);
    Small(addr, WORD);
    forall env | ok
      ensures Reg(ExecAll(env, code), dst) == folded.value.offset
    {
      assert Computes(env, code, dst, next, Address(env, t, ty, Fixed(addr), idx));
      ConstValues(env, idx, xs);
    }
  }

  // ----- emit_lea -----

  datatype LeaOp = AddConstant(imm: nat) | Shl(shift: nat) | Shl2 | ShlOff(shift: nat, imm: nat)
    | MulOff(mul: nat, imm: nat)

  /** ffs: the position of the lowest one bit. */
  function LowestOne(n: nat): (r: nat)
    requires n > 0
  {
    if n % 2 == 1 then 0 else LowestOne(n / 2) + 1
  }

  /** Shifting one by it gives the number exactly if the number is a power of two. */
  lemma {:induction false} ShiftTest(n: nat)
    requires n > 0
    ensures Pow2(LowestOne(n)) == n <==> exists k: nat :: n == Pow2(k)
  {
    if k: nat :| n == Pow2(k) {
      FfsOfPower(k);
    } else {
      assert Pow2(LowestOne(n)) != n;
    }
  }

  lemma {:induction false} FfsOfPower(k: nat)
    ensures LowestOne(Pow2(k)) == k
  {
    if k > 0 {
      FfsOfPower(k - 1);
      assert Pow2(k) % 2 == 0 && Pow2(k) / 2 == Pow2(k - 1);
    }
  }

  /** The form emit_lea chooses; a register must have a multiplier. */
  function Choose(off: bool, mul: nat, imm: nat): (r: LeaOp)
    requires off ==> mul > 0
  {
    if !off then AddConstant(imm)
    else
      var fb := LowestOne(mul);
      if Pow2(fb) == mul then
        if imm != 0 then ShlOff(fb, imm) else if fb == 2 then Shl2 else Shl(fb)
      else MulOff(mul, imm)
  }

  /** What the interpreter computes for each. */
  function EvalLea(op: LeaOp, base: nat, off: nat): (r: nat) {
    match op
    case AddConstant(imm) => (base + imm) % WORD
    case Shl(shift) => (base + off * Pow2(shift) % WORD) % WORD
    case Shl2 => (base + off * 4 % WORD) % WORD
    case ShlOff(shift, imm) => (base + off * Pow2(shift) % WORD + imm) % WORD
    case MulOff(mul, imm) => (base + off * mul % WORD + imm) % WORD
  }

  /** Every form gives the address. */
  lemma LeaFormsAgree(off: bool, mul: nat, imm: nat, base: nat, x: nat)
    requires off ==> mul > 0
    ensures EvalLea(Choose(off, mul, imm), base, x) == LeaValue(base, imm, if off then x else 0, mul)
  {
    if !off {
      assert 0 * mul == 0;
    } else {
      assert Pow2(2) == 4;
      Reduced(base, x * mul, imm);
    }
  }

  lemma Reduced(base: nat, y: nat, imm: nat)
    ensures (base + y % WORD + imm) % WORD == (base + imm + y) % WORD
    ensures (base + y % WORD) % WORD == (base + y) % WORD
  {
  }

  // ----- LEA inside a load or store -----

  /** A 16-bit field, sign extended to 32 bits. */
  function Extend16(w: nat): (r: nat) {
    if w < 0x8000 then w else w + (WORD - 0x1_0000)
  }

  /** What LOAD..._ROFF computes from the fields that were written. */
  function RoffAddress(base: nat, imm: nat, off: nat, mul: nat): (r: nat) {
    (base + Extend16(imm % 0x1_0000) + off * Extend16(mul % 0x1_0000)) % WORD
  }

  /** A 32-bit number that a signed 16-bit field can hold; merge_lea_into_load checks it for the
      offset, but not for the multiplier. */
  predicate Fits16(v: nat) {
    v < 0x8000 || WORD - 0x8000 <= v
  }

  lemma Extend16Is(v: nat)
    requires v < WORD
    ensures Extend16(v % 0x1_0000) == v <==> Fits16(v)
  {
    var h, l := v / 0x1_0000, v % 0x1_0000;
    assert v == h * 0x1_0000 + l;
  }

  /** With an offset in range, the load addresses what the LEA gave for every base and index
      exactly if the multiplier is in range too. */
  lemma RoffIsLea(imm: nat, mul: nat)
    requires imm < WORD && mul < WORD && Fits16(imm)
    ensures (forall base, off: nat :: RoffAddress(base, imm, off, mul) == LeaValue(base, imm, off, mul)) <==>
              Fits16(mul)
    ensures !Fits16(mul) ==> RoffAddress(0, imm, 1, mul) != LeaValue(0, imm, 1, mul)
  {
    Extend16Is(imm);
    Extend16Is(mul);
    if !Fits16(mul) {
      var e := Extend16(mul % 0x1_0000);
      assert 1 * e == e && 1 * mul == mul;
      OtherResidue(imm, e, mul);
      assert RoffAddress(0, imm, 1, mul) != LeaValue(0, imm, 1, mul);
    }
  }

  lemma OtherResidue(imm: nat, e: nat, mul: nat)
    requires e < WORD && mul < WORD && e != mul
    ensures (imm + e) % WORD != (imm + mul) % WORD
  {
  }
}
