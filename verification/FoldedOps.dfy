/** Machines with the instructions that folding produces: compares inside branches and selects, LEAs
    inside loads and stores.  They satisfy what the run theorem asks for, the LEA inside a load exactly
    if its multiplier fits the field it is written to. */
module FoldedOps {
  import opened Basics
  import opened Code
  import opened Folding
  import Gep

  const WORD := 0x1_0000_0000

  datatype Predicate = EQ | NE | UGT | UGE | ULT | ULE | SGT | SGE | SLT | SLE

  function Signed(n: nat): (r: int) {
    if n < 0x8000_0000 then n else n - WORD
  }

  predicate Compares(p: Predicate, a: nat, b: nat) {
    match p
    case EQ => a == b
    case NE => a != b
    case UGT => a > b
    case UGE => a >= b
    case ULT => a < b
    case ULE => a <= b
    case SGT => Signed(a) > Signed(b)
    case SGE => Signed(a) >= Signed(b)
    case SLT => Signed(a) < Signed(b)
    case SLE => Signed(a) <= Signed(b)
  }

  // ----- 32-bit words in bytes -----

  function LowByte(n: nat): (r: Byte) {
    n % 0x100
  }

  /** Four bytes, lowest first. */
  function Bytes4(n: nat): (r: Value)
    ensures |r| == 4
  {
    [LowByte(n), LowByte(n / 0x100), LowByte(n / 0x100 / 0x100), LowByte(n / 0x100 / 0x100 / 0x100)]
  }

  function Number(v: Value): (r: nat)
    ensures r < WORD
  {
    if |v| < 4 then 0 else v[0] as nat + 0x100 * (v[1] as nat + 0x100 * (v[2] as nat + 0x100 * v[3] as nat))
  }

  lemma NumberOfBytes(n: nat)
    requires n < WORD
    ensures Number(Bytes4(n)) == n
  {
  }

  function ByteAt(memory: seq<Byte>, i: nat): (r: Byte) {
    if i < |memory| then memory[i] else 0
  }

  function LoadWord(memory: seq<Byte>, p: nat): (r: Value) {
    [ByteAt(memory, p), ByteAt(memory, p + 1), ByteAt(memory, p + 2), ByteAt(memory, p + 3)]
  }

  function StoreWord(memory: seq<Byte>, p: nat, v: Value): (r: seq<Byte>) {
    seq(|memory|, i requires 0 <= i < |memory| => if p <= i < p + 4 && i - p < |v| then v[i - p] else memory[i])
  }

  // ----- the machine -----

  const CMP := 0
  const BRANCH_IF := 1
  const CMP_BRANCH := 2
  const SELECT := 3
  const CMP_SELECT := 4
  const LEA := 5
  const LOAD := 6
  const LOAD_ROFF := 7
  const LEA_IMM := 8
  const STORE := 9
  const STORE_OFF := 10

  function Arg(args: seq<Value>, i: nat): (r: Value) {
    if i < |args| then args[i] else []
  }

  predicate Test(p: Predicate, args: seq<Value>) {
    Compares(p, Number(Arg(args, 0)), Number(Arg(args, 1)))
  }

  /** What the LEA with constants imm and mul computes, and the address of the load with both in its
      16-bit fields. */
  function LeaOf(imm: nat, mul: nat, args: seq<Value>): (r: nat) {
    Gep.LeaValue(Number(Arg(args, 0)), imm, Number(Arg(args, 1)), mul)
  }

  function RoffOf(imm: nat, mul: nat, args: seq<Value>): (r: nat) {
    Gep.RoffAddress(Number(Arg(args, 0)), imm, Number(Arg(args, 1)), mul)
  }

  function Exec(p: Predicate, imm: nat, mul: nat, op: nat, memory: seq<Byte>, args: seq<Value>): (r: seq<Value>) {
    if op == CMP then [Bytes4(if Test(p, args) then 1 else 0)]
    else if op == SELECT then [if Number(Arg(args, 0)) != 0 then Arg(args, 1) else Arg(args, 2)]
    else if op == CMP_SELECT then [if Test(p, args) then Arg(args, 2) else Arg(args, 3)]
    else if op == LEA then [Bytes4(LeaOf(imm, mul, args))]
    else if op == LOAD then [LoadWord(memory, Number(Arg(args, 0)))]
    else if op == LOAD_ROFF then [LoadWord(memory, RoffOf(imm, mul, args))]
    else if op == LEA_IMM then [Bytes4(Gep.LeaValue(Number(Arg(args, 0)), imm, 0, 0))]
    else []
  }

  function Effect(imm: nat, op: nat, memory: seq<Byte>, args: seq<Value>): (r: seq<Byte>) {
    if op == STORE then StoreWord(memory, Number(Arg(args, 0)), Arg(args, 1))
    else if op == STORE_OFF then StoreWord(memory, Gep.RoffAddress(Number(Arg(args, 0)), imm, 0, 0), Arg(args, 1))
    else memory
  }

  function Pick(p: Predicate, op: nat, args: seq<Value>): (r: nat) {
    if op == BRANCH_IF then (if Number(Arg(args, 0)) != 0 then 0 else 1)
    else if op == CMP_BRANCH then (if Test(p, args) then 0 else 1)
    else 0
  }

  function Ops(p: Predicate, imm: nat, mul: nat): (m: Machine<seq<Byte>>) {
    Machine((op, memory, args) => Exec(p, imm, mul, op, memory, args),
            (op, memory, args) => Effect(imm, op, memory, args),
            (op, memory, args) => Pick(p, op, args))
  }

  lemma Pures(p: Predicate, imm: nat, mul: nat)
    ensures Pure(Ops(p, imm, mul), CMP) && Pure(Ops(p, imm, mul), LEA) && Pure(Ops(p, imm, mul), LEA_IMM)
  {
    hide Bytes4, Number, Compares;
  }

  lemma OneOperand(a: seq<Value>, x: seq<Value>, v: Value, z: seq<Value>)
    requires |a| == 0
    ensures a + x + z == x + z && a + [v] + z == [v] + z
  {
  }

  /** Every predicate fuses with a branch on its result. */
  lemma CompareBranchFuses(p: Predicate, imm: nat, mul: nat)
    ensures Fuses(Ops(p, imm, mul), CMP, BRANCH_IF, CMP_BRANCH, 0, 2, 0, 4)
  {
    hide Bytes4, Number, Compares;
    var m := Ops(p, imm, mul);
    NumberOfBytes(0);
    NumberOfBytes(1);
    forall w: seq<Byte>, a: seq<Value>, x: seq<Value>, z: seq<Value> | |a| == 0 && |x| == 2 && |z| == 0
      ensures var v := Fit(ResultAt(m.exec(CMP, w, x), 0), 4);
        && m.exec(CMP_BRANCH, w, a + x + z) == m.exec(BRANCH_IF, w, a + [v] + z)
        && m.effect(CMP_BRANCH, w, a + x + z) == m.effect(BRANCH_IF, w, a + [v] + z)
        && m.pick(CMP_BRANCH, w, a + x + z) == m.pick(BRANCH_IF, w, a + [v] + z)
    {
      OneOperand(a, x, Bytes4(if Test(p, x) then 1 else 0), z);
    }
  }

  /** Every predicate fuses with a select on its result. */
  lemma CompareSelectFuses(p: Predicate, imm: nat, mul: nat)
    ensures Fuses(Ops(p, imm, mul), CMP, SELECT, CMP_SELECT, 0, 2, 2, 4)
  {
    hide Bytes4, Number, Compares;
    var m := Ops(p, imm, mul);
    NumberOfBytes(0);
    NumberOfBytes(1);
    forall w: seq<Byte>, a: seq<Value>, x: seq<Value>, z: seq<Value> | |a| == 0 && |x| == 2 && |z| == 2
      ensures var v := Fit(ResultAt(m.exec(CMP, w, x), 0), 4);
        && m.exec(CMP_SELECT, w, a + x + z) == m.exec(SELECT, w, a + [v] + z)
        && m.effect(CMP_SELECT, w, a + x + z) == m.effect(SELECT, w, a + [v] + z)
        && m.pick(CMP_SELECT, w, a + x + z) == m.pick(SELECT, w, a + [v] + z)
    {
      var v := Bytes4(if Test(p, x) then 1 else 0);
      OneOperand(a, x, v, z);
      assert (x + z)[..2] == x && (x + z)[2] == z[0] && (x + z)[3] == z[1];
      assert Test(p, x + z) == Test(p, x);
    }
  }

  /** A LEA fuses with a load through it exactly if its multiplier fits 16 signed bits; that the offset
      does is checked before. */
  lemma LeaFuses(p: Predicate, imm: nat, mul: nat)
    requires imm < WORD && mul < WORD && Gep.Fits16(imm)
    ensures Fuses(Ops(p, imm, mul), LEA, LOAD, LOAD_ROFF, 0, 2, 0, 4) <==> Gep.Fits16(mul)
  {
    if Gep.Fits16(mul) {
      FittingLeaFuses(p, imm, mul);
    } else {
      OtherLoad(p, imm, mul);
    }
  }

  lemma FittingLeaFuses(p: Predicate, imm: nat, mul: nat)
    requires imm < WORD && mul < WORD && Gep.Fits16(imm) && Gep.Fits16(mul)
    ensures Fuses(Ops(p, imm, mul), LEA, LOAD, LOAD_ROFF, 0, 2, 0, 4)
  {
    hide Bytes4, Number, LoadWord, Gep.LeaValue, Gep.RoffAddress, Gep.Fits16;
    var m := Ops(p, imm, mul);
    Gep.RoffIsLea(imm, mul);
    forall w: seq<Byte>, a: seq<Value>, x: seq<Value>, z: seq<Value> | |a| == 0 && |x| == 2 && |z| == 0
      ensures var v := Fit(ResultAt(m.exec(LEA, w, x), 0), 4);
        && m.exec(LOAD_ROFF, w, a + x + z) == m.exec(LOAD, w, a + [v] + z)
        && m.effect(LOAD_ROFF, w, a + x + z) == m.effect(LOAD, w, a + [v] + z)
        && m.pick(LOAD_ROFF, w, a + x + z) == m.pick(LOAD, w, a + [v] + z)
    {
      var q := LeaOf(imm, mul, x);
      assert x + z == x;
      OneOperand(a, x, Bytes4(q), z);
      LeaInWord(imm, mul, x);
      NumberOfBytes(q);
    }
  }

  lemma LeaInWord(imm: nat, mul: nat, args: seq<Value>)
    ensures LeaOf(imm, mul, args) < WORD
  {
  }

  /** A base, an index and a memory for which the load does not give what the LEA addressed. */
  lemma OtherLoad(p: Predicate, imm: nat, mul: nat)
    requires imm < WORD && mul < WORD && Gep.Fits16(imm) && !Gep.Fits16(mul)
    ensures !Fuses(Ops(p, imm, mul), LEA, LOAD, LOAD_ROFF, 0, 2, 0, 4)
  {
    hide Bytes4, Number, Gep.LeaValue, Gep.RoffAddress, Gep.Fits16;
    Gep.RoffIsLea(imm, mul);
    NumberOfBytes(0);
    NumberOfBytes(1);
    var x := [Bytes4(0), Bytes4(1)];
    var q, q' := LeaOf(imm, mul, x), RoffOf(imm, mul, x);
    LeaInWord(imm, mul, x);
    NumberOfBytes(q);
    var memory: seq<Byte> := seq(WORD, i => if i == q then 1 else 0);
    assert LoadWord(memory, q)[0] == 1 != LoadWord(memory, q')[0];
    var m := Ops(p, imm, mul);
    assert [] + x + [] == x && [] + [Bytes4(q)] + [] == [Bytes4(q)];
    assert Fit(ResultAt(m.exec(LEA, memory, x), 0), 4) == Bytes4(q);
    assert m.exec(LOAD_ROFF, memory, [] + x + []) != m.exec(LOAD, memory, [] + [Bytes4(q)] + []);
  }

  /** A LEA without a register index fuses with a store through it. */
  lemma StoreFuses(p: Predicate, imm: nat, mul: nat)
    requires imm < WORD && Gep.Fits16(imm)
    ensures Fuses(Ops(p, imm, mul), LEA_IMM, STORE, STORE_OFF, 0, 1, 1, 4)
  {
    hide Bytes4, Number, StoreWord, Gep.LeaValue, Gep.RoffAddress, Gep.Fits16;
    var m := Ops(p, imm, mul);
    ZeroFits();
    Gep.RoffIsLea(imm, 0);
    forall w: seq<Byte>, a: seq<Value>, x: seq<Value>, z: seq<Value> | |a| == 0 && |x| == 1 && |z| == 1
      ensures var v := Fit(ResultAt(m.exec(LEA_IMM, w, x), 0), 4);
        && m.exec(STORE_OFF, w, a + x + z) == m.exec(STORE, w, a + [v] + z)
        && m.effect(STORE_OFF, w, a + x + z) == m.effect(STORE, w, a + [v] + z)
        && m.pick(STORE_OFF, w, a + x + z) == m.pick(STORE, w, a + [v] + z)
    {
      var q := Gep.LeaValue(Number(x[0]), imm, 0, 0);
      assert (x + z)[0] == x[0] && (x + z)[1] == z[0];
      OneOperand(a, x, Bytes4(q), z);
      assert q < WORD by {
        AddressInWord(Number(x[0]), imm);
      }
      NumberOfBytes(q);
    }
  }

  lemma ZeroFits()
    ensures Gep.Fits16(0)
  {
  }

  lemma AddressInWord(base: nat, imm: nat)
    ensures Gep.LeaValue(base, imm, 0, 0) < WORD
  {
  }

  // ----- a program -----

  const COMPARE_AND_BRANCH := [Instr(Op(CMP), [2], [0, 1], Fall), Instr(Op(BRANCH_IF), [], [2], Goto([2, 3])),
                               Instr(Op(CMP), [], [0], Goto([])), Instr(Op(CMP), [], [1], Goto([]))]

  /** All hypotheses of the run theorem hold together: a compare folded into a branch and dropped. */
  lemma FusionHasInstance(p: Predicate, s: Outcome<seq<Value>, seq<Byte>>, n: nat)
    requires s.Running? && s.pc == 0 && |s.store| == 3
    ensures FusedUser(COMPARE_AND_BRANCH, 0, 1, 0, CMP_BRANCH) == Instr(Op(CMP_BRANCH), [], [0, 1], Goto([2, 3]))
    ensures Agree(RunTemps(Ops(p, 0, 0), COMPARE_AND_BRANCH, [4, 4, 4], s, n),
                  RunTemps(Ops(p, 0, 0), [GONE, FusedUser(COMPARE_AND_BRANCH, 0, 1, 0, CMP_BRANCH)]
                           + COMPARE_AND_BRANCH[2..],
                           [4, 4, 4], s, n), 2, true)
  {
    hide Fuses, Agree, RunTemps, Pure, Ops;
    var code := COMPARE_AND_BRANCH;
    CompareBranchFuses(p, 0, 0);
    Pures(p, 0, 0);
    assert StrictSsa(code, {}) by {
      assert Dominates(code, 0, 1);
    }
    FusionPreservesRuns(Ops(p, 0, 0), [4, 4, 4], code, {}, 0, 1, 0, CMP_BRANCH, true, s, n);
    assert Folded(code, 0, 1, FusedUser(code, 0, 1, 0, CMP_BRANCH), true)
        == [GONE, FusedUser(code, 0, 1, 0, CMP_BRANCH)] + code[2..];
  }
}
