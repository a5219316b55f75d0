/** A lowered function: its instructions in list order with branch targets
    resolved to positions, and what it means to run it over temporaries. */
module Code {
  import opened Basics

  type Temp = nat

  /** Op stands for every instruction class that is not a move; what it computes is
      up to the machine.  Gone marks an instruction that was removed from its block:
      execution passes over it. */
  datatype Kind = Op(id: nat) | Move | Gone

  /** Goto([]) leaves the function. */
  datatype Next = Fall | Goto(targets: seq<nat>)

  datatype Instr = Instr(kind: Kind, defs: seq<Temp>, uses: seq<Temp>, next: Next)

  const GONE := Instr(Gone, [], [], Fall)

  function Succs(code: seq<Instr>, pc: nat): (r: set<nat>)
    requires pc < |code|
  {
    match code[pc].next
    case Fall => {pc + 1}
    case Goto(ts) => set t | t in ts
  }

  /** Operands below n, targets inside the code, the last instruction does not fall off,
      and a move has one source and either one destination or the two halves of a
      64-bit argument. */
  predicate InstrOk(code: seq<Instr>, n: nat, pc: nat)
    requires pc < |code|
  {
    var ins := code[pc];
    && (forall t | t in ins.defs :: t < n)
    && (forall t | t in ins.uses :: t < n)
    && (ins.next.Fall? ==> pc + 1 < |code|)
    && (ins.next.Goto? ==> forall t | t in ins.next.targets :: t < |code|)
    && (ins.kind.Move? ==> |ins.uses| == 1 && 1 <= |ins.defs| <= 2 && ins.next.Fall?)
    && (ins.kind.Gone? ==> ins == GONE)
  }

  predicate WellFormed(code: seq<Instr>, n: nat) {
    forall pc | 0 <= pc < |code| :: InstrOk(code, n, pc)
  }

  lemma SuccsInside(code: seq<Instr>, n: nat, pc: nat)
    requires WellFormed(code, n) && pc < |code|
    ensures forall q | q in Succs(code, pc) :: q < |code|
  {
    assert InstrOk(code, n, pc);
  }

  // ----- running -----

  type Value = seq<Byte>

  /** A machine gives meaning to the Op instructions: their results, their effect on the world
      outside the register frame, and the successor they choose. */
  datatype Machine<!W> = Machine(
    exec: (nat, W, seq<Value>) -> seq<Value>,
    effect: (nat, W, seq<Value>) -> W,
    pick: (nat, W, seq<Value>) -> nat)

  /** A run is at an instruction with a store of values, or has left the function. */
  datatype Outcome<S, W> = Running(pc: nat, store: S, world: W) | Left(values: seq<Value>, world: W)

  /** v as a value of w bytes. */
  function Fit(v: Value, w: nat): (r: Value)
    ensures |r| == w
    ensures |v| == w ==> r == v
  {
    seq(w, i requires 0 <= i < w => if i < |v| then v[i] else 0)
  }

  function Drop(v: Value, k: nat): (r: Value) {
    if k <= |v| then v[k..] else []
  }

  /** What an instruction computes, one value for each destination. */
  function Results<W>(m: Machine<W>, ins: Instr, args: seq<Value>, world: W): (r: seq<Value>) {
    match ins.kind
    case Op(id) => m.exec(id, world, args)
    case Gone => []
    case Move =>
      if |args| != 1 then []
      else if |ins.defs| == 1 then args
      else [args[0], Drop(args[0], 4)]
  }

  function ResultAt(rs: seq<Value>, k: nat): (r: Value) {
    if k < |rs| then rs[k] else []
  }

  /** Where control goes after an instruction that has left store behind. */
  function Advance<S, W>(m: Machine<W>, ins: Instr, pc: nat, args: seq<Value>, world: W, store: S): (r: Outcome<S, W>) {
    var world' := if ins.kind.Op? then m.effect(ins.kind.id, world, args) else world;
    match ins.next
    case Fall => Running(pc + 1, store, world')
    case Goto(ts) =>
      if ts == [] then Left(args, world')
      else
        var choice := if ins.kind.Op? then m.pick(ins.kind.id, world, args) else 0;
        Running(ts[choice % |ts|], store, world')
  }

  // ----- over temporaries: every temporary t holds width[t] bytes -----

  function ReadTemps(env: seq<Value>, ts: seq<Temp>): (r: seq<Value>)
    ensures |r| == |ts|
  {
    seq(|ts|, k requires 0 <= k < |ts| => if ts[k] < |env| then env[ts[k]] else [])
  }

  /** Stores the first k results. */
  function WriteTemps(env: seq<Value>, width: seq<nat>, defs: seq<Temp>, rs: seq<Value>, k: nat): (r: seq<Value>)
    requires |env| == |width| && k <= |defs|
    ensures |r| == |env|
  {
    if k == 0 then env
    else
      var before := WriteTemps(env, width, defs, rs, k - 1);
      var d := defs[k - 1];
      if d < |env| then before[d := Fit(ResultAt(rs, k - 1), width[d])] else before
  }

  predicate EnvOk(env: seq<Value>, width: seq<nat>) {
    |env| == |width| && forall t | 0 <= t < |env| :: |env[t]| == width[t]
  }

  function StepTemps<W>(m: Machine<W>, code: seq<Instr>, width: seq<nat>,
                        s: Outcome<seq<Value>, W>): (r: Outcome<seq<Value>, W>) {
    if s.Left? || s.pc >= |code| || |s.store| != |width| then s
    else
      var ins := code[s.pc];
      var args := ReadTemps(s.store, ins.uses);
      var env' := WriteTemps(s.store, width, ins.defs, Results(m, ins, args, s.world), |ins.defs|);
      Advance(m, ins, s.pc, args, s.world, env')
  }

  function RunTemps<W>(m: Machine<W>, code: seq<Instr>, width: seq<nat>, s: Outcome<seq<Value>, W>,
                       steps: nat): (r: Outcome<seq<Value>, W>) {
    if steps == 0 then s else StepTemps(m, code, width, RunTemps(m, code, width, s, steps - 1))
  }
}
