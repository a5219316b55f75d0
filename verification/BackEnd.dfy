/** From SSA form to the register frame: the blocks that are left after exit_ssa, laid out in list
    order, are the code that liveness analysis and register allocation work on. */
module BackEnd {
  import opened Basics
  import opened Code
  import opened ParallelCopy
  import opened Ssa
  import Frame
  import Liveness
  import Coalesce
  import RegAlloc
  import SsaExit
  import CfgCleanup

  // ----- laying out the blocks -----

  function Position(order: seq<Label>, l: Label): (r: nat)
    ensures l in order ==> r < |order| && order[r] == l
  {
    if order == [] || order[0] == l then 0 else 1 + Position(order[1..], l)
  }

  function Size(f: Blocks, l: Label): (r: nat) {
    if l in f then |f[l].body| + 1 else 0
  }

  /** Where the code of the first k blocks ends. */
  function Start(f: Blocks, order: seq<Label>, k: nat): (r: nat)
    requires k <= |order|
  {
    if k == 0 then 0 else Start(f, order, k - 1) + Size(f, order[k - 1])
  }

  function StartOf(f: Blocks, order: seq<Label>, l: Label): (r: nat) {
    if l in order then Start(f, order, Position(order, l)) else 0
  }

  function StmtInstr(s: Stmt): (r: Instr) {
    match s
    case Copy(dst, src) => Instr(Kind.Move, [dst], [src], Fall)
    case Do(op, defs, uses) => Instr(Op(op), defs, uses, Fall)
  }

  function Targets(f: Blocks, order: seq<Label>, succs: seq<Label>): (r: seq<nat>)
    ensures |r| == |succs| && forall k | 0 <= k < |r| :: r[k] == StartOf(f, order, succs[k])
  {
    seq(|succs|, k requires 0 <= k < |succs| => StartOf(f, order, succs[k]))
  }

  function LastInstr(f: Blocks, order: seq<Label>, last: Last): (r: Instr) {
    Instr(Op(last.op), if last.Invoke? then last.defs else [], last.uses, Goto(Targets(f, order, last.succs)))
  }

  /** Instruction i of a block. */
  function InstrOf(f: Blocks, order: seq<Label>, l: Label, i: nat): (r: Instr)
    requires l in f && i <= |f[l].body|
  {
    if i < |f[l].body| then StmtInstr(f[l].body[i]) else LastInstr(f, order, f[l].last)
  }

  function BlockCode(f: Blocks, order: seq<Label>, l: Label): (r: seq<Instr>)
    ensures |r| == Size(f, l)
  {
    if l in f then seq(|f[l].body| + 1, i requires 0 <= i < |f[l].body| + 1 => InstrOf(f, order, l, i)) else []
  }

  /** The code of the first k blocks. */
  function Prefix(f: Blocks, order: seq<Label>, k: nat): (r: seq<Instr>)
    requires k <= |order|
    ensures |r| == Start(f, order, k)
  {
    if k == 0 then [] else Prefix(f, order, k - 1) + BlockCode(f, order, order[k - 1])
  }

  function Linear(f: Blocks, order: seq<Label>): (r: seq<Instr>) {
    Prefix(f, order, |order|)
  }

  lemma {:induction false} PrefixAt(f: Blocks, order: seq<Label>, k: nat, j: nat, i: nat)
    requires j < k <= |order| && order[j] in f && i <= |f[order[j]].body|
    ensures Start(f, order, j) + i < |Prefix(f, order, k)|
    ensures Prefix(f, order, k)[Start(f, order, j) + i] == InstrOf(f, order, order[j], i)
    decreases k
  {
    hide InstrOf;
    if j < k - 1 {
      PrefixAt(f, order, k - 1, j, i);
    } else {
      assert BlockCode(f, order, order[j])[i] == InstrOf(f, order, order[j], i);
    }
  }

  /** The code of a block is where its label says. */
  lemma LinearAt(f: Blocks, order: seq<Label>, l: Label, i: nat)
    requires SsaExit.ListOk(f, order) && l in f && i <= |f[l].body|
    ensures StartOf(f, order, l) + i < |Linear(f, order)|
    ensures Linear(f, order)[StartOf(f, order, l) + i] == InstrOf(f, order, l, i)
  {
    PrefixAt(f, order, |order|, Position(order, l), i);
  }

  /** Every position belongs to a block. */
  lemma {:induction false} PrefixFrom(f: Blocks, order: seq<Label>, k: nat, pc: nat) returns (j: nat, i: nat)
    requires k <= |order| && (forall j | 0 <= j < k :: order[j] in f) && pc < |Prefix(f, order, k)|
    ensures j < k && order[j] in f && i <= |f[order[j]].body| && pc == Start(f, order, j) + i
    ensures Prefix(f, order, k)[pc] == InstrOf(f, order, order[j], i)
    decreases k
  {
    hide InstrOf;
    if pc < Start(f, order, k - 1) {
      j, i := PrefixFrom(f, order, k - 1, pc);
    } else {
      j, i := k - 1, pc - Start(f, order, k - 1);
      PrefixAt(f, order, k, j, i);
    }
  }

  // ----- the code is well formed -----

  predicate CopyTyped(s: Stmt, width: seq<nat>) {
    s.Copy? && s.dst < |width| && s.src < |width| ==> width[s.dst] == width[s.src]
  }

  lemma InstrFits(f: Blocks, order: seq<Label>, n: nat, width: seq<nat>, j: nat, i: nat)
    requires SsaExit.ListOk(f, order) && FunctionOk(f, n) && |width| == n
    requires j < |order| && order[j] in f && i <= |f[order[j]].body|
    requires forall k | 0 <= k < |f[order[j]].body| :: CopyTyped(f[order[j]].body[k], width)
    ensures var pc := Start(f, order, j) + i;
            pc < |Linear(f, order)| && InstrOk(Linear(f, order), n, pc)
              && RegAlloc.MoveFits(Linear(f, order)[pc], n, width)
  {
    hide Prefix, Start, StartOf, Linear, SsaExit.ListOk, FunctionOk;
    var l := order[j];
    PrefixAtEnd(f, order, j, i);
    BlockIs(f, n, l);
    if i < |f[l].body| {
      PrefixAtEnd(f, order, j, i + 1);
      assert StmtOk(f[l].body[i], n) && CopyTyped(f[l].body[i], width);
    } else {
      TargetsInside(f, order, n, l);
    }
  }

  lemma PrefixAtEnd(f: Blocks, order: seq<Label>, j: nat, i: nat)
    requires j < |order| && order[j] in f && i <= |f[order[j]].body|
    ensures Start(f, order, j) + i < |Linear(f, order)|
    ensures Linear(f, order)[Start(f, order, j) + i] == InstrOf(f, order, order[j], i)
  {
    PrefixAt(f, order, |order|, j, i);
  }

  lemma BlockIs(f: Blocks, n: nat, l: Label)
    requires FunctionOk(f, n) && l in f
    ensures BlockOk(f[l], n)
  {
  }

  lemma TargetsInside(f: Blocks, order: seq<Label>, n: nat, l: Label)
    requires SsaExit.ListOk(f, order) && FunctionOk(f, n) && l in f
    ensures forall k | 0 <= k < |f[l].last.succs| :: StartOf(f, order, f[l].last.succs[k]) < |Linear(f, order)|
  {
    forall k | 0 <= k < |f[l].last.succs|
      ensures StartOf(f, order, f[l].last.succs[k]) < |Linear(f, order)|
    {
      LinearAt(f, order, f[l].last.succs[k], 0);
    }
  }

  ghost predicate CopiesTyped(f: Blocks, width: seq<nat>) {
    forall l, k | l in f && 0 <= k < |f[l].body| :: CopyTyped(f[l].body[k], width)
  }

  /** The code meets what register allocation asks of it. */
  lemma LinearOk(f: Blocks, order: seq<Label>, n: nat, width: seq<nat>)
    requires SsaExit.ListOk(f, order) && FunctionOk(f, n) && |width| == n && CopiesTyped(f, width)
    ensures WellFormed(Linear(f, order), n) && RegAlloc.MovesFit(Linear(f, order), n, width)
  {
    hide InstrOk, RegAlloc.MoveFits, InstrOf, FunctionOk;
    var code := Linear(f, order);
    forall pc | 0 <= pc < |code|
      ensures InstrOk(code, n, pc) && RegAlloc.MoveFits(code[pc], n, width)
    {
      assert forall j | 0 <= j < |order| :: order[j] in order;
      var j, i := PrefixFrom(f, order, |order|, pc);
      InstrFits(f, order, n, width, j, i);
    }
  }

  // ----- one instruction -----

  predicate Fits(vs: seq<Value>, ts: seq<Id>, width: seq<nat>) {
    forall k | 0 <= k < |ts| && ts[k] < |width| :: |ResultAt(vs, k)| == width[ts[k]]
  }

  /** Arguments of the right widths give results of the right widths. */
  ghost predicate OpTyped<W(!new)>(m: Machine<W>, op: nat, defs: seq<Id>, uses: seq<Id>, width: seq<nat>) {
    forall world, args | Fits(args, uses, width) :: Fits(m.exec(op, world, args), defs, width)
  }

  ghost predicate StmtTyped<W(!new)>(m: Machine<W>, s: Stmt, width: seq<nat>) {
    match s
    case Copy(_, _) => CopyTyped(s, width)
    case Do(op, defs, uses) => OpTyped(m, op, defs, uses, width)
  }

  /** A Jump has no effect on the world. */
  ghost predicate LastTyped<W(!new)>(m: Machine<W>, last: Last, width: seq<nat>) {
    match last
    case Invoke(op, defs, uses, _) => OpTyped(m, op, defs, uses, width)
    case Jump(op, _, _) => forall world, args :: m.effect(op, world, args) == world
  }

  ghost predicate BlockTyped<W(!new)>(m: Machine<W>, b: Block, width: seq<nat>) {
    (forall k | 0 <= k < |b.body| :: StmtTyped(m, b.body[k], width)) && LastTyped(m, b.last, width)
  }

  ghost predicate Typed<W(!new)>(m: Machine<W>, f: Blocks, width: seq<nat>) {
    forall l | l in f :: BlockTyped(m, f[l], width)
  }

  /** The store holds every value, each of its width. */
  ghost predicate Stored(env: Env, store: seq<Value>, width: seq<nat>) {
    EnvOk(store, width) && forall t: Id | t < |width| :: Read(env, t) == store[t]
  }

  lemma ArgsStored(env: Env, store: seq<Value>, width: seq<nat>, uses: seq<Id>)
    requires Stored(env, store, width) && IdsBelow(uses, |width|)
    ensures ReadTemps(store, uses) == ReadAll(env, uses) && Fits(ReadAll(env, uses), uses, width)
  {
    forall k | 0 <= k < |uses|
      ensures ReadTemps(store, uses)[k] == ReadAll(env, uses)[k] && |ReadAll(env, uses)[k]| == width[uses[k]]
    {
      assert Read(env, uses[k]) == store[uses[k]];
    }
  }

  lemma {:induction false} WritesStored(env: Env, store: seq<Value>, width: seq<nat>, defs: seq<Id>, rs: seq<Value>,
                                        k: nat)
    requires Stored(env, store, width) && IdsBelow(defs, |width|) && Fits(rs, defs, width) && k <= |defs|
    ensures Stored(WriteAll(env, defs, rs, k), WriteTemps(store, width, defs, rs, k), width)
    decreases k
  {
    if k > 0 {
      WritesStored(env, store, width, defs, rs, k - 1);
      WriteStored(WriteAll(env, defs, rs, k - 1), WriteTemps(store, width, defs, rs, k - 1), width, defs[k - 1],
                  ResultAt(rs, k - 1));
    }
  }

  lemma WriteStored(env: Env, store: seq<Value>, width: seq<nat>, d: Id, v: Value)
    requires Stored(env, store, width) && d < |width| && |v| == width[d]
    ensures Stored(env[d := v], store[d := Fit(v, width[d])], width)
  {
    var env', store' := env[d := v], store[d := Fit(v, width[d])];
    forall t: Id | t < |width|
      ensures Read(env', t) == store'[t]
    {
      assert Read(env, t) == store[t];
    }
  }

  /** Where the code is while the block's run is at (env, world). */
  ghost predicate AtPc<W>(pc: nat, l: Local<W>, t: Outcome<seq<Value>, W>, width: seq<nat>) {
    t.Running? && t.pc == pc && t.world == l.world && Stored(l.env, t.store, width)
  }

  lemma StmtRuns<W(!new)>(m: Machine<W>, code: seq<Instr>, width: seq<nat>, s: Stmt, pc: nat, l: Local<W>,
                          t: Outcome<seq<Value>, W>)
    requires pc < |code| && code[pc] == StmtInstr(s) && AtPc(pc, l, t, width)
    requires StmtOk(s, |width|) && StmtTyped(m, s, width)
    ensures AtPc(pc + 1, ExecStmt(m, s, l), StepTemps(m, code, width, t), width)
  {
    match s {
      case Copy(dst, src) => CopyRuns(m, code, width, dst, src, pc, l, t);
      case Do(op, defs, uses) => DoRuns(m, code, width, op, defs, uses, pc, l, t);
    }
  }

  lemma CopyRuns<W>(m: Machine<W>, code: seq<Instr>, width: seq<nat>, dst: Id, src: Id, pc: nat, l: Local<W>,
                    t: Outcome<seq<Value>, W>)
    requires pc < |code| && code[pc] == StmtInstr(Copy(dst, src)) && AtPc(pc, l, t, width)
    requires dst < |width| && src < |width| && width[dst] == width[src]
    ensures AtPc(pc + 1, ExecStmt(m, Copy(dst, src), l), StepTemps(m, code, width, t), width)
  {
    var v := Read(l.env, src);
    assert v == t.store[src] && |t.store[src]| == width[src];
    WriteStored(l.env, t.store, width, dst, v);
    assert ReadTemps(t.store, [src]) == [v];
    assert WriteTemps(t.store, width, [dst], [v], 0) == t.store;
    assert WriteTemps(t.store, width, [dst], [v], 1) == t.store[dst := Fit(v, width[dst])];
  }

  lemma DoRuns<W(!new)>(m: Machine<W>, code: seq<Instr>, width: seq<nat>, op: nat, defs: seq<Id>, uses: seq<Id>,
                  pc: nat, l: Local<W>, t: Outcome<seq<Value>, W>)
    requires pc < |code| && code[pc] == StmtInstr(Do(op, defs, uses)) && AtPc(pc, l, t, width)
    requires IdsBelow(defs, |width|) && IdsBelow(uses, |width|) && OpTyped(m, op, defs, uses, width)
    ensures AtPc(pc + 1, ExecStmt(m, Do(op, defs, uses), l), StepTemps(m, code, width, t), width)
  {
    hide Stored, Fits, WriteTemps, WriteAll;
    ArgsStored(l.env, t.store, width, uses);
    StoreSize(l.env, t.store, width);
    WritesStored(l.env, t.store, width, defs, m.exec(op, l.world, ReadAll(l.env, uses)), |defs|);
  }

  lemma StoreSize(env: Env, store: seq<Value>, width: seq<nat>)
    requires Stored(env, store, width)
    ensures |store| == |width|
  {
  }

  // ----- one block -----

  lemma {:induction false} BodyRuns<W(!new)>(m: Machine<W>, f: Blocks, order: seq<Label>, width: seq<nat>, lbl: Label,
                                             k: nat,
                                       l: Local<W>, t: Outcome<seq<Value>, W>)
    requires SsaExit.ListOk(f, order) && lbl in f && k <= |f[lbl].body|
    requires BlockOk(f[lbl], |width|) && BlockTyped(m, f[lbl], width)
    requires AtPc(StartOf(f, order, lbl), l, t, width)
    ensures AtPc(StartOf(f, order, lbl) + k, ExecBody(m, f[lbl].body[..k], l),
                 RunTemps(m, Linear(f, order), width, t, k), width)
    decreases k
  {
    hide Linear, StartOf, StepTemps, ExecStmt, StmtInstr, StmtTyped, AtPc, SsaExit.ListOk;
    if k > 0 {
      BodyRuns(m, f, order, width, lbl, k - 1, l, t);
      LinearAt(f, order, lbl, k - 1);
      assert f[lbl].body[..k][..k - 1] == f[lbl].body[..k - 1];
      StmtRuns(m, Linear(f, order), width, f[lbl].body[k - 1], StartOf(f, order, lbl) + k - 1,
               ExecBody(m, f[lbl].body[..k - 1], l), RunTemps(m, Linear(f, order), width, t, k - 1));
    }
  }

  /** The blocks' run and the code's run are at the same point of the same history. */
  ghost predicate Together<W>(f: Blocks, order: seq<Label>, width: seq<nat>, s: State<W>, t: Outcome<seq<Value>, W>) {
    match s
    case Done(values, world) => t == Left(values, world)
    case At(lbl, env, world) => lbl in f && AtPc(StartOf(f, order, lbl), Local(env, world), t, width)
  }

  lemma LastRuns<W(!new)>(m: Machine<W>, f: Blocks, order: seq<Label>, width: seq<nat>, lbl: Label, l: Local<W>,
                          t: Outcome<seq<Value>, W>)
    requires SsaExit.ListOk(f, order) && FunctionOk(f, |width|) && NoPhis(f) && lbl in f
              && LastTyped(m, f[lbl].last, width)
    requires AtPc(StartOf(f, order, lbl) + |f[lbl].body|, l, t, width)
    ensures Together(f, order, width, LeaveBlock(m, f, lbl, f[lbl].last, l), StepTemps(m, Linear(f, order), width, t))
  {
    hide Linear, StartOf, Stored, WriteTemps, WriteAll, Fits, SsaExit.ListOk, EvalPhis;
    var last := f[lbl].last;
    LinearAt(f, order, lbl, |f[lbl].body|);
    BlockIs(f, |width|, lbl);
    ArgsStored(l.env, t.store, width, last.uses);
    StoreSize(l.env, t.store, width);
    var args := ReadAll(l.env, last.uses);
    var rs := m.exec(last.op, l.world, args);
    var defs := if last.Invoke? then last.defs else [];
    NothingWritten(l.env, t.store, width, rs);
    if last.Invoke? {
      WritesStored(l.env, t.store, width, defs, rs, |defs|);
    }
    if last.succs != [] {
      var to := last.succs[m.pick(last.op, l.world, args) % |last.succs|];
      assert to in f;
      NoPhisNothing(lbl, WriteAll(l.env, defs, rs, |defs|));
    }
  }

  lemma NothingWritten(env: Env, store: seq<Value>, width: seq<nat>, rs: seq<Value>)
    requires |store| == |width|
    ensures WriteAll(env, [], rs, 0) == env && WriteTemps(store, width, [], rs, 0) == store
  {
  }

  lemma {:induction false} RunTempsAdd<W>(m: Machine<W>, code: seq<Instr>, width: seq<nat>, t: Outcome<seq<Value>, W>,
                                          a: nat, b: nat)
    ensures RunTemps(m, code, width, t, a + b) == RunTemps(m, code, width, RunTemps(m, code, width, t, a), b)
    decreases b
  {
    hide StepTemps;
    if b > 0 {
      RunTempsAdd(m, code, width, t, a, b - 1);
    }
  }

  lemma BlockRuns<W(!new)>(m: Machine<W>, f: Blocks, order: seq<Label>, width: seq<nat>, s: State<W>,
                           t: Outcome<seq<Value>, W>) returns (k: nat)
    requires SsaExit.ListOk(f, order) && FunctionOk(f, |width|) && NoPhis(f) && Typed(m, f, width)
              && Together(f, order, width, s, t)
    ensures k >= 1 && Together(f, order, width, StepBlock(m, f, s), RunTemps(m, Linear(f, order), width, t, k))
  {
    hide Linear, StartOf, StepTemps, AtPc, LeaveBlock, SsaExit.ListOk, FunctionOk, NoPhis, BlockTyped;
    var code := Linear(f, order);
    if s.Done? {
      k := 1;
      LeftStays(m, code, width, t);
    } else {
      var body := f[s.lbl].body;
      BlockIs(f, |width|, s.lbl);
      BodyRuns(m, f, order, width, s.lbl, |body|, Local(s.env, s.world), t);
      assert body[..|body|] == body;
      k := |body| + 1;
      LastIsTyped(m, f[s.lbl], width);
      LastRuns(m, f, order, width, s.lbl, ExecBody(m, body, Local(s.env, s.world)),
               RunTemps(m, code, width, t, |body|));
    }
  }

  lemma LastIsTyped<W(!new)>(m: Machine<W>, b: Block, width: seq<nat>)
    requires BlockTyped(m, b, width)
    ensures LastTyped(m, b.last, width)
  {
  }

  lemma LeftStays<W>(m: Machine<W>, code: seq<Instr>, width: seq<nat>, t: Outcome<seq<Value>, W>)
    requires t.Left?
    ensures RunTemps(m, code, width, t, 1) == t
  {
    assert RunTemps(m, code, width, t, 0) == t;
  }

  /** Every run of the blocks is followed, block by block, by the code over temporaries. */
  lemma {:induction false} LinearRuns<W(!new)>(m: Machine<W>, f: Blocks, order: seq<Label>, width: seq<nat>,
                                               s: State<W>,
                                         t: Outcome<seq<Value>, W>, steps: nat) returns (k: nat)
    requires SsaExit.ListOk(f, order) && FunctionOk(f, |width|) && NoPhis(f) && Typed(m, f, width)
              && Together(f, order, width, s, t)
    ensures k >= steps && Together(f, order, width, Run(m, f, s, steps), RunTemps(m, Linear(f, order), width, t, k))
    decreases steps
  {
    hide Linear, StepTemps, StepBlock, Together, SsaExit.ListOk, FunctionOk, NoPhis, Typed;
    if steps == 0 {
      k := 0;
    } else {
      k := LinearRuns(m, f, order, width, s, t, steps - 1);
      var more := BlockRuns(m, f, order, width, Run(m, f, s, steps - 1), RunTemps(m, Linear(f, order), width, t, k));
      RunTempsAdd(m, Linear(f, order), width, t, k, more);
      k := k + more;
    }
  }

  // ----- from SSA form to the frame -----

  /** The frame has every live value of the function in its place. */
  ghost predicate FrameHolds(code0: seq<Instr>, rep: seq<Temp>, place: seq<Frame.Slot>, limit: Id, pc: nat, env: Env,
                             frame: seq<Byte>) {
    forall v: Id | v < limit && Liveness.LiveIn(code0, pc, v) ::
      v < |rep| && rep[v] < |place| && Frame.ReadSlot(frame, place[rep[v]]) == Read(env, v)
  }

  /** The code over the frame is where the function with phis is, with its live values, or has left
      with its results and its world. */
  ghost predicate Follows<W>(g: Blocks, order: seq<Label>, rep: seq<Temp>, place: seq<Frame.Slot>, frameSize: nat,
                             limit: Id,
                             s: State<W>, q: Outcome<seq<Byte>, W>) {
    match s
    case Done(values, world) => q == Left(values, world)
    case At(lbl, env, world) =>
      && lbl in g && q.Running? && q.pc == StartOf(g, order, lbl) && q.world == world && |q.store| == frameSize
      && FrameHolds(Linear(g, order), rep, place, limit, q.pc, env, q.store)
  }

  ghost predicate StartTyped<W>(s: State<W>, limit: Id, width: seq<nat>) {
    s.At? ==> forall v: Id | v < limit && v < |width| :: |Read(s.env, v)| == width[v]
  }

  /** What register allocation delivers for the code of g. */
  ghost predicate Allocated(g: Blocks, order: seq<Label>, code: seq<Instr>, rep: seq<Temp>, width: seq<nat>,
                            place: seq<Frame.Slot>,
                            frameSize: nat) {
    && RegAlloc.Separated(Linear(g, order), |width|, rep, width, place, frameSize)
    && Coalesce.Rewritten(Linear(g, order), code, rep)
  }

  /** A store that agrees with the function below limit and with the frame above. */
  lemma Between<W>(g: Blocks, order: seq<Label>, code: seq<Instr>, rep: seq<Temp>, width: seq<nat>,
                   place: seq<Frame.Slot>, frameSize: nat,
                   limit: Id, s: State<W>, q: Outcome<seq<Byte>, W>)
    returns (t: State<W>, u: Outcome<seq<Value>, W>)
    requires SsaExit.ListOk(g, order) && Allocated(g, order, code, rep, width, place, frameSize) && limit <= |width|
    requires WellFormed(Linear(g, order), |width|)
    requires Follows(g, order, rep, place, frameSize, limit, s, q) && StartTyped(s, limit, width)
    ensures SameState(s, t, limit) && Together(g, order, width, t, u)
    ensures RegAlloc.InStep(Linear(g, order), rep, width, place, frameSize, u, q)
  {
    hide Linear, StartOf, SsaExit.ListOk, Coalesce.Rewritten, WellFormed;
    if s.Done? {
      return s, Left(q.values, q.world);
    }
    var n := |width|;
    var store := seq(n, v requires 0 <= v < n =>
                       if v < limit then Read(s.env, v) else Frame.ReadSlot(q.store, place[rep[v]]));
    var env: Env := map v: Id | v < n :: store[v];
    t, u := At(s.lbl, env, s.world), Running(q.pc, store, q.world);
    LinearAt(g, order, s.lbl, 0);
    forall v | Liveness.LiveIn(Linear(g, order), q.pc, v)
      ensures RegAlloc.Holds(q.store, rep, place, store, v)
    {
      Liveness.LiveBelow(Linear(g, order), n, q.pc, v);
    }
  }

  lemma Composed<W>(g: Blocks, order: seq<Label>, rep: seq<Temp>, width: seq<nat>, place: seq<Frame.Slot>,
                    frameSize: nat, limit: Id,
                    s: State<W>, t: State<W>, u: Outcome<seq<Value>, W>, q: Outcome<seq<Byte>, W>)
    requires SameState(s, t, limit) && Together(g, order, width, t, u) && limit <= |width|
    requires RegAlloc.InStep(Linear(g, order), rep, width, place, frameSize, u, q)
    ensures Follows(g, order, rep, place, frameSize, limit, s, q)
  {
    hide Linear, StartOf;
    if s.At? {
      forall v: Id | v < limit && Liveness.LiveIn(Linear(g, order), q.pc, v)
        ensures v < |rep| && rep[v] < |place| && Frame.ReadSlot(q.store, place[rep[v]]) == Read(s.env, v)
      {
        assert RegAlloc.Holds(q.store, rep, place, u.store, v);
        assert Read(t.env, v) == u.store[v];
      }
    }
  }

  lemma LoweredNoPhis(f: Blocks, g: Blocks, limit: Id)
    requires SsaExit.Lowered(f, g, limit)
    ensures NoPhis(g)
  {
    forall l | l in g
      ensures g[l].phis == []
    {
      assert SsaExit.LoweredBlock(f, l, g[l], limit);
    }
  }

  lemma CopiesAreTyped<W(!new)>(m: Machine<W>, f: Blocks, width: seq<nat>)
    requires Typed(m, f, width)
    ensures CopiesTyped(f, width)
  {
    forall l, k | l in f && 0 <= k < |f[l].body|
      ensures CopyTyped(f[l].body[k], width)
    {
      assert BlockTyped(m, f[l], width) && StmtTyped(m, f[l].body[k], width);
    }
  }

  /** The back end preserves meaning: splitting critical edges, leaving SSA form, laying out the blocks
      and giving every value a place in the register frame.  For every machine and every number of steps,
      the code over the frame follows the function with phis block by block. */
  lemma BackEndPreservesRuns<W(!new)>(m: Machine<W>, chain: seq<Blocks>, g: Blocks, order: seq<Label>, limit: Id,
                                      width: seq<nat>,
                                      code: seq<Instr>, rep: seq<Temp>, place: seq<Frame.Slot>, frameSize: nat,
                                      s: State<W>, q: Outcome<seq<Byte>, W>, steps: nat) returns (k: nat)
    requires SsaExit.IsChain(chain, limit) && FunctionOk(chain[|chain| - 1], limit)
    requires SsaExit.Lowered(chain[|chain| - 1], g, limit)
    requires SsaExit.ListOk(g, order) && FunctionOk(g, |width|) && limit <= |width| && Typed(m, g, width)
    requires Allocated(g, order, code, rep, width, place, frameSize)
    requires Follows(g, order, rep, place, frameSize, limit, s, q) && StartTyped(s, limit, width)
    requires s.At? ==> s.lbl in chain[0]
    ensures k >= steps
    ensures Follows(g, order, rep, place, frameSize, limit, Run(m, chain[0], s, steps),
                    Frame.RunFrame(m, code, place, q, k))
  {
    hide Linear, FunctionOk, SsaExit.Lowered, SsaExit.ListOk, Typed, Follows, StartTyped, SameState, Together,
        RegAlloc.InStep,
      RegAlloc.Separated, Coalesce.Rewritten, WellFormed, RegAlloc.MovesFit, NoPhis;
    CopiesAreTyped(m, g, width);
    LinearOk(g, order, |width|, width);
    LoweredNoPhis(chain[|chain| - 1], g, limit);
    var t, u := Between(g, order, code, rep, width, place, frameSize, limit, s, q);
    var blocks := SsaExit.LeavingSsaPreservesRuns(m, chain, g, limit, s, t, steps);
    k := LinearRuns(m, g, order, width, t, u, blocks);
    RegAlloc.RunsAgree(m, Linear(g, order), |width|, code, rep, width, place, frameSize, u, q, k);
    Composed(g, order, rep, width, place, frameSize, limit, Run(m, chain[0], s, steps), Run(m, g, t, blocks),
             RunTemps(m, Linear(g, order), width, u, k), Frame.RunFrame(m, code, place, q, k));
  }

  // ----- the whole of transform_function -----

  lemma {:induction false} DoneLater<W>(m: Machine<W>, f: Blocks, s: State<W>, a: nat, b: nat)
    requires a <= b && Run(m, f, s, a).Done?
    ensures Run(m, f, s, b) == Run(m, f, s, a)
    decreases b
  {
    if a < b {
      DoneLater(m, f, s, a, b - 1);
    }
  }

  lemma {:induction false} LeftLater<W>(m: Machine<W>, code: seq<Instr>, width: seq<nat>, t: Outcome<seq<Value>, W>,
                                        a: nat, b: nat)
    requires a <= b && RunTemps(m, code, width, t, a).Left?
    ensures RunTemps(m, code, width, t, b) == RunTemps(m, code, width, t, a)
    decreases b
  {
    if a < b {
      LeftLater(m, code, width, t, a, b - 1);
    }
  }

  ghost predicate Returns<W>(m: Machine<W>, f: Blocks, s: State<W>, values: seq<Value>, world: W) {
    exists n: nat :: Run(m, f, s, n) == Done(values, world)
  }

  ghost predicate Leaves<W>(m: Machine<W>, code: seq<Instr>, place: seq<Frame.Slot>, q: Outcome<seq<Byte>, W>,
                            values: seq<Value>, world: W) {
    exists k: nat :: Frame.RunFrame(m, code, place, q, k) == Left(values, world)
  }

  /** The function before clean-up returns what the function after it returns. */
  lemma CleanupReturns<W>(m: Machine<W>, g: Blocks, entry: Label, trail: seq<CfgCleanup.Action>, env: Env, world: W,
                          values: seq<Value>, world': W)
    requires CfgCleanup.Fine(g, entry) && CfgCleanup.AllLegal(g, entry, trail)
    ensures Returns(m, g, At(entry, env, world), values, world') <==>
            Returns(m, CfgCleanup.ApplyAll(g, trail), At(CfgCleanup.EntryAll(entry, trail), env, world), values, world')
  {
    hide StepBlock, CfgCleanup.Fine, CfgCleanup.AllLegal;
    var h, entry' := CfgCleanup.ApplyAll(g, trail), CfgCleanup.EntryAll(entry, trail);
    if Returns(m, g, At(entry, env, world), values, world') {
      var n: nat :| Run(m, g, At(entry, env, world), n) == Done(values, world');
      var k := CfgCleanup.CleanupPreservesRuns(m, g, entry, trail, env, world, n);
      DoneLater(m, g, At(entry, env, world), n, k);
      assert Run(m, h, At(entry', env, world), n) == Done(values, world');
    }
    if Returns(m, h, At(entry', env, world), values, world') {
      var n: nat :| Run(m, h, At(entry', env, world), n) == Done(values, world');
      var k := CfgCleanup.CleanupPreservesRuns(m, g, entry, trail, env, world, n);
    }
  }

  /** The function with phis returns what the one with moves returns. */
  lemma LoweringReturns<W>(m: Machine<W>, chain: seq<Blocks>, g: Blocks, limit: Id, s: State<W>, t: State<W>,
                           values: seq<Value>, world: W)
    requires SsaExit.IsChain(chain, limit) && FunctionOk(chain[|chain| - 1], limit)
    requires SsaExit.Lowered(chain[|chain| - 1], g, limit)
    requires SameState(s, t, limit) && (s.At? ==> s.lbl in chain[0])
    ensures Returns(m, chain[0], s, values, world) <==> Returns(m, g, t, values, world)
  {
    hide StepBlock, FunctionOk, SsaExit.SplitOf, SsaExit.Lowered;
    if Returns(m, chain[0], s, values, world) {
      var n: nat :| Run(m, chain[0], s, n) == Done(values, world);
      var k := SsaExit.LeavingSsaPreservesRuns(m, chain, g, limit, s, t, n);
    }
    if Returns(m, g, t, values, world) {
      var n: nat :| Run(m, g, t, n) == Done(values, world);
      var k := SsaExit.LeavingSsaPreservesRuns(m, chain, g, limit, s, t, n);
      DoneLater(m, g, t, n, k);
      assert Run(m, chain[0], s, n) == Done(values, world);
    }
  }

  /** The code over the frame leaves with what the blocks return. */
  lemma CodeReturns<W(!new)>(m: Machine<W>, h: Blocks, order: seq<Label>, width: seq<nat>, code: seq<Instr>,
                             rep: seq<Temp>, place: seq<Frame.Slot>, frameSize: nat,
                             t: State<W>, u: Outcome<seq<Value>, W>, q: Outcome<seq<Byte>, W>,
                             values: seq<Value>, world: W)
    requires SsaExit.ListOk(h, order) && FunctionOk(h, |width|) && NoPhis(h) && Typed(m, h, width)
    requires Allocated(h, order, code, rep, width, place, frameSize) && Together(h, order, width, t, u)
    requires RegAlloc.InStep(Linear(h, order), rep, width, place, frameSize, u, q)
    ensures Returns(m, h, t, values, world) <==> Leaves(m, code, place, q, values, world)
  {
    hide Linear, StepBlock, StepTemps, FunctionOk, SsaExit.ListOk, Typed, Stored, EnvOk, RegAlloc.Agree, WellFormed,
      RegAlloc.MovesFit, NoPhis, RegAlloc.Separated, Coalesce.Rewritten;
    CopiesAreTyped(m, h, width);
    LinearOk(h, order, |width|, width);
    var n: nat;
    if Returns(m, h, t, values, world) {
      n :| Run(m, h, t, n) == Done(values, world);
      var k := LinearRuns(m, h, order, width, t, u, n);
      RegAlloc.RunsAgree(m, Linear(h, order), |width|, code, rep, width, place, frameSize, u, q, k);
      assert Frame.RunFrame(m, code, place, q, k) == Left(values, world);
    }
    if Leaves(m, code, place, q, values, world) {
      n :| Frame.RunFrame(m, code, place, q, n) == Left(values, world);
      RegAlloc.RunsAgree(m, Linear(h, order), |width|, code, rep, width, place, frameSize, u, q, n);
      var k := LinearRuns(m, h, order, width, t, u, n);
      assert RunTemps(m, Linear(h, order), width, u, n) == Left(values, world);
      LeftLater(m, Linear(h, order), width, u, n, k);
      assert Run(m, h, t, n) == Done(values, world);
    }
  }

  lemma LoweredFine(f: Blocks, g: Blocks, limit: Id, entry: Label)
    requires SsaExit.Lowered(f, g, limit) && FunctionOk(f, limit) && entry in f
    ensures CfgCleanup.Fine(g, entry)
  {
    LoweredNoPhis(f, g, limit);
    forall l, k | l in g && 0 <= k < |g[l].last.succs|
      ensures g[l].last.succs[k] in g
    {
      assert SsaExit.LoweredBlock(f, l, g[l], limit);
    }
  }

  lemma {:induction false} ChainGrows(chain: seq<Blocks>, limit: Id, l: Label, k: nat)
    requires SsaExit.IsChain(chain, limit) && k < |chain| && l in chain[0]
    ensures l in chain[k]
  {
    if k > 0 {
      ChainGrows(chain, limit, l, k - 1);
      assert SsaExit.SplitOf(chain[k - 1], chain[k - 1 + 1], limit);
    }
  }

  /** transform_function preserves what a function returns: split critical edges, leave SSA form, clean
      up, lay out the blocks, and give every value a place in the register frame.  The function with phis
      returns with these values and this world if and only if the code over the frame leaves with them;
      so one of them ends exactly if the other does. */
  lemma TransformPreservesResults<W(!new)>(m: Machine<W>, chain: seq<Blocks>, g: Blocks, limit: Id, entry: Label,
                                           trail: seq<CfgCleanup.Action>, order: seq<Label>, width: seq<nat>,
                                           code: seq<Instr>, rep: seq<Temp>, place: seq<Frame.Slot>, frameSize: nat,
                                           env: Env, world: W, q: Outcome<seq<Byte>, W>,
                                           values: seq<Value>, world': W)
    requires SsaExit.IsChain(chain, limit) && FunctionOk(chain[|chain| - 1], limit)
    requires SsaExit.Lowered(chain[|chain| - 1], g, limit) && entry in chain[0] && CfgCleanup.AllLegal(g, entry, trail)
    requires var h := CfgCleanup.ApplyAll(g, trail);
      && SsaExit.ListOk(h, order) && FunctionOk(h, |width|) && limit <= |width| && Typed(m, h, width)
      && Allocated(h, order, code, rep, width, place, frameSize)
      && var s := At(CfgCleanup.EntryAll(entry, trail), env, world);
         Follows(h, order, rep, place, frameSize, limit, s, q) && StartTyped(s, limit, width)
    ensures Returns(m, chain[0], At(entry, env, world), values, world') <==> Leaves(m, code, place, q, values, world')
  {
    hide Linear, FunctionOk, SsaExit.Lowered, SsaExit.SplitOf, SsaExit.ListOk, Typed, Follows, StartTyped, Together,
      RegAlloc.InStep, Allocated, WellFormed, RegAlloc.MovesFit, NoPhis, CfgCleanup.AllLegal, CfgCleanup.ApplyAll,
      CfgCleanup.EntryAll, Returns, Leaves, SameBelow;
    var h, entry' := CfgCleanup.ApplyAll(g, trail), CfgCleanup.EntryAll(entry, trail);
    ChainGrows(chain, limit, entry, |chain| - 1);
    LoweredFine(chain[|chain| - 1], g, limit, entry);
    CfgCleanup.TrailFine(g, entry, trail);
    CopiesAreTyped(m, h, width);
    LinearOk(h, order, |width|, width);
    var t, u := Between(h, order, code, rep, width, place, frameSize, limit, At(entry', env, world), q);
    LoweringReturns(m, chain, g, limit, At(entry, env, world), At(entry, t.env, world), values, world');
    CleanupReturns(m, g, entry, trail, t.env, world, values, world');
    CodeReturns(m, h, order, width, code, rep, place, frameSize, t, u, q, values, world');
  }
}
