/** Register allocation preserves meaning. */
module RegAlloc {
  import opened Basics
  import opened Code
  import opened Frame
  import opened Bits
  import opened Liveness
  import opened Interference
  import opened Coalesce
  import opened Colour

  /** The half of the argument that colouring has to deliver: seen through the identification of
      values, interfering values are in disjoint places, all places are the same or disjoint, and
      they are inside the frame. */
  ghost predicate Separated(code0: seq<Instr>, n: nat, rep: seq<Temp>, width: seq<nat>, place: seq<Slot>,
                            frameSize: nat) {
    && IsQuotient(rep, n) && |width| == |place| == n
    && (forall x | 0 <= x < n :: place[rep[x]].size == width[x] && Frame.Inside(place[rep[x]], frameSize))
    && (forall x, y | 0 <= x < n && 0 <= y < n ::
          place[rep[x]] == place[rep[y]] || Disjoint(place[rep[x]], place[rep[y]]))
    && (forall x, y | 0 <= x < n && 0 <= y < n && Interfere(code0, x, y) :: Disjoint(place[rep[x]], place[rep[y]]))
  }

  /** A copy is between values of one width; the split of a 64-bit argument goes to two
      32-bit ones. */
  predicate MoveFits(ins: Instr, n: nat, width: seq<nat>) {
    ins.kind.Move? && |ins.uses| == 1 && ins.uses[0] < n == |width| ==>
      if |ins.defs| == 1 then ins.defs[0] < n && width[ins.defs[0]] == width[ins.uses[0]]
      else forall d | d in ins.defs :: d < n && width[d] != width[ins.uses[0]]
  }

  /** The frame holds the value of v. */
  predicate Holds(frame: seq<Byte>, rep: seq<Temp>, place: seq<Slot>, env: seq<Value>, v: Temp) {
    v < |rep| == |env| && rep[v] < |place| && ReadSlot(frame, place[rep[v]]) == env[v]
  }

  /** Temporaries and frame agree on everything live. */
  ghost predicate Agree(code0: seq<Instr>, rep: seq<Temp>, place: seq<Slot>, pc: nat, env: seq<Value>,
                        frame: seq<Byte>) {
    forall v | LiveIn(code0, pc, v) :: Holds(frame, rep, place, env, v)
  }

  lemma {:induction false} WritesAgree(n: nat, rep: seq<Temp>, width: seq<nat>, place: seq<Slot>, frame: seq<Byte>,
                                       env: seq<Value>,
                                       defs: seq<Temp>, rs: seq<Value>, k: nat, v: Temp)
    requires IsQuotient(rep, n) && |width| == |place| == n && EnvOk(env, width)
    requires forall x | 0 <= x < n :: place[rep[x]].size == width[x] && Frame.Inside(place[rep[x]], |frame|)
    requires k <= |defs| && (forall j | 0 <= j < |defs| :: defs[j] < n) && v < n
    requires v in defs || Holds(frame, rep, place, env, v)
    requires forall j | 0 <= j < |defs| && defs[j] != v ::
               Disjoint(place[rep[defs[j]]], place[rep[v]])
               || (v !in defs && place[rep[defs[j]]] == place[rep[v]] && ResultAt(rs, j) == env[v])
    ensures EnvOk(WriteTemps(env, width, defs, rs, k), width)
    ensures v in defs[..k] || v !in defs ==>
              Holds(WriteSlots(frame, place, RenameAll(rep, defs), rs, k), rep, place,
                    WriteTemps(env, width, defs, rs, k), v)
    ensures v !in defs ==> WriteTemps(env, width, defs, rs, k)[v] == env[v]
  {
    if k > 0 {
      WritesAgree(n, rep, width, place, frame, env, defs, rs, k - 1, v);
      var d := defs[k - 1];
      var frame1 := WriteSlots(frame, place, RenameAll(rep, defs), rs, k - 1);
      var a := place[rep[d]];
      assert SlotAt(place, RenameAll(rep, defs)[k - 1]) == a;
      var r := Fit(ResultAt(rs, k - 1), a.size);
      if d == v {
        ReadBack(frame1, a, r);
      } else if Disjoint(a, place[rep[v]]) {
        ReadOther(frame1, a, r, place[rep[v]]);
        assert v in defs[..k] ==> v in defs[..k - 1];
      } else {
        ReadBack(frame1, a, r);
      }
    }
  }

  ghost predicate MovesFit(code: seq<Instr>, n: nat, width: seq<nat>) {
    forall pc | 0 <= pc < |code| :: MoveFits(code[pc], n, width)
  }

  /** The two runs are at the same point of the same history. */
  ghost predicate InStep<W>(code0: seq<Instr>, rep: seq<Temp>, width: seq<nat>, place: seq<Slot>, frameSize: nat,
                            s: Outcome<seq<Value>, W>, t: Outcome<seq<Byte>, W>) {
    match s
    case Left(values, world) => t == Left(values, world)
    case Running(pc, env, world) =>
      && t.Running? && t.pc == pc && t.world == world && pc < |code0|
      && EnvOk(env, width) && |t.store| == frameSize
      && Agree(code0, rep, place, pc, env, t.store)
  }

  lemma ArgsAgree(code0: seq<Instr>, n: nat, rep: seq<Temp>, width: seq<nat>, place: seq<Slot>, pc: nat,
                  env: seq<Value>, frame: seq<Byte>)
    requires pc < |code0| && |rep| == |env| == |place| == n && InstrOk(code0, n, pc)
    requires Agree(code0, rep, place, pc, env, frame)
    ensures ReadTemps(env, code0[pc].uses) == ReadSlots(frame, place, RenameAll(rep, code0[pc].uses))
  {
    var uses := code0[pc].uses;
    forall k | 0 <= k < |uses|
      ensures ReadTemps(env, uses)[k] == ReadSlots(frame, place, RenameAll(rep, uses))[k]
    {
      assert uses[k] in uses;
      LiveAtUse(code0, pc, uses[k]);
      assert Holds(frame, rep, place, env, uses[k]);
    }
  }

  /** What is live out of an instruction agrees after it. */
  lemma LiveOutAgrees(code0: seq<Instr>, n: nat, rep: seq<Temp>, width: seq<nat>, place: seq<Slot>,
                      pc: nat, env: seq<Value>, frame: seq<Byte>, rs: seq<Value>, v: Temp)
    requires WellFormed(code0, n) && MovesFit(code0, n, width)
    requires Separated(code0, n, rep, width, place, |frame|)
    requires pc < |code0| && EnvOk(env, width) && Agree(code0, rep, place, pc, env, frame)
    requires LiveOut(code0, pc, v) && v < n
    requires IsCopy(code0[pc]) && code0[pc].uses[0] < |env| ==> ResultAt(rs, 0) == env[code0[pc].uses[0]]
    ensures var defs := code0[pc].defs;
            var env' := WriteTemps(env, width, defs, rs, |defs|);
            && EnvOk(env', width)
            && Holds(WriteSlots(frame, place, RenameAll(rep, defs), rs, |defs|), rep, place, env', v)
  {
    hide Separates, Interfere, LiveOut, LiveIn, Agree, WellFormed, Separated, MovesFit, Holds, EnvOk, WriteTemps,
        WriteSlots, Disjoint;
    var defs := code0[pc].defs;
    SeparatedParts(code0, n, rep, width, place, |frame|);
    EnvSize(env, width);
    DefsBelow(code0, n, pc);
    if v !in defs {
      LivesOn(code0, rep, place, pc, env, frame, v);
    }
    forall j | 0 <= j < |defs| && defs[j] != v
      ensures Disjoint(place[rep[defs[j]]], place[rep[v]])
              || (v !in defs && place[rep[defs[j]]] == place[rep[v]] && ResultAt(rs, j) == env[v])
    {
      DefKeeps(code0, n, rep, width, place, pc, env, |frame|, rs, v, j);
    }
    WritesAgree(n, rep, width, place, frame, env, defs, rs, |defs|, v);
    assert defs[..|defs|] == defs;
  }

  lemma EnvSize(env: seq<Value>, width: seq<nat>)
    requires EnvOk(env, width)
    ensures |env| == |width|
  {
  }

  lemma SeparatedParts(code0: seq<Instr>, n: nat, rep: seq<Temp>, width: seq<nat>, place: seq<Slot>, frameSize: nat)
    requires Separated(code0, n, rep, width, place, frameSize)
    ensures IsQuotient(rep, n) && |width| == |place| == n
    ensures forall x | 0 <= x < n :: place[rep[x]].size == width[x] && Frame.Inside(place[rep[x]], frameSize)
  {
    hide Interfere, Disjoint;
  }

  lemma DefsBelow(code0: seq<Instr>, n: nat, pc: nat)
    requires WellFormed(code0, n) && pc < |code0|
    ensures forall j | 0 <= j < |code0[pc].defs| :: code0[pc].defs[j] < n
  {
    assert InstrOk(code0, n, pc);
    assert forall j | 0 <= j < |code0[pc].defs| :: code0[pc].defs[j] in code0[pc].defs;
  }

  lemma LivesOn(code0: seq<Instr>, rep: seq<Temp>, place: seq<Slot>, pc: nat, env: seq<Value>, frame: seq<Byte>,
                v: Temp)
    requires pc < |code0| && Agree(code0, rep, place, pc, env, frame) && LiveOut(code0, pc, v) && v !in code0[pc].defs
    ensures Holds(frame, rep, place, env, v)
  {
    hide LiveIn, LiveOut, Holds;
    LiveAcross(code0, pc, v);
  }

  /** What a definition does to a value that is live behind it: it writes elsewhere, or it is Chaitin's
      exception and writes the same value to the same place. */
  lemma DefKeeps(code0: seq<Instr>, n: nat, rep: seq<Temp>, width: seq<nat>, place: seq<Slot>, pc: nat, env: seq<Value>,
                 frameSize: nat, rs: seq<Value>, v: Temp, j: nat)
    requires WellFormed(code0, n) && MovesFit(code0, n, width) && Separated(code0, n, rep, width, place, frameSize)
    requires pc < |code0| && |env| == |width| && LiveOut(code0, pc, v) && v < n
    requires j < |code0[pc].defs| && code0[pc].defs[j] != v && code0[pc].defs[j] < n
    requires IsCopy(code0[pc]) && code0[pc].uses[0] < |env| ==> ResultAt(rs, 0) == env[code0[pc].uses[0]]
    ensures var defs := code0[pc].defs;
            Disjoint(place[rep[defs[j]]], place[rep[v]])
            || (v !in defs && place[rep[defs[j]]] == place[rep[v]] && ResultAt(rs, j) == env[v])
  {
    hide LiveOut;
    assert InstrOk(code0, n, pc) && MoveFits(code0[pc], n, width);
    var defs, uses := code0[pc].defs, code0[pc].uses;
    assert defs[j] in defs;
    if code0[pc].kind.Move? && v in uses {
      assert v == uses[0];
    } else {
      assert Separates(code0, pc, defs[j], v);
      assert Interfere(code0, defs[j], v);
    }
  }

  /** A copy between values in one place does nothing to the frame. */
  lemma RemovedCopyAgrees(code0: seq<Instr>, n: nat, rep: seq<Temp>, width: seq<nat>, place: seq<Slot>,
                          pc: nat, env: seq<Value>, frame: seq<Byte>, v: Temp)
    requires WellFormed(code0, n) && MovesFit(code0, n, width)
    requires Separated(code0, n, rep, width, place, |frame|)
    requires pc < |code0| && EnvOk(env, width) && Agree(code0, rep, place, pc, env, frame)
    requires LiveOut(code0, pc, v) && v < n
    requires IsCopy(code0[pc]) && RepOf(rep, code0[pc].defs[0]) == RepOf(rep, code0[pc].uses[0])
    ensures var env' := WriteTemps(env, width, code0[pc].defs, ReadTemps(env, code0[pc].uses), 1);
            EnvOk(env', width) && Holds(frame, rep, place, env', v)
  {
    assert InstrOk(code0, n, pc) && MoveFits(code0[pc], n, width);
    var d, u := code0[pc].defs[0], code0[pc].uses[0];
    assert d in code0[pc].defs && u in code0[pc].uses;
    LiveAtUse(code0, pc, u);
    assert Holds(frame, rep, place, env, u);
    WriteOne(env, width, d, u);
    assert code0[pc].defs == [d] && code0[pc].uses == [u];
    if v != d {
      LiveAcross(code0, pc, v);
      assert Holds(frame, rep, place, env, v);
    }
  }

  lemma WriteOne(env: seq<Value>, width: seq<nat>, d: Temp, u: Temp)
    requires EnvOk(env, width) && d < |env| && u < |env| && width[d] == width[u]
    ensures WriteTemps(env, width, [d], ReadTemps(env, [u]), 1) == env[d := env[u]]
  {
    assert WriteTemps(env, width, [d], ReadTemps(env, [u]), 0) == env;
    assert ResultAt(ReadTemps(env, [u]), 0) == env[u];
  }

  /** One step of the code over temporaries is one step of the rewritten code over the frame. */
  lemma StepInStep<W>(m: Machine<W>, code0: seq<Instr>, n: nat, code: seq<Instr>, rep: seq<Temp>, width: seq<nat>,
                      place: seq<Slot>,
                      frameSize: nat, s: Outcome<seq<Value>, W>, t: Outcome<seq<Byte>, W>)
    requires WellFormed(code0, n) && MovesFit(code0, n, width)
    requires Separated(code0, n, rep, width, place, frameSize) && Rewritten(code0, code, rep)
    requires InStep(code0, rep, width, place, frameSize, s, t)
    ensures InStep(code0, rep, width, place, frameSize, StepTemps(m, code0, width, s), StepFrame(m, code, place, t))
  {
    if s.Left? {
      return;
    }
    var pc, env, frame, ins := s.pc, s.store, t.store, code0[s.pc];
    assert InstrOk(code0, n, pc) && RewrittenAt(ins, code[pc], rep);
    ArgsAgree(code0, n, rep, width, place, pc, env, frame);
    var args := ReadTemps(env, ins.uses);
    var rs := Results(m, ins, args, s.world);
    var env' := WriteTemps(env, width, ins.defs, rs, |ins.defs|);
    var frame' := if code[pc] == Rename(rep, ins)
                  then WriteSlots(frame, place, RenameAll(rep, ins.defs), rs, |ins.defs|) else frame;
    assert Results(m, Rename(rep, ins), args, s.world) == rs;
    assert WriteSlots(frame, place, [], [], 0) == frame;
    assert ReadSlots(frame, place, []) == [];
    forall v: Temp | LiveOut(code0, pc, v)
      ensures v < n && Holds(frame', rep, place, env', v)
    {
      var q :| q in Succs(code0, pc) && LiveIn(code0, q, v);
      LiveBelow(code0, n, q, v);
      if code[pc] == Rename(rep, ins) {
        LiveOutAgrees(code0, n, rep, width, place, pc, env, frame, rs, v);
      } else {
        RemovedCopyAgrees(code0, n, rep, width, place, pc, env, frame, v);
      }
    }
    EnvStays(env, width, ins.defs, rs, |ins.defs|);
    var s' := StepTemps(m, code0, width, s);
    if s'.Running? {
      AdvanceGoesToSucc(m, code0, n, pc, args, s.world, env');
      assert forall v | LiveIn(code0, s'.pc, v) :: LiveOut(code0, pc, v);
    }
  }

  lemma {:induction false} EnvStays(env: seq<Value>, width: seq<nat>, defs: seq<Temp>, rs: seq<Value>, k: nat)
    requires EnvOk(env, width) && k <= |defs|
    ensures EnvOk(WriteTemps(env, width, defs, rs, k), width)
  {
    if k > 0 {
      EnvStays(env, width, defs, rs, k - 1);
    }
  }

  lemma AdvanceGoesToSucc<S, W>(m: Machine<W>, code: seq<Instr>, n: nat, pc: nat, args: seq<Value>, world: W, store: S)
    requires WellFormed(code, n) && pc < |code|
    ensures var s := Advance(m, code[pc], pc, args, world, store);
            s.Running? ==> s.pc in Succs(code, pc) && s.pc < |code| && s.store == store
  {
    assert InstrOk(code, n, pc);
    var ins := code[pc];
    if ins.next.Goto? && ins.next.targets != [] {
      var choice := if ins.kind.Op? then m.pick(ins.kind.id, world, args) else 0;
      assert ins.next.targets[choice % |ins.next.targets|] in ins.next.targets;
    }
  }

  /** Register allocation preserves meaning: any assignment of places that separates the original
      interference relation makes the rewritten code over the frame follow the original code over
      temporaries, for every machine, every start and every number of steps. */
  lemma {:induction false} RunsAgree<W>(m: Machine<W>, code0: seq<Instr>, n: nat, code: seq<Instr>, rep: seq<Temp>,
                                        width: seq<nat>,
                                        place: seq<Slot>, frameSize: nat, s: Outcome<seq<Value>, W>,
                                          t: Outcome<seq<Byte>, W>, steps: nat)
    requires WellFormed(code0, n) && MovesFit(code0, n, width)
    requires Separated(code0, n, rep, width, place, frameSize) && Rewritten(code0, code, rep)
    requires InStep(code0, rep, width, place, frameSize, s, t)
    ensures InStep(code0, rep, width, place, frameSize, RunTemps(m, code0, width, s, steps),
                   RunFrame(m, code, place, t, steps))
  {
    if steps > 0 {
      RunsAgree(m, code0, n, code, rep, width, place, frameSize, s, t, steps - 1);
      StepInStep(m, code0, n, code, rep, width, place, frameSize,
                 RunTemps(m, code0, width, s, steps - 1), RunFrame(m, code, place, t, steps - 1));
    }
  }

  // ----- the allocator -----

  function Widths(slots: seq<nat>): (r: seq<nat>)
    ensures |r| == |slots| && forall t | 0 <= t < |slots| :: r[t] == 4 * slots[t]
  {
    seq(|slots|, t requires 0 <= t < |slots| => 4 * slots[t])
  }

  function Places(reg: seq<nat>, slots: seq<nat>): (r: seq<Slot>)
    requires |reg| == |slots|
    ensures |r| == |slots| && forall t | 0 <= t < |slots| :: r[t] == SlotOf(reg, slots, t)
  {
    seq(|slots|, t requires 0 <= t < |slots| => SlotOf(reg, slots, t))
  }

  /** A frame that is right for the quotient graph separates the original relation. */
  lemma FrameSeparates(code0: seq<Instr>, n: nat, rep: seq<Temp>, g: Graph, reg: seq<nat>, slots: seq<nat>,
                       dead: seq<bool>,
                       precolored: seq<bool>, frameSize: nat)
    requires |g| == |reg| == |slots| == n
    requires ValuesOk(n, rep, dead, precolored, Widths(slots)) && IsImage(InterferenceGraph(code0, n), rep, g)
    requires FrameOk(g, reg, slots, Alive(dead), frameSize)
    ensures Separated(code0, n, rep, Widths(slots), Places(reg, slots), frameSize)
  {
    forall x | 0 <= x < n
      ensures rep[x] in Alive(dead) && slots[rep[x]] == slots[x]
    {
      assert Widths(slots)[rep[x]] == Widths(slots)[x];
    }
    forall x, y | 0 <= x < n && 0 <= y < n && Interfere(code0, x, y)
      ensures Disjoint(SlotOf(reg, slots, rep[x]), SlotOf(reg, slots, rep[y]))
    {
      assert y in InterferenceGraph(code0, n)[x];
      assert rep[y] in g[rep[x]];
    }
  }

  /** The frame is that of a greedy colouring of the quotient of the interference relation, without waste. */
  ghost predicate GreedyFrame(code0: seq<Instr>, n: nat, rep: seq<Temp>, slots: seq<nat>, reg: seq<nat>,
                              frameSize0: nat,
                              callArgBase: nat, numCallArgs: nat, frameSize: nat, g: Graph, colours: seq<int>) {
    && |rep| == |slots| == |reg| == |colours| == n && IsImage(InterferenceGraph(code0, n), rep, g)
    && var vs := Vertices(rep, callArgBase, numCallArgs);
       && Coloured(g, colours, vs) && Greedy(g, colours, vs)
       && exists count1, count2 :: Packed(vs, slots, colours, reg, frameSize0, numCallArgs, frameSize, count1, count2)
  }

  /** The representatives that are not arguments. */
  ghost function Vertices(rep: seq<Temp>, callArgBase: nat, numCallArgs: nat): (r: set<nat>)
    ensures forall v :: v in r <==> 0 <= v < |rep| && rep[v] == v && !(callArgBase <= v < callArgBase + numCallArgs)
  {
    set v: nat | v < |rep| && rep[v] == v && !(callArgBase <= v < callArgBase + numCallArgs)
  }

  lemma VerticesAre(n: nat, rep: seq<Temp>, dead: seq<bool>, precolored: seq<bool>, width: seq<nat>, callArgBase: nat,
                    numCallArgs: nat)
    requires ValuesOk(n, rep, dead, precolored, width)
    requires forall t | 0 <= t < n :: precolored[t] <==> callArgBase <= t < callArgBase + numCallArgs
    ensures Free(dead, precolored) == Vertices(rep, callArgBase, numCallArgs)
  {
  }

  predicate Became(rep: seq<Temp>, x: Temp, d: Temp) {
    x < |rep| && rep[x] == d
  }

  /** A copy is left only if its operands are different and are both arguments, or if values that have
      become them interfere in the original code. */
  ghost predicate CopyNeeded(code0: seq<Instr>, n: nat, rep: seq<Temp>, ins: Instr, callArgBase: nat,
                             numCallArgs: nat) {
    IsCopy(ins) ==>
      var d, u := ins.defs[0], ins.uses[0];
      d < n && u < n && d != u
      && ((callArgBase <= d < callArgBase + numCallArgs && callArgBase <= u < callArgBase + numCallArgs)
          || exists x, y | 0 <= x < n && 0 <= y < n :: Became(rep, x, d) && Became(rep, y, u) && Interfere(code0, x, y))
  }

  /** liveness_analysis, coalesce and finalize_call_args for a function whose values take
      slots[t] words each and whose outgoing arguments are the values from callArgBase on. */
  method AllocateRegisters(code0: seq<Instr>, n: nat, slots: seq<nat>, callArgBase: nat, numCallArgs: nat,
                           frameSize0: nat)
    returns (code: seq<Instr>, reg: array<nat>, frameSize: nat, ghost rep: seq<Temp>, ghost quotient: Graph,
             ghost colours: seq<int>)
    requires WellFormed(code0, n) && |slots| == n
    requires forall t | 0 <= t < n :: slots[t] == 1 || slots[t] == 2
    requires MovesFit(code0, n, Widths(slots))
    requires callArgBase + numCallArgs <= n && frameSize0 >= SCRATCH
    requires forall t | callArgBase <= t < callArgBase + numCallArgs :: slots[t] == 1
    ensures reg.Length == n && Rewritten(code0, code, rep)
    ensures Separated(code0, n, rep, Widths(slots), Places(reg[..], slots), frameSize)
    ensures forall t | 0 <= t < n :: reg[rep[t]] >= SCRATCH
    ensures forall t | callArgBase <= t < callArgBase + numCallArgs ::
              rep[t] == t && reg[t] == frameSize - (t - callArgBase + 1) * 4
    ensures forall pc | 0 <= pc < |code| :: CopyNeeded(code0, n, rep, code[pc], callArgBase, numCallArgs)
    ensures GreedyFrame(code0, n, rep, slots, reg[..], frameSize0, callArgBase, numCallArgs, frameSize, quotient,
                        colours)
    ensures |rep| == n && forall x, y | 0 <= x < n && 0 <= y < n :: rep[x] == rep[y] <==> Joined(code0, code, x, y)
  {
    hide WellFormed, MovesFit, CopiesFit, Progress, CopyNeeded, Joined, RepJoined, CopiesDone, GreedyFrame, Separated,
      FrameOk, Coloured, Greedy, Packed, Rewritten, Counted, Irreflexive;
    var precolored := seq(n, t => callArgBase <= t < callArgBase + numCallArgs);
    CopiesAreMoves(code0, n, Widths(slots));
    var mtx, edges, dead;
    code, mtx, edges, dead, rep := Coalesced(code0, n, precolored, Widths(slots));
    ProgressIs(code0, n, code, rep, mtx.rel, edges[..], dead[..], precolored, Widths(slots));

    reg := new nat[n](_ => 0);
    frameSize, colours := AllocateFrame(mtx, edges, dead, precolored, slots, callArgBase, numCallArgs, reg, frameSize0);
    quotient := mtx.rel;
    AllocationRight(code0, n, code, rep, quotient, edges[..], dead[..], precolored, slots, callArgBase, numCallArgs,
                    reg[..], frameSize0, frameSize, colours);
  }

  /** liveness_analysis and the two loop nests of coalesce. */
  method Coalesced(code0: seq<Instr>, n: nat, precolored: seq<bool>, ghost width: seq<nat>)
    returns (code: seq<Instr>, mtx: TriMatrix, edges: array<int>, dead: array<bool>, ghost rep: seq<Temp>)
    requires WellFormed(code0, n) && |width| == |precolored| == n && CopiesFit(code0, n, width)
    ensures fresh(mtx) && fresh(mtx.words) && fresh(edges) && fresh(dead)
    ensures mtx.Valid() && mtx.size == n == edges.Length == dead.Length
    ensures Progress(code0, n, code, rep, mtx.rel, edges[..], dead[..], precolored, width)
    ensures CopiesDone(mtx.rel, precolored, code, |code|) && RepJoined(code0, code, rep)
  {
    hide WellFormed, CopiesFit, Progress, CopiesDone, RepJoined;
    var out := new set<Temp>[|code0|](_ => {});
    var inn := new set<Temp>[|code0|](_ => {});
    LivenessUpdate(code0, n, out, inn);
    mtx := new TriMatrix(n);
    edges := new int[n](_ => 0);
    Build(code0, n, out[..], mtx, edges);
    dead := new bool[n](_ => false);
    code, rep := CoalesceMoves(code0, n, mtx, edges, dead, precolored, width);
  }

  lemma ProgressIs(code0: seq<Instr>, n: nat, code: seq<Instr>, rep: seq<Temp>, g: Graph, edges: seq<int>,
                   dead: seq<bool>, precolored: seq<bool>, width: seq<nat>)
    requires Progress(code0, n, code, rep, g, edges, dead, precolored, width)
    ensures Counted(g, edges) && Irreflexive(g) && |g| == n
  {
    hide Counted, Irreflexive, Rewritten;
  }

  /** Everything that is promised of the allocation. */
  lemma AllocationRight(code0: seq<Instr>, n: nat, code: seq<Instr>, rep: seq<Temp>, g: Graph, edges: seq<int>,
                        dead: seq<bool>, precolored: seq<bool>, slots: seq<nat>, callArgBase: nat, numCallArgs: nat,
                        reg: seq<nat>, frameSize0: nat, frameSize: nat, colours: seq<int>)
    requires |slots| == |reg| == |colours| == |g| == |dead| == |precolored| == n
    requires Progress(code0, n, code, rep, g, edges, dead, precolored, Widths(slots))
    requires CopiesDone(g, precolored, code, |code|) && RepJoined(code0, code, rep)
    requires forall t | 0 <= t < n :: precolored[t] <==> callArgBase <= t < callArgBase + numCallArgs
    requires callArgBase + numCallArgs <= n
    requires FrameOk(g, reg, slots, Alive(dead), frameSize)
    requires Coloured(g, colours, Free(dead, precolored)) && Greedy(g, colours, Free(dead, precolored))
    requires exists count1, count2 ::
               Packed(Free(dead, precolored), slots, colours, reg, frameSize0, numCallArgs, frameSize, count1, count2)
    ensures Rewritten(code0, code, rep) && Separated(code0, n, rep, Widths(slots), Places(reg, slots), frameSize)
    ensures |rep| == n && forall t | 0 <= t < n :: rep[t] < n && reg[rep[t]] >= SCRATCH
    ensures forall t | callArgBase <= t < callArgBase + numCallArgs :: rep[t] == t
    ensures forall pc | 0 <= pc < |code| :: CopyNeeded(code0, n, rep, code[pc], callArgBase, numCallArgs)
    ensures forall x, y | 0 <= x < n && 0 <= y < n :: rep[x] == rep[y] <==> Joined(code0, code, x, y)
    ensures GreedyFrame(code0, n, rep, slots, reg, frameSize0, callArgBase, numCallArgs, frameSize, g, colours)
  {
    hide Rewritten, IsImage, IsQuotient, Coloured, Greedy, Packed, CopyNeeded, Joined, RepJoined, CopiesDone, Counted,
      Irreflexive, Symmetric, Separated, FrameOk;
    assert Progress(code0, n, code, rep, g, edges, dead, precolored, Widths(slots));
    CopiesAreNeeded(code0, n, code, rep, g, precolored, callArgBase, numCallArgs);
    JoinedExactly(code0, code, n, rep);
    VerticesAre(n, rep, dead, precolored, Widths(slots), callArgBase, numCallArgs);
    FrameSeparates(code0, n, rep, g, reg, slots, dead, precolored, frameSize);
    RepresentativesLive(n, rep, dead, precolored, Widths(slots));
    AboveScratch(g, reg, slots, Alive(dead), frameSize);
  }

  lemma AboveScratch(g: Graph, reg: seq<nat>, slots: seq<nat>, alive: set<nat>, frameSize: nat)
    requires |g| == |reg| == |slots| && FrameOk(g, reg, slots, alive, frameSize)
    ensures forall v | v in alive :: v < |reg| && SCRATCH <= reg[v]
  {
  }

  lemma RepresentativesLive(n: nat, rep: seq<Temp>, dead: seq<bool>, precolored: seq<bool>, width: seq<nat>)
    requires ValuesOk(n, rep, dead, precolored, width)
    ensures |rep| == n && forall t | 0 <= t < n :: rep[t] in Alive(dead)
    ensures forall t | 0 <= t < n && precolored[t] :: rep[t] == t
  {
  }

  lemma JoinedExactly(code0: seq<Instr>, code: seq<Instr>, n: nat, rep: seq<Temp>)
    requires IsQuotient(rep, n) && Rewritten(code0, code, rep) && RepJoined(code0, code, rep)
    ensures forall x, y | 0 <= x < n && 0 <= y < n :: rep[x] == rep[y] <==> Joined(code0, code, x, y)
  {
    hide IsQuotient, Rewritten, RepJoined, Joined;
    assert |rep| == n by {
      QuotientSize(rep, n);
    }
    forall x, y | 0 <= x < n && 0 <= y < n
      ensures rep[x] == rep[y] <==> Joined(code0, code, x, y)
    {
      SameExactlyIfJoined(code0, code, n, rep, x, y);
    }
  }

  lemma QuotientSize(rep: seq<Temp>, n: nat)
    requires IsQuotient(rep, n)
    ensures |rep| == n
  {
  }

  lemma CopiesAreNeeded(code0: seq<Instr>, n: nat, code: seq<Instr>, rep: seq<Temp>, g: Graph, precolored: seq<bool>,
                        callArgBase: nat, numCallArgs: nat)
    requires IsImage(InterferenceGraph(code0, n), rep, g) && |precolored| == n
    requires forall t | 0 <= t < n :: precolored[t] <==> callArgBase <= t < callArgBase + numCallArgs
    requires CopiesDone(g, precolored, code, |code|)
    ensures forall pc | 0 <= pc < |code| :: CopyNeeded(code0, n, rep, code[pc], callArgBase, numCallArgs)
  {
    forall pc | 0 <= pc < |code|
      ensures CopyNeeded(code0, n, rep, code[pc], callArgBase, numCallArgs)
    {
      assert StaysApart(g, precolored, code[pc]);
      if IsCopy(code[pc]) && !(precolored[code[pc].defs[0]] && precolored[code[pc].uses[0]]) {
        ApartInterfere(code0, n, rep, g, code[pc].defs[0], code[pc].uses[0]);
      }
    }
  }

  lemma ApartInterfere(code0: seq<Instr>, n: nat, rep: seq<Temp>, g: Graph, d: Temp, u: Temp)
    requires IsImage(InterferenceGraph(code0, n), rep, g) && d < |g| && u in g[d]
    ensures exists x, y | 0 <= x < n && 0 <= y < n :: Became(rep, x, d) && Became(rep, y, u) && Interfere(code0, x, y)
  {
    var g0 := InterferenceGraph(code0, n);
    assert HasPreimage(g0, rep, d, u);
    var x, y :| 0 <= x < n && 0 <= y < n && y in g0[x] && rep[x] == d && rep[y] == u;
    assert Became(rep, x, d) && Became(rep, y, u);
  }

  lemma CopiesAreMoves(code0: seq<Instr>, n: nat, width: seq<nat>)
    requires WellFormed(code0, n) && |width| == n && MovesFit(code0, n, width)
    ensures CopiesFit(code0, n, width)
  {
    forall pc | 0 <= pc < |code0| && IsCopy(code0[pc])
      ensures InstrOk(code0, n, pc) && CopyFits(code0[pc], width)
    {
      assert InstrOk(code0, n, pc) && MoveFits(code0[pc], n, width);
      assert code0[pc].uses[0] in code0[pc].uses;
    }
  }
}
