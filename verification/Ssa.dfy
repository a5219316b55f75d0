/** Functions as blocks with phis, and what it means to run them. */
module Ssa {
  import opened Code
  import opened ParallelCopy

  type Label = nat

  datatype Stmt = Copy(dst: Id, src: Id) | Do(op: nat, defs: seq<Id>, uses: seq<Id>)

  /** The last instruction of a block.  A Jump only chooses where to go, and with no successors
      leaves the function; an Invoke also computes values and acts on the world. */
  datatype Last =
    | Jump(op: nat, uses: seq<Id>, succs: seq<Label>)
    | Invoke(op: nat, defs: seq<Id>, uses: seq<Id>, succs: seq<Label>)

  datatype Block = Block(phis: seq<Phi>, body: seq<Stmt>, last: Last)

  type Blocks = map<Label, Block>

  /** A control flow edge as the edge lists hold it. */
  datatype Edge = Edge(src: Label, dst: Label)

  type Env = map<Id, Value>

  function Read(env: Env, t: Id): (r: Value) {
    if t in env then env[t] else []
  }

  function ReadAll(env: Env, ts: seq<Id>): (r: seq<Value>)
    ensures |r| == |ts|
  {
    seq(|ts|, k requires 0 <= k < |ts| => Read(env, ts[k]))
  }

  function WriteAll(env: Env, defs: seq<Id>, rs: seq<Value>, k: nat): (r: Env)
    requires k <= |defs|
  {
    if k == 0 then env else WriteAll(env, defs, rs, k - 1)[defs[k - 1] := ResultAt(rs, k - 1)]
  }

  datatype Local<W> = Local(env: Env, world: W)

  function ExecStmt<W>(m: Machine<W>, s: Stmt, l: Local<W>): (r: Local<W>) {
    match s
    case Copy(dst, src) => Local(l.env[dst := Read(l.env, src)], l.world)
    case Do(op, defs, uses) =>
      var args := ReadAll(l.env, uses);
      Local(WriteAll(l.env, defs, m.exec(op, l.world, args), |defs|), m.effect(op, l.world, args))
  }

  function ExecBody<W>(m: Machine<W>, body: seq<Stmt>, l: Local<W>): (r: Local<W>) {
    if body == [] then l else ExecStmt(m, body[|body| - 1], ExecBody(m, body[..|body| - 1], l))
  }

  /** Which value t takes its new content from when the phis are evaluated, all at once. */
  function Source(phis: seq<Phi>, predecessor: Label, t: Id): (r: Id) {
    if phis == [] then t
    else if phis[0].ret == t then Incoming(phis[0], predecessor)
    else Source(phis[1..], predecessor, t)
  }

  function EvalPhis(phis: seq<Phi>, predecessor: Label, env: Env): (r: Env)
    ensures forall t :: Read(r, t) == Read(env, Source(phis, predecessor, t))
  {
    var rets := set i | 0 <= i < |phis| :: phis[i].ret;
    var r: Env := map t | t in env.Keys + rets :: Read(env, Source(phis, predecessor, t));
    assert forall t :: Read(r, t) == Read(env, Source(phis, predecessor, t)) by {
      forall t | t !in env.Keys + rets
        ensures Source(phis, predecessor, t) == t
      {
        assert forall i | 0 <= i < |phis| :: phis[i].ret in rets;
        SourceOther(phis, predecessor, t);
      }
    }
    r
  }

  lemma {:induction false} SourceOther(phis: seq<Phi>, predecessor: Label, t: Id)
    requires forall i | 0 <= i < |phis| :: phis[i].ret != t
    ensures Source(phis, predecessor, t) == t
  {
    if phis != [] {
      SourceOther(phis[1..], predecessor, t);
    }
  }

  lemma {:induction false} SourceOf(phis: seq<Phi>, predecessor: Label, i: nat)
    requires forall i, j | 0 <= i < j < |phis| :: phis[i].ret != phis[j].ret
    requires i < |phis|
    ensures Source(phis, predecessor, phis[i].ret) == Incoming(phis[i], predecessor)
  {
    if i > 0 {
      SourceOf(phis[1..], predecessor, i - 1);
    }
  }

  /** A run is at the entry of a block, with its phis evaluated, or has left. */
  datatype State<W> = At(lbl: Label, env: Env, world: W) | Done(values: seq<Value>, world: W)

  function StepBlock<W>(m: Machine<W>, f: Blocks, s: State<W>): (r: State<W>) {
    if s.Done? || s.lbl !in f then s
    else
      var b := f[s.lbl];
      var l := ExecBody(m, b.body, Local(s.env, s.world));
      LeaveBlock(m, f, s.lbl, b.last, l)
  }

  function LeaveBlock<W>(m: Machine<W>, f: Blocks, lbl: Label, last: Last, l: Local<W>): (r: State<W>) {
    var args := ReadAll(l.env, last.uses);
    var l' := if last.Invoke?
              then Local(WriteAll(l.env, last.defs, m.exec(last.op, l.world, args), |last.defs|),
                         m.effect(last.op, l.world, args))
              else l;
    if last.succs == [] then Done(args, l'.world)
    else
      var to := last.succs[m.pick(last.op, l.world, args) % |last.succs|];
      At(to, EvalPhis(if to in f then f[to].phis else [], lbl, l'.env), l'.world)
  }

  function Run<W>(m: Machine<W>, f: Blocks, s: State<W>, steps: nat): (r: State<W>) {
    if steps == 0 then s else StepBlock(m, f, Run(m, f, s, steps - 1))
  }

  ghost predicate NoPhis(f: Blocks) {
    forall l | l in f :: f[l].phis == []
  }

  lemma NoPhisNothing(p: Label, env: Env)
    ensures EvalPhis([], p, env) == env
  {
    var r := EvalPhis([], p, env);
    assert forall t | t in env :: Read(r, t) == Read(env, Source([], p, t));
    assert r.Keys == env.Keys;
  }

  // ----- well-formed functions -----

  predicate StmtOk(s: Stmt, limit: Id) {
    match s
    case Copy(dst, src) => dst < limit && src < limit
    case Do(_, defs, uses) => IdsBelow(defs, limit) && IdsBelow(uses, limit)
  }

  predicate IdsBelow(ts: seq<Id>, limit: Id) {
    forall k | 0 <= k < |ts| :: ts[k] < limit
  }

  predicate LastOk(last: Last, limit: Id) {
    IdsBelow(last.uses, limit) && (last.Invoke? ==> IdsBelow(last.defs, limit))
  }

  predicate BlockOk(b: Block, limit: Id) {
    PhisOk(b.phis, limit) && (forall k | 0 <= k < |b.body| :: StmtOk(b.body[k], limit)) && LastOk(b.last, limit)
  }

  /** Values below limit, and every successor exists. */
  predicate FunctionOk(f: Blocks, limit: Id) {
    && (forall l | l in f :: BlockOk(f[l], limit))
    && (forall l, k | l in f && 0 <= k < |f[l].last.succs| :: f[l].last.succs[k] in f)
  }

  // ----- environments that agree below limit -----

  ghost predicate SameBelow(e: Env, e': Env, limit: Id) {
    forall t: Id | t < limit :: Read(e, t) == Read(e', t)
  }

  ghost predicate SameState<W>(s: State<W>, s': State<W>, limit: Id) {
    match s
    case Done(values, world) => s' == Done(values, world)
    case At(lbl, env, world) => s'.At? && s'.lbl == lbl && s'.world == world && SameBelow(env, s'.env, limit)
  }

  lemma SameArgs(e: Env, e': Env, limit: Id, ts: seq<Id>)
    requires SameBelow(e, e', limit) && IdsBelow(ts, limit)
    ensures ReadAll(e, ts) == ReadAll(e', ts)
  {
  }

  lemma SameUpdate(e: Env, e': Env, limit: Id, d: Id, v: Value)
    requires SameBelow(e, e', limit)
    ensures SameBelow(e[d := v], e'[d := v], limit)
  {
    var g, g' := e[d := v], e'[d := v];
    forall t: Id | t < limit
      ensures Read(g, t) == Read(g', t)
    {
      assert Read(e, t) == Read(e', t);
    }
  }

  lemma {:induction false} SameWrites(e: Env, e': Env, limit: Id, defs: seq<Id>, rs: seq<Value>, k: nat)
    requires SameBelow(e, e', limit) && k <= |defs|
    ensures SameBelow(WriteAll(e, defs, rs, k), WriteAll(e', defs, rs, k), limit)
  {
    if k > 0 {
      SameWrites(e, e', limit, defs, rs, k - 1);
      SameUpdate(WriteAll(e, defs, rs, k - 1), WriteAll(e', defs, rs, k - 1), limit, defs[k - 1], ResultAt(rs, k - 1));
    }
  }

  lemma {:induction false} SameBody<W>(m: Machine<W>, body: seq<Stmt>, l: Local<W>, l': Local<W>, limit: Id)
    requires SameBelow(l.env, l'.env, limit) && l.world == l'.world
    requires forall k | 0 <= k < |body| :: StmtOk(body[k], limit)
    ensures var r, r' := ExecBody(m, body, l), ExecBody(m, body, l');
            SameBelow(r.env, r'.env, limit) && r.world == r'.world
  {
    if body != [] {
      SameBody(m, body[..|body| - 1], l, l', limit);
      var r, r' := ExecBody(m, body[..|body| - 1], l), ExecBody(m, body[..|body| - 1], l');
      var s := body[|body| - 1];
      if s.Copy? {
        assert StmtOk(s, limit);
        SameUpdate(r.env, r'.env, limit, s.dst, Read(r.env, s.src));
      } else {
        SameArgs(r.env, r'.env, limit, s.uses);
        SameWrites(r.env, r'.env, limit, s.defs, m.exec(s.op, r.world, ReadAll(r.env, s.uses)), |s.defs|);
      }
    }
  }

  lemma {:induction false} BodyAppend<W>(m: Machine<W>, a: seq<Stmt>, b: seq<Stmt>, l: Local<W>)
    ensures ExecBody(m, a + b, l) == ExecBody(m, b, ExecBody(m, a, l))
  {
    if b == [] {
      assert a + b == a;
    } else {
      BodyAppend(m, a, b[..|b| - 1], l);
      assert (a + b)[..|a + b| - 1] == a + b[..|b| - 1];
    }
  }

  /** Values that phis read are below limit. */
  lemma {:induction false} SourceBelow(phis: seq<Phi>, predecessor: Label, t: Id, limit: Id)
    requires forall i | 0 <= i < |phis| :: PhiOk(phis[i], limit)
    requires t < limit
    ensures Source(phis, predecessor, t) < limit
  {
    if phis != [] {
      SourceBelow(phis[1..], predecessor, t, limit);
      assert PhiOk(phis[0], limit);
      IncomingBelow(phis[0].nodes, predecessor, phis[0].ret, limit);
    }
  }

  lemma {:induction false} IncomingBelow(nodes: seq<PhiNode>, predecessor: Label, default: Id, limit: Id)
    requires forall j | 0 <= j < |nodes| :: nodes[j].value < limit
    requires default < limit
    ensures IncomingIn(nodes, predecessor, default) < limit
  {
    if nodes != [] {
      IncomingBelow(nodes[1..], predecessor, default, limit);
    }
  }
}
