/** break_crtitical_edges and exit_ssa: phis become moves at the ends of the predecessors. */
module SsaExit {
  import opened Basics
  import opened Code
  import opened ParallelCopy
  import opened Ssa
  import opened EdgeSplit

  // ----- phis as moves -----

  function ToStmts(moves: seq<ParallelCopy.Move>): (r: seq<Stmt>)
    ensures |r| == |moves|
  {
    seq(|moves|, k requires 0 <= k < |moves| => Copy(moves[k].dst, moves[k].src))
  }

  /** The moves do what the simultaneous evaluation of the phis does. */
  ghost predicate Realises(moves: seq<ParallelCopy.Move>, phis: seq<Phi>, predecessor: Label, limit: Id) {
    forall t: Id | t < limit :: Origin(moves, t) == Source(phis, predecessor, t)
  }

  lemma {:induction false} MovesRun<W>(m: Machine<W>, moves: seq<ParallelCopy.Move>, l: Local<W>)
    ensures var r := ExecBody(m, ToStmts(moves), l);
            r.world == l.world && forall t :: Read(r.env, t) == Read(l.env, Origin(moves, t))
  {
    if moves != [] {
      var before, last := moves[..|moves| - 1], moves[|moves| - 1];
      MovesRun(m, before, l);
      assert ToStmts(moves)[..|moves| - 1] == ToStmts(before);
    }
  }

  lemma EdgeRealises(moves: seq<ParallelCopy.Move>, phis: seq<Phi>, predecessor: Label, limit: Id)
    requires PhisOk(phis, limit)
    requires forall i | 0 <= i < |phis| :: Origin(moves, phis[i].ret) == Incoming(phis[i], predecessor)
    requires forall t: Id | t < limit && (forall i | 0 <= i < |phis| :: phis[i].ret != t) :: Origin(moves, t) == t
    ensures Realises(moves, phis, predecessor, limit)
  {
    forall t: Id | t < limit
      ensures Origin(moves, t) == Source(phis, predecessor, t)
    {
      if i :| 0 <= i < |phis| && phis[i].ret == t {
        SourceOf(phis, predecessor, i);
      } else {
        SourceOther(phis, predecessor, t);
      }
    }
  }

  /** What exit_ssa leaves of a block: its phis are gone and its predecessors' moves stand before
      their last instruction. */
  ghost predicate LoweredBlock(f: Blocks, l: Label, b: Block, limit: Id)
    requires l in f
  {
    && b.phis == [] && b.last == f[l].last
    && exists moves :: b.body == f[l].body + ToStmts(moves) && MovesOk(f, l, moves, limit)
  }

  ghost predicate MovesOk(f: Blocks, l: Label, moves: seq<ParallelCopy.Move>, limit: Id)
    requires l in f
  {
    var last := f[l].last;
    && (forall k | 0 <= k < |last.succs| :: last.succs[k] in f && Realises(moves, f[last.succs[k]].phis, l, limit))
    && (moves != [] ==>
        last.Jump? && last.succs != [] && forall k | 0 <= k < |last.succs| :: last.succs[k] == last.succs[0])
  }

  ghost predicate Lowered(f: Blocks, g: Blocks, limit: Id) {
    g.Keys == f.Keys && forall l | l in f :: LoweredBlock(f, l, g[l], limit)
  }

  lemma PhisRealised(phis: seq<Phi>, predecessor: Label, moves: seq<ParallelCopy.Move>, limit: Id, e: Env, e': Env,
                     e'': Env)
    requires PhisOk(phis, limit) && Realises(moves, phis, predecessor, limit) && SameBelow(e, e', limit)
    requires forall t :: Read(e'', t) == Read(e', Origin(moves, t))
    ensures SameBelow(EvalPhis(phis, predecessor, e), EvalPhis([], predecessor, e''), limit)
  {
    var a, b := EvalPhis(phis, predecessor, e), EvalPhis([], predecessor, e'');
    forall t: Id | t < limit
      ensures Read(a, t) == Read(b, t)
    {
      SourceBelow(phis, predecessor, t, limit);
      assert Origin(moves, t) == Source(phis, predecessor, t);
      assert Read(b, t) == Read(e'', Source([], predecessor, t));
      assert Read(e, Source(phis, predecessor, t)) == Read(e', Source(phis, predecessor, t));
    }
  }

  /** One block of the function with phis is one block of the function with moves. */
  lemma LoweredStep<W>(m: Machine<W>, f: Blocks, g: Blocks, limit: Id, s: State<W>, t: State<W>)
    requires FunctionOk(f, limit) && Lowered(f, g, limit) && SameState(s, t, limit)
    ensures SameState(StepBlock(m, f, s), StepBlock(m, g, t), limit)
  {
    if s.Done? || s.lbl !in f {
      return;
    }
    var b, c := f[s.lbl], g[s.lbl];
    assert LoweredBlock(f, s.lbl, c, limit) && BlockOk(b, limit);
    var moves :| c.body == b.body + ToStmts(moves) && MovesOk(f, s.lbl, moves, limit);
    var l := ExecBody(m, b.body, Local(s.env, s.world));
    var l' := ExecBody(m, b.body, Local(t.env, t.world));
    var l'' := ExecBody(m, ToStmts(moves), l');
    SameBody(m, b.body, Local(s.env, s.world), Local(t.env, t.world), limit);
    BodyAppend(m, b.body, ToStmts(moves), Local(t.env, t.world));
    MovesRun(m, moves, l');
    LeaveAgrees(m, f, g, limit, s.lbl, moves, l, l', l'');
  }

  lemma LeaveAgrees<W>(m: Machine<W>, f: Blocks, g: Blocks, limit: Id, lbl: Label, moves: seq<ParallelCopy.Move>,
                       l: Local<W>, l': Local<W>, l'': Local<W>)
    requires FunctionOk(f, limit) && Lowered(f, g, limit) && lbl in f && MovesOk(f, lbl, moves, limit)
    requires SameBelow(l.env, l'.env, limit) && l.world == l'.world == l''.world
    requires forall t :: Read(l''.env, t) == Read(l'.env, Origin(moves, t))
    ensures SameState(LeaveBlock(m, f, lbl, f[lbl].last, l), LeaveBlock(m, g, lbl, f[lbl].last, l''), limit)
  {
    var last := f[lbl].last;
    assert BlockOk(f[lbl], limit);
    var args, args'' := ReadAll(l.env, last.uses), ReadAll(l''.env, last.uses);
    var e, e', e'' := l.env, l'.env, l''.env;
    if moves == [] {
      assert forall t :: Origin(moves, t) == t;
      assert SameBelow(e, e'', limit);
      SameArgs(e, e'', limit, last.uses);
      if last.Invoke? {
        var rs := m.exec(last.op, l.world, args);
        SameWrites(e, e'', limit, last.defs, rs, |last.defs|);
        e, e'' := WriteAll(e, last.defs, rs, |last.defs|), WriteAll(e'', last.defs, rs, |last.defs|);
        e' := e'';
      }
    }
    if last.succs != [] {
      var to := last.succs[m.pick(last.op, l.world, args) % |last.succs|];
      assert to in f && BlockOk(f[to], limit) && LoweredBlock(f, to, g[to], limit);
      PhisRealised(f[to].phis, lbl, moves, limit, e, e', e'');
    }
  }

  /** Leaving SSA preserves meaning, for every machine, start and number of blocks run. */
  lemma {:induction false} LoweredRuns<W>(m: Machine<W>, f: Blocks, g: Blocks, limit: Id, s: State<W>, t: State<W>,
                                          steps: nat)
    requires FunctionOk(f, limit) && Lowered(f, g, limit) && SameState(s, t, limit)
    ensures SameState(Run(m, f, s, steps), Run(m, g, t, steps), limit)
  {
    hide StepBlock, Lowered, FunctionOk, SameState;
    if steps > 0 {
      LoweredRuns(m, f, g, limit, s, t, steps - 1);
      LoweredStep(m, f, g, limit, Run(m, f, s, steps - 1), Run(m, g, t, steps - 1));
    }
  }

  // ----- exit_ssa -----

  /** The edge list is the successor relation, each edge once. */
  ghost predicate EdgesMatch(f: Blocks, edges: seq<Edge>) {
    && (forall i, j | 0 <= i < j < |edges| :: edges[i] != edges[j])
    && (forall e | e in edges :: e.src in f && e.dst in f[e.src].last.succs)
    && (forall l, k | l in f && 0 <= k < |f[l].last.succs| :: Edge(l, f[l].last.succs[k]) in edges)
  }

  /** A block with phis is the only successor of its predecessors. */
  ghost predicate NoCriticalEdges(f: Blocks) {
    forall l, k | l in f && 0 <= k < |f[l].last.succs| && f[l].last.succs[k] in f && f[f[l].last.succs[k]].phis != [] ::
      OnlySuccessor(f[l].last, f[l].last.succs[k])
  }

  predicate OnlySuccessor(last: Last, t: Label) {
    forall k | 0 <= k < |last.succs| :: last.succs[k] == t
  }

  /** An invoke continues in different blocks after a return and after an exception. */
  predicate InvokesFork(f: Blocks) {
    forall l | l in f && f[l].last.Invoke? :: |f[l].last.succs| >= 2 && f[l].last.succs[0] != f[l].last.succs[1]
  }

  ghost predicate PhiEdgeDone(f0: Blocks, done: set<Edge>, l: Label) {
    exists t :: Edge(l, t) in done && t in f0 && f0[t].phis != []
  }

  ghost predicate EdgeServed(f0: Blocks, moves: map<Label, seq<ParallelCopy.Move>>, e: Edge, limit: Id) {
    e.src in moves && e.dst in f0 && Realises(moves[e.src], f0[e.dst].phis, e.src, limit)
  }

  /** moves[l] is for the end of l; the edges in done are served, and only phi edges add moves. */
  ghost predicate Served(f0: Blocks, moves: map<Label, seq<ParallelCopy.Move>>, done: set<Edge>, limit: Id) {
    && moves.Keys == f0.Keys
    && (forall e {:trigger EdgeServed(f0, moves, e, limit)} | e in done :: EdgeServed(f0, moves, e, limit))
    && (forall l {:trigger PhiEdgeDone(f0, done, l)} | l in f0 && moves[l] != [] :: PhiEdgeDone(f0, done, l))
  }

  /** The function part way through exit_ssa. */
  ghost predicate Exiting(f0: Blocks, f: Blocks, moves: map<Label, seq<ParallelCopy.Move>>, cleared: set<Label>) {
    && f.Keys == f0.Keys == moves.Keys
    && (forall l | l in f0 ::
        f[l] == Block(if l in cleared then [] else f0[l].phis, f0[l].body + ToStmts(moves[l]), f0[l].last))
  }

  lemma NoOtherPhiEdge(f0: Blocks, edges: seq<Edge>, e: Edge, d: Edge)
    requires EdgesMatch(f0, edges) && NoCriticalEdges(f0)
    requires e in edges && d in edges && d.src == e.src && d.dst in f0 && f0[d.dst].phis != []
    ensures e == d
  {
    assert d.dst in f0[d.src].last.succs && e.dst in f0[e.src].last.succs;
    var k :| 0 <= k < |f0[d.src].last.succs| && f0[d.src].last.succs[k] == d.dst;
    assert OnlySuccessor(f0[d.src].last, f0[d.src].last.succs[k]);
  }

  /** When an edge is served its source has no moves yet. */
  lemma ServeEdge(f0: Blocks, moves: map<Label, seq<ParallelCopy.Move>>, done: set<Edge>, limit: Id,
                  edges: seq<Edge>, e: Edge, ms: seq<ParallelCopy.Move>)
    requires EdgesMatch(f0, edges) && NoCriticalEdges(f0) && Served(f0, moves, done, limit)
    requires e in edges && e !in done && e.src in f0 && (forall d | d in done :: d in edges)
    requires e.dst in f0 && Realises(ms, f0[e.dst].phis, e.src, limit) && (f0[e.dst].phis == [] ==> ms == [])
    ensures moves[e.src] == [] && Served(f0, moves[e.src := ms], done + {e}, limit)
  {
    var l, moves', done' := e.src, moves[e.src := ms], done + {e};
    if moves[l] != [] {
      assert PhiEdgeDone(f0, done, l);
      var t :| Edge(l, t) in done && t in f0 && f0[t].phis != [];
      NoOtherPhiEdge(f0, edges, e, Edge(l, t));
    }
    forall d {:trigger EdgeServed(f0, moves', d, limit)} | d in done'
      ensures EdgeServed(f0, moves', d, limit)
    {
      if d != e {
        assert EdgeServed(f0, moves, d, limit);
        if d.src == l && f0[e.dst].phis != [] {
          NoOtherPhiEdge(f0, edges, d, e);
        }
      }
    }
    forall x {:trigger PhiEdgeDone(f0, done', x)} | x in f0 && moves'[x] != []
      ensures PhiEdgeDone(f0, done', x)
    {
      if x == l {
        assert Edge(l, e.dst) in done';
      } else {
        assert PhiEdgeDone(f0, done, x);
        var t :| Edge(x, t) in done && t in f0 && f0[t].phis != [];
        assert Edge(x, t) in done';
      }
    }
  }

  lemma AddMoves(f0: Blocks, f: Blocks, moves: map<Label, seq<ParallelCopy.Move>>, cleared: set<Label>, l: Label,
                 ms: seq<ParallelCopy.Move>)
    requires Exiting(f0, f, moves, cleared) && l in f0 && moves[l] == []
    ensures Exiting(f0, f[l := f[l].(body := f[l].body + ToStmts(ms))], moves[l := ms], cleared)
  {
    assert f0[l].body + ToStmts([]) == f0[l].body;
  }

  /** When every edge is served and every block cleared, the function is lowered. */
  lemma AllServed(f0: Blocks, f: Blocks, moves: map<Label, seq<ParallelCopy.Move>>, cleared: set<Label>,
                  done: set<Edge>,
                  edges: seq<Edge>, limit: Id)
    requires FunctionOk(f0, limit) && EdgesMatch(f0, edges) && NoCriticalEdges(f0) && InvokesFork(f0)
    requires Exiting(f0, f, moves, cleared) && Served(f0, moves, done, limit)
    requires (forall e | e in edges :: e in done) && (forall e | e in done :: e in edges)
              && (forall l | l in f0 :: l in cleared)
    ensures Lowered(f0, f, limit)
  {
    forall l | l in f0
      ensures LoweredBlock(f0, l, f[l], limit)
    {
      var last := f0[l].last;
      forall k | 0 <= k < |last.succs|
        ensures last.succs[k] in f0 && Realises(moves[l], f0[last.succs[k]].phis, l, limit)
      {
        assert EdgeServed(f0, moves, Edge(l, last.succs[k]), limit);
      }
      if moves[l] != [] {
        assert PhiEdgeDone(f0, done, l);
        var t :| Edge(l, t) in done && t in f0 && f0[t].phis != [];
        assert Edge(l, t) in edges && t in last.succs;
        var k :| 0 <= k < |last.succs| && last.succs[k] == t;
        assert OnlySuccessor(last, last.succs[k]);
      }
      assert MovesOk(f0, l, moves[l], limit);
    }
  }

  // ----- construct_cfg -----

  /** The edges of the blocks before the i-th, and of the first k successors of that one. */
  ghost predicate EdgesUpTo(f: Blocks, order: seq<Label>, i: nat, k: nat, edges: seq<Edge>)
    requires i <= |order| && (forall l | l in order :: l in f)
  {
    && (forall a, b | 0 <= a < b < |edges| :: edges[a] != edges[b])
    && (forall e | e in edges :: EdgeDone(f, order, i, k, e))
    && (forall e | EdgeDone(f, order, i, k, e) :: e in edges)
  }

  predicate EdgeDone(f: Blocks, order: seq<Label>, i: nat, k: nat, e: Edge)
    requires i <= |order|
  {
    && e.src in f
    && ((e.src in order[..i] && e.dst in f[e.src].last.succs)
        || (i < |order| && e.src == order[i] && k <= |f[e.src].last.succs| && e.dst in f[e.src].last.succs[..k]))
  }

  lemma AddCfgEdge(f: Blocks, order: seq<Label>, i: nat, k: nat, edges: seq<Edge>)
    requires i < |order| && (forall l | l in order :: l in f) && Unique(order) && EdgesUpTo(f, order, i, k, edges)
    requires k < |f[order[i]].last.succs| && f[order[i]].last.succs[k] !in f[order[i]].last.succs[..k]
    ensures EdgesUpTo(f, order, i, k + 1, [Edge(order[i], f[order[i]].last.succs[k])] + edges)
  {
    var succs := f[order[i]].last.succs;
    var e0 := Edge(order[i], succs[k]);
    assert order[i] !in order[..i];
    assert !EdgeDone(f, order, i, k, e0);
    assert succs[..k + 1] == succs[..k] + [succs[k]];
    forall e
      ensures EdgeDone(f, order, i, k + 1, e) <==> EdgeDone(f, order, i, k, e) || e == e0
    {
    }
  }

  lemma SkipCfgEdge(f: Blocks, order: seq<Label>, i: nat, k: nat, edges: seq<Edge>)
    requires i < |order| && (forall l | l in order :: l in f) && EdgesUpTo(f, order, i, k, edges)
    requires k < |f[order[i]].last.succs| && f[order[i]].last.succs[k] in f[order[i]].last.succs[..k]
    ensures EdgesUpTo(f, order, i, k + 1, edges)
  {
    var succs := f[order[i]].last.succs;
    assert succs[..k + 1] == succs[..k] + [succs[k]];
    forall e
      ensures EdgeDone(f, order, i, k + 1, e) <==> EdgeDone(f, order, i, k, e)
    {
    }
  }

  lemma NextCfgBlock(f: Blocks, order: seq<Label>, i: nat, edges: seq<Edge>)
    requires i < |order| && (forall l | l in order :: l in f)
    requires EdgesUpTo(f, order, i, |f[order[i]].last.succs|, edges)
    ensures EdgesUpTo(f, order, i + 1, 0, edges)
  {
    var succs := f[order[i]].last.succs;
    assert succs[..|succs|] == succs && order[..i + 1] == order[..i] + [order[i]];
    forall e
      ensures EdgeDone(f, order, i + 1, 0, e) <==> EdgeDone(f, order, i, |succs|, e)
    {
    }
  }

  // ----- break_critical_edge -----

  function InsertBefore(order: seq<Label>, at: Label, nb: Label): (r: seq<Label>)
    ensures forall l :: l in r <==> l in order || (l == nb && at in order)
  {
    if order == [] then []
    else
      assert order == [order[0]] + order[1..];
      if order[0] == at then [nb] + order else [order[0]] + InsertBefore(order[1..], at, nb)
  }

  lemma {:induction false} InsertUnique(order: seq<Label>, at: Label, nb: Label)
    requires Unique(order) && nb !in order
    ensures Unique(InsertBefore(order, at, nb))
  {
    if order != [] && order[0] != at {
      InsertUnique(order[1..], at, nb);
      assert order == [order[0]] + order[1..] && order[0] !in order[1..];
    }
  }

  lemma EdgeKnown(f: Blocks, edges: seq<Edge>, limit: Id, i: nat)
    requires EdgesMatch(f, edges) && FunctionOk(f, limit) && i < |edges|
    ensures edges[i] in edges && edges[i].src in f && edges[i].dst in f[edges[i].src].last.succs && edges[i].dst in f
  {
    var e := edges[i];
    assert e in edges && e.dst in f[e.src].last.succs;
    var k :| 0 <= k < |f[e.src].last.succs| && f[e.src].last.succs[k] == e.dst;
  }

  function SplitEdgeList(edges: seq<Edge>, i: nat, nb: Label): (r: seq<Edge>)
    requires i < |edges|
    ensures |r| == |edges| + 1 && r[0] == Edge(nb, edges[i].dst)
    ensures forall j | 0 <= j < |edges| :: r[j + 1] == if j == i then Edge(edges[i].src, nb) else edges[j]
  {
    [Edge(nb, edges[i].dst)] + edges[i := Edge(edges[i].src, nb)]
  }

  lemma SplitEdgesUnique(f: Blocks, edges: seq<Edge>, i: nat, nb: Label, limit: Id)
    requires EdgesMatch(f, edges) && i < |edges| && CanSplit(f, edges[i].src, edges[i].dst, nb, limit)
    ensures forall a, b | 0 <= a < b < |edges| + 1 :: SplitEdgeList(edges, i, nb)[a] != SplitEdgeList(edges, i, nb)[b]
  {
    var es := SplitEdgeList(edges, i, nb);
    forall j | 0 <= j < |edges|
      ensures edges[j].src != nb && edges[j].dst != nb
    {
      EdgeKnown(f, edges, limit, j);
    }
    forall a, b | 0 <= a < b < |edges| + 1
      ensures es[a] != es[b]
    {
      assert es[b] == es[b - 1 + 1];
      if a > 0 {
        assert es[a] == es[a - 1 + 1];
      }
    }
  }

  lemma SplitEdgesSound(f: Blocks, edges: seq<Edge>, i: nat, nb: Label, limit: Id, j: nat)
    requires EdgesMatch(f, edges) && i < |edges| && CanSplit(f, edges[i].src, edges[i].dst, nb, limit) && j <= |edges|
    ensures var g, e := Split(f, edges[i].src, edges[i].dst, nb), SplitEdgeList(edges, i, nb)[j];
            e.src in g && e.dst in g[e.src].last.succs
  {
    hide EdgesMatch, CanSplit, Split, FunctionOk;
    var from, to := edges[i].src, edges[i].dst;
    CanSplitFacts(f, from, to, nb, limit);
    if j > 0 {
      EdgeKnown(f, edges, limit, j - 1);
      OnlyThatEdge(f, edges, i, j - 1);
      EdgeAfterSplit(f, from, to, nb, edges[j - 1].src, edges[j - 1].dst);
    } else {
      NewLabel(f, from, to, nb, limit);
      assert SplitEdgeList(edges, i, nb)[0] == Edge(nb, to);
    }
  }

  lemma OnlyThatEdge(f: Blocks, edges: seq<Edge>, i: nat, j: nat)
    requires EdgesMatch(f, edges) && i < |edges| && j < |edges|
    ensures edges[i] == edges[j] ==> i == j
  {
  }

  /** An edge of the old function is one of the new one, bent to the new block if it is the split one. */
  lemma EdgeAfterSplit(f: Blocks, from: Label, to: Label, nb: Label, l: Label, t: Label)
    requires l in f && nb !in f && t in f[l].last.succs
    ensures var g := Split(f, from, to, nb); l in g && (if l == from && t == to then nb else t) in g[l].last.succs
  {
    var g := Split(f, from, to, nb);
    var k :| 0 <= k < |f[l].last.succs| && f[l].last.succs[k] == t;
    assert g[l].last.succs[k] == if l == from && t == to then nb else t;
  }

  lemma SplitEdgesComplete(f: Blocks, edges: seq<Edge>, i: nat, nb: Label, limit: Id, l: Label, k: nat)
    requires EdgesMatch(f, edges) && i < |edges| && CanSplit(f, edges[i].src, edges[i].dst, nb, limit)
    requires l in f || l == nb
    requires k < |Split(f, edges[i].src, edges[i].dst, nb)[l].last.succs|
    ensures Edge(l, Split(f, edges[i].src, edges[i].dst, nb)[l].last.succs[k]) in SplitEdgeList(edges, i, nb)
  {
    hide EdgesMatch, CanSplit;
    var es := SplitEdgeList(edges, i, nb);
    if l == nb {
      assert es[0] == Edge(nb, edges[i].dst);
      NewLabel(f, edges[i].src, edges[i].dst, nb, limit);
    } else {
      var j := EdgeListed(f, edges, l, k);
      SplitSucc(f, edges, i, nb, limit, l, k, j);
      assert es[j + 1] in es;
    }
  }

  lemma CanSplitFacts(f: Blocks, from: Label, to: Label, nb: Label, limit: Id)
    requires CanSplit(f, from, to, nb, limit)
    ensures from in f && to in f && nb !in f && FunctionOk(f, limit)
  {
  }

  lemma NewLabel(f: Blocks, from: Label, to: Label, nb: Label, limit: Id)
    requires CanSplit(f, from, to, nb, limit)
    ensures nb !in f && Split(f, from, to, nb)[nb].last.succs == [to]
  {
  }

  lemma EdgeListed(f: Blocks, edges: seq<Edge>, l: Label, k: nat) returns (j: nat)
    requires EdgesMatch(f, edges) && l in f && k < |f[l].last.succs|
    ensures j < |edges| && edges[j] == Edge(l, f[l].last.succs[k])
  {
    assert Edge(l, f[l].last.succs[k]) in edges;
    j :| 0 <= j < |edges| && edges[j] == Edge(l, f[l].last.succs[k]);
  }

  lemma SplitSucc(f: Blocks, edges: seq<Edge>, i: nat, nb: Label, limit: Id, l: Label, k: nat, j: nat)
    requires EdgesMatch(f, edges) && i < |edges| && CanSplit(f, edges[i].src, edges[i].dst, nb, limit)
    requires l in f && l != nb && k < |f[l].last.succs| && j < |edges| && edges[j] == Edge(l, f[l].last.succs[k])
    ensures |Split(f, edges[i].src, edges[i].dst, nb)[l].last.succs| == |f[l].last.succs|
    ensures SplitEdgeList(edges, i, nb)[j + 1] == Edge(l, Split(f, edges[i].src, edges[i].dst, nb)[l].last.succs[k])
  {
    hide CanSplit, Split;
    SplitLast(f, edges[i].src, edges[i].dst, nb, l, k);
    assert edges[j] == edges[i] ==> j == i;
  }

  lemma SplitLast(f: Blocks, from: Label, to: Label, nb: Label, l: Label, k: nat)
    requires l in f && l != nb && k < |f[l].last.succs|
    ensures l in Split(f, from, to, nb) && |Split(f, from, to, nb)[l].last.succs| == |f[l].last.succs|
    ensures Split(f, from, to, nb)[l].last.succs[k] ==
            if l == from && f[l].last.succs[k] == to then nb else f[l].last.succs[k]
  {
    hide RenamePhis;
  }

  lemma SplitEdges(f: Blocks, edges: seq<Edge>, i: nat, nb: Label, limit: Id)
    requires EdgesMatch(f, edges) && i < |edges| && CanSplit(f, edges[i].src, edges[i].dst, nb, limit)
    ensures EdgesMatch(Split(f, edges[i].src, edges[i].dst, nb), SplitEdgeList(edges, i, nb))
  {
    var from, to := edges[i].src, edges[i].dst;
    var g, es := Split(f, from, to, nb), SplitEdgeList(edges, i, nb);
    SplitEdgesUnique(f, edges, i, nb, limit);
    forall e | e in es
      ensures e.src in g && e.dst in g[e.src].last.succs
    {
      var j :| 0 <= j < |es| && es[j] == e;
      SplitEdgesSound(f, edges, i, nb, limit, j);
    }
    forall l, k | l in g && 0 <= k < |g[l].last.succs|
      ensures Edge(l, g[l].last.succs[k]) in es
    {
      SplitEdgesComplete(f, edges, i, nb, limit, l, k);
    }
  }

  /** The edge is not into phis from a block that has other successors. */
  predicate EdgeFine(f: Blocks, e: Edge) {
    e.src in f && e.dst in f && (f[e.dst].phis != [] ==> OnlySuccessor(f[e.src].last, e.dst))
  }

  lemma OneOutgoing(f: Blocks, edges: seq<Edge>, i: nat)
    requires EdgesMatch(f, edges) && i < |edges| && edges[i].src in f && edges[i].dst in f
    requires forall a, b | 0 <= a < b < |edges| :: !(edges[a].src == edges[i].src && edges[b].src == edges[i].src)
    ensures EdgeFine(f, edges[i])
  {
    var from := edges[i].src;
    forall k | 0 <= k < |f[from].last.succs|
      ensures f[from].last.succs[k] == edges[i].dst
    {
      var o := Edge(from, f[from].last.succs[k]);
      assert o in edges;
      var j :| 0 <= j < |edges| && edges[j] == o;
    }
  }

  lemma SplitKeepsFine(f: Blocks, edges: seq<Edge>, i: nat, nb: Label, limit: Id, j: nat)
    requires EdgesMatch(f, edges) && i < |edges| && CanSplit(f, edges[i].src, edges[i].dst, nb, limit)
    requires forall j | 0 <= j < i :: EdgeFine(f, edges[j])
    requires j < i + 2
    ensures EdgeFine(Split(f, edges[i].src, edges[i].dst, nb), SplitEdgeList(edges, i, nb)[j])
  {
    hide EdgeFine, EdgesMatch, Split, CanSplit;
    if 0 < j < i + 1 {
      OtherStaysFine(f, edges, i, nb, limit, j - 1);
    } else {
      NewEdgesFine(f, edges, i, nb, limit);
    }
  }

  lemma NewEdgesFine(f: Blocks, edges: seq<Edge>, i: nat, nb: Label, limit: Id)
    requires i < |edges| && CanSplit(f, edges[i].src, edges[i].dst, nb, limit)
    ensures EdgeFine(Split(f, edges[i].src, edges[i].dst, nb), Edge(nb, edges[i].dst))
    ensures EdgeFine(Split(f, edges[i].src, edges[i].dst, nb), Edge(edges[i].src, nb))
  {
  }

  lemma OtherStaysFine(f: Blocks, edges: seq<Edge>, i: nat, nb: Label, limit: Id, j: nat)
    requires EdgesMatch(f, edges) && i < |edges| && CanSplit(f, edges[i].src, edges[i].dst, nb, limit)
    requires j < i && EdgeFine(f, edges[j])
    ensures EdgeFine(Split(f, edges[i].src, edges[i].dst, nb), edges[j])
  {
    EdgeKnown(f, edges, limit, j);
    assert edges[j] != edges[i];
  }

  lemma SplitKeepsForks(f: Blocks, edges: seq<Edge>, i: nat, nb: Label, limit: Id)
    requires EdgesMatch(f, edges) && i < |edges| && CanSplit(f, edges[i].src, edges[i].dst, nb, limit) && InvokesFork(f)
    ensures InvokesFork(Split(f, edges[i].src, edges[i].dst, nb))
  {
    var g := Split(f, edges[i].src, edges[i].dst, nb);
    forall l | l in g && g[l].last.Invoke?
      ensures |g[l].last.succs| >= 2 && g[l].last.succs[0] != g[l].last.succs[1]
    {
      assert f[l].last.Invoke? && f[l].last.succs[0] in f && f[l].last.succs[1] in f;
    }
  }

  lemma AllFine(f: Blocks, edges: seq<Edge>)
    requires EdgesMatch(f, edges) && forall j | 0 <= j < |edges| :: EdgeFine(f, edges[j])
    ensures NoCriticalEdges(f)
  {
    forall l, k | l in f && 0 <= k < |f[l].last.succs| && f[l].last.succs[k] in f && f[f[l].last.succs[k]].phis != []
      ensures OnlySuccessor(f[l].last, f[l].last.succs[k])
    {
      var o := Edge(l, f[l].last.succs[k]);
      assert o in edges;
      var j :| 0 <= j < |edges| && edges[j] == o;
    }
  }

  ghost predicate SplitOf(f: Blocks, g: Blocks, limit: Id) {
    exists from, to, nb :: CanSplit(f, from, to, nb, limit) && g == Split(f, from, to, nb)
  }

  /** Each function of the chain is the one before with one edge split. */
  ghost predicate IsChain(chain: seq<Blocks>, limit: Id) {
    |chain| > 0 && forall k | 0 <= k < |chain| - 1 :: SplitOf(chain[k], chain[k + 1], limit)
  }

  lemma SameReflexive<W>(s: State<W>, limit: Id)
    ensures SameState(s, s, limit)
  {
  }

  lemma LabelsStay(f: Blocks, from: Label, to: Label, nb: Label)
    ensures forall l | l in f :: l in Split(f, from, to, nb)
  {
  }

  lemma {:induction false} ChainRuns<W>(m: Machine<W>, chain: seq<Blocks>, limit: Id, s: State<W>, steps: nat)
      returns (k: nat)
    requires IsChain(chain, limit) && (s.At? ==> s.lbl in chain[0])
    ensures k >= steps && SameState(Run(m, chain[0], s, steps), Run(m, chain[|chain| - 1], s, k), limit)
    decreases |chain|
  {
    hide CanSplit, Split, Run, SameState;
    if |chain| == 1 {
      SameReflexive(Run(m, chain[0], s, steps), limit);
      k := steps;
    } else {
      assert SplitOf(chain[0], chain[1], limit);
      var from, to, nb :| CanSplit(chain[0], from, to, nb, limit) && chain[1] == Split(chain[0], from, to, nb);
      SameReflexive(s, limit);
      LabelsStay(chain[0], from, to, nb);
      var j := SplitRuns(m, chain[0], from, to, nb, limit, s, s, steps);
      forall i | 0 <= i < |chain[1..]| - 1
        ensures SplitOf(chain[1..][i], chain[1..][i + 1], limit)
      {
        assert SplitOf(chain[i + 1], chain[i + 2], limit);
      }
      k := ChainRuns(m, chain[1..], limit, s, j);
      SameTransitive(Run(m, chain[0], s, steps), Run(m, chain[1], s, j), Run(m, chain[|chain| - 1], s, k), limit);
    }
  }

  /** Splitting the critical edges and then leaving SSA preserves meaning: every run of the function
      with phis is followed, block by block, by the function with moves. */
  lemma LeavingSsaPreservesRuns<W>(m: Machine<W>, chain: seq<Blocks>, g: Blocks, limit: Id, s: State<W>, t: State<W>,
                                   steps: nat)
    returns (k: nat)
    requires IsChain(chain, limit) && FunctionOk(chain[|chain| - 1], limit) && Lowered(chain[|chain| - 1], g, limit)
    requires SameState(s, t, limit) && (s.At? ==> s.lbl in chain[0])
    ensures k >= steps && SameState(Run(m, chain[0], s, steps), Run(m, g, t, k), limit)
  {
    k := ChainRuns(m, chain, limit, s, steps);
    LoweredRuns(m, chain[|chain| - 1], g, limit, s, t, k);
    SameTransitive(Run(m, chain[0], s, steps), Run(m, chain[|chain| - 1], s, k), Run(m, g, t, k), limit);
  }

  lemma SameTransitive<W>(a: State<W>, b: State<W>, c: State<W>, limit: Id)
    requires SameState(a, b, limit) && SameState(b, c, limit)
    ensures SameState(a, c, limit)
  {
  }

  ghost predicate ListOk(f: Blocks, order: seq<Label>) {
    Unique(order) && (forall l :: l in order <==> l in f)
  }

  lemma SplitList(f: Blocks, order: seq<Label>, from: Label, to: Label, nb: Label)
    requires ListOk(f, order) && to in f && nb !in f
    ensures ListOk(Split(f, from, to, nb), InsertBefore(order, to, nb))
  {
    InsertUnique(order, to, nb);
  }

  /** Everything break_critical_edge relies on and restores. */
  lemma SplitEverything(f: Blocks, order: seq<Label>, edges: seq<Edge>, i: nat, nb: Label, limit: Id)
    requires ListOk(f, order) && LabelsBelow(f, nb) && FunctionOk(f, limit) && EdgesMatch(f, edges) && i < |edges|
    ensures CanSplit(f, edges[i].src, edges[i].dst, nb, limit)
    ensures var g := Split(f, edges[i].src, edges[i].dst, nb);
            && ListOk(g, InsertBefore(order, edges[i].dst, nb)) && LabelsBelow(g, nb + 1) && FunctionOk(g, limit)
            && EdgesMatch(g, SplitEdgeList(edges, i, nb))
  {
    EdgeKnown(f, edges, limit, i);
    SplitOk(f, edges[i].src, edges[i].dst, nb, limit);
    SplitEdges(f, edges, i, nb, limit);
    SplitList(f, order, edges[i].src, edges[i].dst, nb);
  }

  lemma ExtendChain(chain: seq<Blocks>, limit: Id, g: Blocks)
    requires IsChain(chain, limit) && SplitOf(chain[|chain| - 1], g, limit)
    ensures IsChain(chain + [g], limit) && |chain| > 0
  {
    hide SplitOf;
  }

  // ----- which edges are split, and where the new blocks stand -----

  /** The edge leads to phis, and its block has other successors. */
  ghost predicate Critical(f: Blocks, e: Edge) {
    && e.src in f && e.dst in f[e.src].last.succs && e.dst in f
    && f[e.dst].phis != [] && !OnlySuccessor(f[e.src].last, e.dst)
  }

  /** The k-th split puts a new block on a critical edge. */
  ghost predicate SplitAt(chain: seq<Blocks>, splits: seq<Edge>, first: Label, k: nat) {
    && k + 1 < |chain| && k < |splits| && Critical(chain[k], splits[k])
    && chain[k + 1] == Split(chain[k], splits[k].src, splits[k].dst, first + k)
  }

  /** The chain consists of splits of critical edges, with consecutive labels from first on. */
  ghost predicate SplitsCritical(chain: seq<Blocks>, splits: seq<Edge>, first: Label) {
    |chain| == |splits| + 1 && forall k | 0 <= k < |splits| :: SplitAt(chain, splits, first, k)
  }

  /** The list when each new block has been put in front of the target of its edge. */
  function Inserted(order: seq<Label>, splits: seq<Edge>, first: Label): (r: seq<Label>) {
    if splits == [] then order
    else InsertBefore(Inserted(order, splits[..|splits| - 1], first), splits[|splits| - 1].dst, first + |splits| - 1)
  }

  /** The blocks of the list that are in f, in the same order. */
  function OnlyOf(order: seq<Label>, f: Blocks): (r: seq<Label>) {
    if order == [] then []
    else if order[0] in f then [order[0]] + OnlyOf(order[1..], f) else OnlyOf(order[1..], f)
  }

  lemma {:induction false} OnlyOfInsert(order: seq<Label>, at: Label, nb: Label, f: Blocks)
    requires nb !in f
    ensures OnlyOf(InsertBefore(order, at, nb), f) == OnlyOf(order, f)
  {
    if order != [] {
      var r := InsertBefore(order, at, nb);
      if order[0] == at {
        assert r[1..] == order;
      } else {
        OnlyOfInsert(order[1..], at, nb, f);
        assert r[1..] == InsertBefore(order[1..], at, nb);
      }
    }
  }

  lemma {:induction false} OnlyOfSelf(order: seq<Label>, f: Blocks)
    requires forall l | l in order :: l in f
    ensures OnlyOf(order, f) == order
  {
    if order != [] {
      OnlyOfSelf(order[1..], f);
    }
  }

  /** New blocks apart, the list is the old one. */
  lemma {:induction false} OldListStays(order: seq<Label>, splits: seq<Edge>, first: Label, f: Blocks)
    requires (forall l | l in order :: l in f) && forall l | l in f :: l < first
    ensures OnlyOf(Inserted(order, splits, first), f) == order
  {
    if splits == [] {
      OnlyOfSelf(order, f);
    } else {
      var init := splits[..|splits| - 1];
      OldListStays(order, init, first, f);
      OnlyOfInsert(Inserted(order, init, first), splits[|splits| - 1].dst, first + |splits| - 1, f);
    }
  }

  lemma InsertedMore(order: seq<Label>, splits: seq<Edge>, first: Label, e: Edge)
    ensures Inserted(order, splits + [e], first) ==
              InsertBefore(Inserted(order, splits, first), e.dst, first + |splits|)
  {
    assert (splits + [e])[..|splits|] == splits;
  }

  lemma SplitsMore(chain: seq<Blocks>, splits: seq<Edge>, first: Label, e: Edge)
    requires SplitsCritical(chain, splits, first) && Critical(chain[|chain| - 1], e)
    ensures SplitsCritical(chain + [Split(chain[|chain| - 1], e.src, e.dst, first + |splits|)], splits + [e], first)
  {
    hide Critical, Split;
    var chain', splits' := chain + [Split(chain[|chain| - 1], e.src, e.dst, first + |splits|)], splits + [e];
    forall k | 0 <= k < |splits'|
      ensures SplitAt(chain', splits', first, k)
    {
      assert k < |splits| ==> SplitAt(chain, splits, first, k);
    }
  }

  /** Two edges leave the block, so it has another successor. */
  lemma TwoOutgoing(f: Blocks, edges: seq<Edge>, i: nat)
    requires EdgesMatch(f, edges) && i < |edges| && edges[i].dst in f && f[edges[i].dst].phis != []
    requires exists a, b :: 0 <= a < b < |edges| && edges[a].src == edges[i].src && edges[b].src == edges[i].src
    ensures Critical(f, edges[i])
  {
    var a, b :| 0 <= a < b < |edges| && edges[a].src == edges[i].src && edges[b].src == edges[i].src;
    var last, o := f[edges[i].src].last, if edges[a] == edges[i] then edges[b] else edges[a];
    assert edges[i] in edges && o in edges && o != edges[i];
    var k :| 0 <= k < |last.succs| && last.succs[k] == o.dst;
  }

  // ----- what exit_ssa leaves -----

  lemma EdgeToServe(f0: Blocks, f: Blocks, moves: map<Label, seq<ParallelCopy.Move>>, cleared: set<Label>,
                    edges: seq<Edge>, e: Edge, limit: Id)
    requires Exiting(f0, f, moves, cleared) && EdgesMatch(f0, edges) && FunctionOk(f0, limit)
    requires e in edges && e.dst !in cleared
    ensures e.src in f0 && e.src in f && e.dst in f0 && e.dst in f
    ensures f[e.dst].phis == f0[e.dst].phis && PhisOk(f0[e.dst].phis, limit)
  {
    assert e.src in f0 && e.dst in f0[e.src].last.succs;
    assert e.dst in f0 && BlockOk(f0[e.dst], limit);
  }

  /** Moves in front of the last instruction change no edge. */
  lemma ExitedEdges(f0: Blocks, f: Blocks, moves: map<Label, seq<ParallelCopy.Move>>, cleared: set<Label>,
                    edges: seq<Edge>)
    requires Exiting(f0, f, moves, cleared) && EdgesMatch(f0, edges)
    ensures EdgesMatch(f, edges)
  {
    forall l | l in f
      ensures f[l].last == f0[l].last
    {
    }
  }

  ghost predicate AllMovesBelow(moves: map<Label, seq<ParallelCopy.Move>>, limit: Id) {
    forall l | l in moves :: ParallelCopy.MovesBelow(moves[l], limit)
  }

  lemma AllBelowMore(moves: map<Label, seq<ParallelCopy.Move>>, l: Label, ms: seq<ParallelCopy.Move>, limit: Id,
                     limit': Id)
    requires AllMovesBelow(moves, limit) && ParallelCopy.MovesBelow(ms, limit') && limit <= limit'
    ensures AllMovesBelow(moves[l := ms], limit')
  {
  }

  /** All values are below the next one. */
  lemma ExitedOk(f0: Blocks, f: Blocks, moves: map<Label, seq<ParallelCopy.Move>>, limit: Id, limit': Id)
    requires Exiting(f0, f, moves, f0.Keys) && FunctionOk(f0, limit) && AllMovesBelow(moves, limit') && limit <= limit'
    ensures FunctionOk(f, limit')
  {
    forall l | l in f
      ensures BlockOk(f[l], limit')
    {
      assert BlockOk(f0[l], limit) && ParallelCopy.MovesBelow(moves[l], limit');
      forall k | 0 <= k < |f[l].body|
        ensures StmtOk(f[l].body[k], limit')
      {
        if k < |f0[l].body| {
          assert StmtOk(f0[l].body[k], limit);
        } else {
          assert f[l].body[k] == ToStmts(moves[l])[k - |f0[l].body|];
        }
      }
    }
    forall l, k | l in f && 0 <= k < |f[l].last.succs|
      ensures f[l].last.succs[k] in f
    {
      assert f[l].last == f0[l].last;
    }
  }

  lemma CriticalIs(f: Blocks, e: Edge)
    requires Critical(f, e)
    ensures e.src in f && e.dst in f && f[e.dst].phis != []
  {
  }

  lemma ExitedLabels(f0: Blocks, f: Blocks, moves: map<Label, seq<ParallelCopy.Move>>, order: seq<Label>, next: Label)
    requires Exiting(f0, f, moves, f0.Keys) && LabelsBelow(f0, next) && ListOk(f0, order)
    ensures LabelsBelow(f, next) && ListOk(f, order)
  {
  }

  /** The first block of the list, which nothing joins at: it has no phis. */
  predicate PlainEntry(f: Blocks, order: seq<Label>, l: Label) {
    order != [] && order[0] == l && l in f && f[l].phis == []
  }

  lemma LabelIsNew(f: Blocks, nb: Label)
    requires LabelsBelow(f, nb)
    ensures nb !in f
  {
  }

  lemma EntryStays(f: Blocks, order: seq<Label>, from: Label, to: Label, nb: Label)
    requires to in f && f[to].phis != []
    ensures forall l | PlainEntry(f, order, l) && l != nb ::
              PlainEntry(Split(f, from, to, nb), InsertBefore(order, to, nb), l)
  {
  }

  /** The blocks of a function being transformed, in list order, with its edge list. */
  class Function {
    var blocks: Blocks
    var order: seq<Label>
    var edges: seq<Edge>
    var nextValue: Id
    var nextLabel: Label

    constructor (blocks: Blocks, order: seq<Label>, nextValue: Id, nextLabel: Label)
      ensures this.blocks == blocks && this.order == order && edges == []
      ensures this.nextValue == nextValue && this.nextLabel == nextLabel
    {
      this.blocks, this.order, this.edges := blocks, order, [];
      this.nextValue, this.nextLabel := nextValue, nextLabel;
    }

    /** The list holds every block once, and labels and values are below the next ones. */
    ghost predicate Valid()
      reads this
    {
      ListOk(blocks, order) && LabelsBelow(blocks, nextLabel) && FunctionOk(blocks, nextValue)
    }

    /** construct_cfg: one edge for every different successor of a block. */
    method ConstructCfg()
      requires Valid() && edges == []
      modifies this`edges
      ensures EdgesMatch(blocks, edges)
    {
      for i := 0 to |order|
        invariant EdgesUpTo(blocks, order, i, 0, edges)
      {
        var lbl := order[i];
        assert lbl in order;
        var succs := blocks[lbl].last.succs;
        var marked: set<Label> := {};
        for k := 0 to |succs|
          invariant EdgesUpTo(blocks, order, i, k, edges)
          invariant forall t :: t in marked <==> t in succs[..k]
        {
          if succs[k] !in marked {
            AddCfgEdge(blocks, order, i, k, edges);
            marked := marked + {succs[k]};
            edges := [Edge(lbl, succs[k])] + edges;
          } else {
            SkipCfgEdge(blocks, order, i, k, edges);
          }
        }
        NextCfgBlock(blocks, order, i, edges);
      }
      assert order[..|order|] == order;
    }

    /** Does from have two outgoing edges? */
    method HasTwoOutgoing(from: Label) returns (r: bool)
      ensures r <==> exists i, j :: 0 <= i < j < |edges| && edges[i].src == from && edges[j].src == from
    {
      var count, i := 0, 0;
      ghost var first := 0;
      while i < |edges| && count < 2
        invariant i <= |edges| && count <= 2
        invariant count == 0 ==> forall j | 0 <= j < i :: edges[j].src != from
        invariant count == 1 ==> 0 <= first < i && edges[first].src == from && forall j | 0 <= j < i && j != first ::
                  edges[j].src != from
        invariant count == 2 ==> exists i, j :: 0 <= i < j < |edges| && edges[i].src == from && edges[j].src == from
      {
        if edges[i].src == from {
          if count == 0 {
            first := i;
          } else {
            assert 0 <= first < i < |edges| && edges[first].src == from && edges[i].src == from;
          }
          count := count + 1;
        }
        i := i + 1;
      }
      r := count == 2;
    }

    /** break_critical_edge on the i-th edge: a new block with one branch in front of the target, the
        edge bent to it and a new one behind it, the branch of the old block and the phis adjusted. */
    method BreakCriticalEdge(i: nat)
      requires i < |edges| && edges[i].src in blocks && edges[i].dst in blocks && nextLabel !in blocks
      modifies this`blocks, this`order, this`edges, this`nextLabel
      ensures nextLabel == old(nextLabel) + 1
      ensures blocks == old(Split(blocks, edges[i].src, edges[i].dst, nextLabel))
      ensures order == old(InsertBefore(order, edges[i].dst, nextLabel))
      ensures edges == old(SplitEdgeList(edges, i, nextLabel))
    {
      hide Split, Redirect, RenamePhis, InsertBefore;
      var from, to, nb := edges[i].src, edges[i].dst, nextLabel;
      SplitInSteps(blocks, from, to, nb);
      nextLabel := nextLabel + 1;
      order := InsertBefore(order, to, nb);
      blocks := blocks[nb := Block([], [], Jump(BRANCH, [], [to]))];
      edges := edges[i := Edge(from, nb)];
      edges := [Edge(nb, to)] + edges;
      blocks := blocks[from := blocks[from].(last := Redirect(blocks[from].last, to, nb))];
      var phis := RenamePredecessors(blocks[to].phis, from, nb);
      blocks := blocks[to := blocks[to].(phis := phis)];
    }

    static lemma SplitInSteps(f: Blocks, from: Label, to: Label, nb: Label)
      requires from in f && to in f && nb !in f
      ensures var g := f[nb := Block([], [], Jump(BRANCH, [], [to]))];
              var h := g[from := g[from].(last := Redirect(g[from].last, to, nb))];
              h[to].phis == f[to].phis && h[to := h[to].(phis := RenamePhis(f[to].phis, from, nb))] ==
                Split(f, from, to, nb)
    {
      hide Redirect, RenamePhis;
    }

    /** The loop over the phis of the target. */
    static method RenamePredecessors(phis0: seq<Phi>, from: Label, nb: Label) returns (phis: seq<Phi>)
      ensures phis == RenamePhis(phis0, from, nb)
    {
      phis := phis0;
      for k := 0 to |phis0|
        invariant |phis| == |phis0|
        invariant forall j | 0 <= j < |phis0| ::
                  phis[j] == if j < k then Phi(phis0[j].ret, RenameNodes(phis0[j].nodes, from, nb)) else phis0[j]
      {
        var nodes := RenameEntries(phis[k].nodes, from, nb);
        phis := phis[k := Phi(phis[k].ret, nodes)];
      }
    }

    /** The inner loop over the entries of one phi. */
    static method RenameEntries(nodes0: seq<PhiNode>, from: Label, nb: Label) returns (nodes: seq<PhiNode>)
      ensures nodes == RenameNodes(nodes0, from, nb)
    {
      nodes := nodes0;
      for j := 0 to |nodes0|
        invariant |nodes| == |nodes0|
        invariant forall k | 0 <= k < |nodes0| ::
                    nodes[k] == if k < j && nodes0[k].predecessor == from then nodes0[k].(predecessor := nb)
                      else nodes0[k]
      {
        if nodes[j].predecessor == from {
          nodes := nodes[j := nodes[j].(predecessor := nb)];
        }
      }
    }

    /** What break_crtitical_edges keeps: the edges before the i-th are fine. */
    ghost predicate Breaking(i: nat)
      reads this
    {
      && Valid() && EdgesMatch(blocks, edges) && InvokesFork(blocks) && i <= |edges|
      && (forall j | 0 <= j < i :: EdgeFine(blocks, edges[j]))
    }

    /** Breaking the i-th edge when those before it are fine. */
    method BreakNext(i: nat)
      requires Breaking(i) && i < |edges|
      modifies this`blocks, this`order, this`edges, this`nextLabel
      ensures Breaking(i + 2) && |edges| == |old(edges)| + 1 && nextLabel == old(nextLabel) + 1
      ensures SplitOf(old(blocks), blocks, nextValue)
      ensures blocks == old(Split(blocks, edges[i].src, edges[i].dst, nextLabel))
      ensures order == old(InsertBefore(order, edges[i].dst, nextLabel))
    {
      hide Split, InsertBefore, EdgesMatch, InvokesFork, LabelsBelow, FunctionOk, ListOk, EdgeFine, CanSplit;
      ghost var f, es, nb := blocks, edges, nextLabel;
      SplitEverything(f, order, es, i, nb, nextValue);
      SplitKeepsForks(f, es, i, nb, nextValue);
      forall j | 0 <= j < i + 2
        ensures EdgeFine(Split(f, es[i].src, es[i].dst, nb), SplitEdgeList(es, i, nb)[j])
      {
        SplitKeepsFine(f, es, i, nb, nextValue, j);
      }
      CanSplitFacts(f, es[i].src, es[i].dst, nb, nextValue);
      BreakCriticalEdge(i);
    }

    /** chain leads from the first function to the current one, and splits are the edges it has split. */
    ghost predicate Reached(chain: seq<Blocks>, splits: seq<Edge>, first: Blocks, order0: seq<Label>, label0: Label)
      reads this
    {
      && IsChain(chain, nextValue) && chain[0] == first && chain[|chain| - 1] == blocks
      && SplitsCritical(chain, splits, label0) && nextLabel == label0 + |splits|
      && order == Inserted(order0, splits, label0)
    }

    /** The i-th edge is left alone or broken. */
    method BreakIfCritical(i: nat, ghost chain: seq<Blocks>, ghost splits: seq<Edge>, ghost first: Blocks,
                           ghost order0: seq<Label>, ghost label0: Label)
      returns (next: nat, ghost chain': seq<Blocks>, ghost splits': seq<Edge>)
      requires Breaking(i) && i < |edges| && Reached(chain, splits, first, order0, label0)
      modifies this`blocks, this`order, this`edges, this`nextLabel
      ensures Breaking(next) && |edges| - next < |old(edges)| - i
      ensures Reached(chain', splits', first, order0, label0)
      ensures forall l :: old(PlainEntry(blocks, order, l)) ==> PlainEntry(blocks, order, l)
    {
      hide EdgesMatch, FunctionOk, LabelsBelow, ListOk, InvokesFork, IsChain, SplitOf, SplitsCritical, Inserted,
        Critical, PlainEntry;
      EdgeKnown(blocks, edges, nextValue, i);
      var e := edges[i];
      if blocks[e.dst].phis == [] {
        return i + 1, chain, splits;
      }
      var two := HasTwoOutgoing(e.src);
      if !two {
        OneOutgoing(blocks, edges, i);
        return i + 1, chain, splits;
      }
      TwoOutgoing(blocks, edges, i);
      next := i + 2;
      chain', splits' := BreakOne(i, chain, splits, first, order0, label0);
    }

    /** The i-th edge is critical and is broken. */
    method BreakOne(i: nat, ghost chain: seq<Blocks>, ghost splits: seq<Edge>, ghost first: Blocks,
                    ghost order0: seq<Label>, ghost label0: Label)
      returns (ghost chain': seq<Blocks>, ghost splits': seq<Edge>)
      requires Breaking(i) && i < |edges| && Reached(chain, splits, first, order0, label0)
      requires Critical(blocks, edges[i])
      modifies this`blocks, this`order, this`edges, this`nextLabel
      ensures Breaking(i + 2) && |edges| == |old(edges)| + 1
      ensures Reached(chain', splits', first, order0, label0)
      ensures forall l :: old(PlainEntry(blocks, order, l)) ==> PlainEntry(blocks, order, l)
    {
      hide Breaking, IsChain, SplitOf, SplitsCritical, Inserted, Critical, Split, InsertBefore;
      var e := edges[i];
      CriticalIs(blocks, e);
      SplitsMore(chain, splits, label0, e);
      InsertedMore(order0, splits, label0, e);
      EntryStays(blocks, order, e.src, e.dst, nextLabel);
      NewLabel(i);
      BreakNext(i);
      ExtendChain(chain, nextValue, blocks);
      chain', splits' := chain + [blocks], splits + [e];
    }

    lemma NewLabel(i: nat)
      requires Breaking(i)
      ensures nextLabel !in blocks
    {
      LabelIsNew(blocks, nextLabel);
    }

    /** break_crtitical_edges */
    method BreakCriticalEdges() returns (ghost chain: seq<Blocks>, ghost splits: seq<Edge>)
      requires Breaking(0)
      modifies this`blocks, this`order, this`edges, this`nextLabel
      ensures Breaking(|edges|) && NoCriticalEdges(blocks)
      ensures Reached(chain, splits, old(blocks), old(order), old(nextLabel))
      ensures forall l :: old(PlainEntry(blocks, order, l)) ==> PlainEntry(blocks, order, l)
    {
      chain, splits := [blocks], [];
      ghost var first, order0, label0 := blocks, order, nextLabel;
      var i: nat := 0;
      while i < |edges|
        invariant Breaking(i)
        invariant Reached(chain, splits, first, order0, label0)
        invariant forall l :: old(PlainEntry(blocks, order, l)) ==> PlainEntry(blocks, order, l)
        decreases |edges| - i
      {
        i, chain, splits := BreakIfCritical(i, chain, splits, first, order0, label0);
      }
      AllFine(blocks, edges);
    }

    /** What exit_ssa keeps: the lists stay, and the edges in done are served. */
    ghost predicate Serving(f0: Blocks, moves: map<Label, seq<ParallelCopy.Move>>, done: set<Edge>, cleared: set<Label>,
                            limit: Id)
      reads this
    {
      && FunctionOk(f0, limit) && EdgesMatch(f0, edges) && NoCriticalEdges(f0) && limit <= nextValue
      && AllMovesBelow(moves, nextValue)
      && Exiting(f0, blocks, moves, cleared) && Served(f0, moves, done, limit)
      && (forall e | e in done :: e in edges)
    }

    /** exit_ssa_edge at the end of the source of e. */
    method ServeOne(e: Edge, limit: Id, ghost f0: Blocks, ghost moves: map<Label, seq<ParallelCopy.Move>>,
                    ghost done: set<Edge>, ghost cleared: set<Label>)
      returns (ghost moves': map<Label, seq<ParallelCopy.Move>>)
      requires Serving(f0, moves, done, cleared, limit) && e in edges && e !in done && e.dst !in cleared
      modifies this`blocks, this`nextValue
      ensures Serving(f0, moves', done + {e}, cleared, limit)
    {
      hide FunctionOk, EdgesMatch, NoCriticalEdges, Exiting, Served, AllMovesBelow, PhisOk, Realises;
      EdgeToServe(f0, blocks, moves, cleared, edges, e, limit);
      var ms, next := ExitSsaEdge(blocks[e.dst].phis, e.src, limit, nextValue);
      EdgeRealises(ms, f0[e.dst].phis, e.src, limit);
      ServeEdge(f0, moves, done, limit, edges, e, ms);
      AddMoves(f0, blocks, moves, cleared, e.src, ms);
      AllBelowMore(moves, e.src, ms, nextValue, next);
      nextValue := next;
      blocks := blocks[e.src := blocks[e.src].(body := blocks[e.src].body + ToStmts(ms))];
      moves' := moves[e.src := ms];
    }

    /** Of the first j edges, those that enter lbl have been served. */
    ghost predicate ServedUpTo(done: set<Edge>, done0: set<Edge>, j: nat, lbl: Label)
      requires j <= |edges|
      reads this
    {
      forall e :: e in done <==> e in done0 || (e in edges[..j] && e.dst == lbl)
    }

    lemma NextServed(done: set<Edge>, done0: set<Edge>, j: nat, lbl: Label)
      requires j < |edges| && ServedUpTo(done, done0, j, lbl)
      ensures ServedUpTo(if edges[j].dst == lbl then done + {edges[j]} else done, done0, j + 1, lbl)
    {
      assert edges[..j + 1] == edges[..j] + [edges[j]];
    }

    /** exit_ssa_bb: serves the incoming edges of lbl and drops its phis. */
    method ExitSsaBlock(lbl: Label, limit: Id, ghost f0: Blocks, ghost moves0: map<Label, seq<ParallelCopy.Move>>,
                        ghost done0: set<Edge>, ghost cleared: set<Label>)
      returns (ghost moves: map<Label, seq<ParallelCopy.Move>>, ghost done: set<Edge>)
      requires Serving(f0, moves0, done0, cleared, limit)
      requires forall e | e in done0 :: e.dst != lbl
      requires lbl in f0 && lbl !in cleared
      modifies this`blocks, this`nextValue
      ensures Serving(f0, moves, done, cleared + {lbl}, limit)
      ensures forall e :: e in done <==> e in done0 || (e in edges && e.dst == lbl)
    {
      moves, done := moves0, done0;
      for j := 0 to |edges|
        invariant Serving(f0, moves, done, cleared, limit)
        invariant ServedUpTo(done, done0, j, lbl)
      {
        moves, done := ServeNext(j, lbl, limit, f0, moves, done, done0, cleared);
      }
      assert edges[..|edges|] == edges;
      DropPhis(lbl, limit, f0, moves, done, cleared);
    }

    /** One turn of the loop over the incoming edges. */
    method ServeNext(j: nat, lbl: Label, limit: Id, ghost f0: Blocks, ghost moves: map<Label, seq<ParallelCopy.Move>>,
                     ghost done: set<Edge>, ghost done0: set<Edge>, ghost cleared: set<Label>)
      returns (ghost moves': map<Label, seq<ParallelCopy.Move>>, ghost done': set<Edge>)
      requires Serving(f0, moves, done, cleared, limit) && j < |edges| && ServedUpTo(done, done0, j, lbl)
      requires (forall e | e in done0 :: e.dst != lbl) && lbl !in cleared
      modifies this`blocks, this`nextValue
      ensures Serving(f0, moves', done', cleared, limit) && ServedUpTo(done', done0, j + 1, lbl)
    {
      NextServed(done, done0, j, lbl);
      var e := edges[j];
      assert e in edges && e !in edges[..j];
      assert e.dst == lbl ==> e !in done;
      hide Serving, ServedUpTo;
      moves', done' := moves, done;
      if e.dst == lbl {
        moves' := ServeOne(e, limit, f0, moves, done, cleared);
        done' := done + {e};
      }
    }

    /** The end of exit_ssa_bb. */
    method DropPhis(lbl: Label, limit: Id, ghost f0: Blocks, ghost moves: map<Label, seq<ParallelCopy.Move>>,
                    ghost done: set<Edge>, ghost cleared: set<Label>)
      requires Serving(f0, moves, done, cleared, limit) && lbl in f0
      modifies this`blocks
      ensures Serving(f0, moves, done, cleared + {lbl}, limit)
    {
      ClearPhis(f0, blocks, moves, cleared, lbl);
      blocks := blocks[lbl := blocks[lbl].(phis := [])];
    }

    /** exit_ssa */
    method ExitSsa()
      requires Valid() && EdgesMatch(blocks, edges) && NoCriticalEdges(blocks) && InvokesFork(blocks)
      modifies this`blocks, this`nextValue
      ensures nextValue >= old(nextValue) && Valid() && EdgesMatch(blocks, edges)
      ensures Lowered(old(blocks), blocks, old(nextValue))
    {
      var limit := nextValue;
      ghost var f0 := blocks;
      ghost var moves: map<Label, seq<ParallelCopy.Move>> := map l | l in f0 :: [];
      ghost var done: set<Edge> := {};
      NothingServed(f0, moves, limit);
      for i := 0 to |order|
        invariant Serving(f0, moves, done, Elems(order[..i]), limit)
        invariant forall e :: e in done <==> e in edges && e.dst in order[..i]
      {
        NextInOrder(order, i);
        moves, done := ExitSsaBlock(order[i], limit, f0, moves, done, Elems(order[..i]));
      }
      assert order[..|order|] == order;
      AllEdgesKnown(f0, edges, order, limit);
      AllServed(f0, blocks, moves, Elems(order), done, edges, limit);
      AllExited(f0, moves, limit, done);
    }

    lemma AllExited(f0: Blocks, moves: map<Label, seq<ParallelCopy.Move>>, limit: Id, done: set<Edge>)
      requires Serving(f0, moves, done, Elems(order), limit) && ListOk(f0, order) && LabelsBelow(f0, nextLabel)
      ensures Valid() && EdgesMatch(blocks, edges)
    {
      hide FunctionOk, EdgesMatch, Exiting, AllMovesBelow, NoCriticalEdges, Served, LabelsBelow;
      assert Elems(order) == f0.Keys;
      ExitedEdges(f0, blocks, moves, f0.Keys, edges);
      ExitedOk(f0, blocks, moves, limit, nextValue);
      ExitedLabels(f0, blocks, moves, order, nextLabel);
    }

    /** construct_cfg, break_crtitical_edges and exit_ssa in the order of transform_function.  Only critical
        edges are split, the new blocks stand in front of their targets in a list that is otherwise the old
        one, and lists, edges, labels and values are again as every pass expects them. */
    method LeaveSsa() returns (ghost chain: seq<Blocks>, ghost splits: seq<Edge>)
      requires Valid() && edges == [] && InvokesFork(blocks)
      modifies this
      ensures IsChain(chain, old(nextValue)) && chain[0] == old(blocks)
      ensures FunctionOk(chain[|chain| - 1], old(nextValue)) && Lowered(chain[|chain| - 1], blocks, old(nextValue))
      ensures forall l :: old(PlainEntry(blocks, order, l)) ==> order != [] && order[0] == l
      ensures Valid() && EdgesMatch(blocks, edges)
      ensures SplitsCritical(chain, splits, old(nextLabel)) && nextLabel == old(nextLabel) + |splits|
      ensures order == Inserted(old(order), splits, old(nextLabel)) && OnlyOf(order, old(blocks)) == old(order)
    {
      OldLabels(blocks, order, nextLabel);
      ghost var f0, order0, label0 := blocks, order, nextLabel;
      hide FunctionOk, ListOk, LabelsBelow, EdgesMatch, InvokesFork, NoCriticalEdges, Lowered, IsChain, SplitsCritical,
        Inserted;
      ConstructCfg();
      chain, splits := BreakCriticalEdges();
      OldListStays(order0, splits, label0, f0);
      ExitSsa();
    }
  }

  lemma NothingServed(f0: Blocks, moves: map<Label, seq<ParallelCopy.Move>>, limit: Id)
    requires moves == map l | l in f0 :: []
    ensures Exiting(f0, f0, moves, {}) && Served(f0, moves, {}, limit)
  {
    assert forall l | l in f0 :: f0[l].body + ToStmts([]) == f0[l].body;
  }

  lemma OldLabels(f: Blocks, order: seq<Label>, next: Label)
    requires ListOk(f, order) && LabelsBelow(f, next)
    ensures (forall l | l in order :: l in f) && forall l | l in f :: l < next
  {
  }

  lemma NextInOrder(order: seq<Label>, i: nat)
    requires Unique(order) && i < |order|
    ensures order[i] in order && order[i] !in order[..i]
    ensures Elems(order[..i + 1]) == Elems(order[..i]) + {order[i]}
    ensures forall l :: l in order[..i + 1] <==> l in order[..i] || l == order[i]
  {
  }

  lemma ClearPhis(f0: Blocks, f: Blocks, moves: map<Label, seq<ParallelCopy.Move>>, cleared: set<Label>, l: Label)
    requires Exiting(f0, f, moves, cleared) && l in f0
    ensures Exiting(f0, f[l := f[l].(phis := [])], moves, cleared + {l})
  {
  }

  lemma AllEdgesKnown(f: Blocks, edges: seq<Edge>, order: seq<Label>, limit: Id)
    requires EdgesMatch(f, edges) && FunctionOk(f, limit) && (forall l :: l in order <==> l in f)
    ensures forall e | e in edges :: e.dst in order
  {
    forall e | e in edges
      ensures e.dst in order
    {
      assert e.dst in f[e.src].last.succs;
      var k :| 0 <= k < |f[e.src].last.succs| && f[e.src].last.succs[k] == e.dst;
    }
  }
}
