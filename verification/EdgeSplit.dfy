/** break_critical_edge: what splitting one edge does to a function, and that runs survive it. */
module EdgeSplit {
  import opened Code
  import opened ParallelCopy
  import opened Ssa

  const BRANCH: nat := 0

  /** bb_change_branch: the last instruction goes to nb wherever it went to old. */
  function Redirect(last: Last, was: Label, nb: Label): (r: Last)
    ensures r.succs == RedirectAll(last.succs, was, nb)
    ensures r.op == last.op && r.uses == last.uses && r.Invoke? == last.Invoke?
    ensures last.Invoke? ==> r.defs == last.defs
  {
    last.(succs := RedirectAll(last.succs, was, nb))
  }

  function RedirectAll(succs: seq<Label>, was: Label, nb: Label): (r: seq<Label>)
    ensures |r| == |succs| && forall k | 0 <= k < |succs| :: r[k] == if succs[k] == was then nb else succs[k]
  {
    seq(|succs|, k requires 0 <= k < |succs| => if succs[k] == was then nb else succs[k])
  }

  function RenameNodes(nodes: seq<PhiNode>, p: Label, nb: Label): (r: seq<PhiNode>)
    ensures |r| == |nodes|
    ensures forall j | 0 <= j < |nodes| ::
              r[j] == if nodes[j].predecessor == p then nodes[j].(predecessor := nb) else nodes[j]
  {
    seq(|nodes|, j requires 0 <= j < |nodes| =>
        if nodes[j].predecessor == p then nodes[j].(predecessor := nb) else nodes[j])
  }

  function RenamePhis(phis: seq<Phi>, p: Label, nb: Label): (r: seq<Phi>)
    ensures |r| == |phis| && forall i | 0 <= i < |phis| :: r[i] == Phi(phis[i].ret, RenameNodes(phis[i].nodes, p, nb))
  {
    seq(|phis|, i requires 0 <= i < |phis| => Phi(phis[i].ret, RenameNodes(phis[i].nodes, p, nb)))
  }

  function SplitBlock(b: Block, l: Label, from: Label, to: Label, nb: Label): (r: Block) {
    Block(if l == to then RenamePhis(b.phis, from, nb) else b.phis, b.body,
          if l == from then Redirect(b.last, to, nb) else b.last)
  }

  /** The function with nb put on the edge from -> to. */
  function Split(f: Blocks, from: Label, to: Label, nb: Label): (g: Blocks)
    ensures g.Keys == f.Keys + {nb}
  {
    (map l | l in f :: SplitBlock(f[l], l, from, to, nb))[nb := Block([], [], Jump(BRANCH, [], [to]))]
  }

  /** Every label mentioned by the function is below next. */
  predicate LabelsBelow(f: Blocks, next: Label) {
    forall l | l in f :: l < next && forall i | 0 <= i < |f[l].phis| :: PredecessorsBelow(f[l].phis[i], next)
  }

  predicate PredecessorsBelow(phi: Phi, next: Label) {
    forall j | 0 <= j < |phi.nodes| :: phi.nodes[j].predecessor < next
  }

  /** A block on an edge: f has the edge and has never heard of the label. */
  ghost predicate CanSplit(f: Blocks, from: Label, to: Label, nb: Label, limit: Id) {
    FunctionOk(f, limit) && LabelsBelow(f, nb) && from in f && to in f[from].last.succs && to in f
  }

  lemma SplitOk(f: Blocks, from: Label, to: Label, nb: Label, limit: Id)
    requires CanSplit(f, from, to, nb, limit)
    ensures FunctionOk(Split(f, from, to, nb), limit) && LabelsBelow(Split(f, from, to, nb), nb + 1)
  {
    hide BlockOk, PredecessorsBelow, Split, CanSplit;
    var g := Split(f, from, to, nb);
    SplitKeys(f, from, to, nb);
    forall l | l in g
      ensures BlockOk(g[l], limit)
      ensures forall i | 0 <= i < |g[l].phis| :: PredecessorsBelow(g[l].phis[i], nb + 1)
      ensures forall k | 0 <= k < |g[l].last.succs| :: g[l].last.succs[k] in g
      ensures l < nb + 1
    {
      SplitLabelOk(f, from, to, nb, limit, l);
    }
  }

  lemma SplitKeys(f: Blocks, from: Label, to: Label, nb: Label)
    ensures forall l :: l in Split(f, from, to, nb) <==> l in f || l == nb
  {
  }

  lemma SplitLabelOk(f: Blocks, from: Label, to: Label, nb: Label, limit: Id, l: Label)
    requires CanSplit(f, from, to, nb, limit) && l in Split(f, from, to, nb)
    ensures var g := Split(f, from, to, nb);
      && BlockOk(g[l], limit) && l < nb + 1
      && (forall i | 0 <= i < |g[l].phis| :: PredecessorsBelow(g[l].phis[i], nb + 1))
      && (forall k | 0 <= k < |g[l].last.succs| :: g[l].last.succs[k] in g)
  {
    if l != nb {
      assert BlockOk(f[l], limit) && forall i | 0 <= i < |f[l].phis| :: PredecessorsBelow(f[l].phis[i], nb);
      SplitBlockOk(f[l], l, from, to, nb, limit);
      assert forall k | 0 <= k < |f[l].last.succs| :: f[l].last.succs[k] in f;
    }
  }

  lemma SplitBlockOk(b: Block, l: Label, from: Label, to: Label, nb: Label, limit: Id)
    requires BlockOk(b, limit) && forall i | 0 <= i < |b.phis| :: PredecessorsBelow(b.phis[i], nb)
    ensures var b' := SplitBlock(b, l, from, to, nb);
      BlockOk(b', limit) && forall i | 0 <= i < |b'.phis| :: PredecessorsBelow(b'.phis[i], nb + 1)
  {
    var b' := SplitBlock(b, l, from, to, nb);
    forall i | 0 <= i < |b.phis|
      ensures PhiOk(b'.phis[i], limit) && PredecessorsBelow(b'.phis[i], nb + 1)
    {
      assert PhiOk(b.phis[i], limit) && PredecessorsBelow(b.phis[i], nb);
    }
  }

  lemma {:induction false} RenamedIncoming(nodes: seq<PhiNode>, from: Label, nb: Label, p: Label, default: Id)
    requires forall j | 0 <= j < |nodes| :: nodes[j].predecessor != nb
    ensures p == nb ==> IncomingIn(RenameNodes(nodes, from, nb), p, default) == IncomingIn(nodes, from, default)
    ensures p != nb && p != from ==>
              IncomingIn(RenameNodes(nodes, from, nb), p, default) == IncomingIn(nodes, p, default)
  {
    if nodes != [] {
      RenamedIncoming(nodes[1..], from, nb, p, default);
      assert RenameNodes(nodes, from, nb)[1..] == RenameNodes(nodes[1..], from, nb);
    }
  }

  lemma {:induction false} RenamedSource(phis: seq<Phi>, from: Label, nb: Label, p: Label, t: Id)
    requires forall i | 0 <= i < |phis| :: PredecessorsBelow(phis[i], nb)
    ensures p == nb ==> Source(RenamePhis(phis, from, nb), p, t) == Source(phis, from, t)
    ensures p != nb && p != from ==> Source(RenamePhis(phis, from, nb), p, t) == Source(phis, p, t)
  {
    if phis != [] {
      RenamedSource(phis[1..], from, nb, p, t);
      assert RenamePhis(phis, from, nb)[1..] == RenamePhis(phis[1..], from, nb);
      assert PredecessorsBelow(phis[0], nb);
      RenamedIncoming(phis[0].nodes, from, nb, p, phis[0].ret);
    }
  }

  /** Phis that read alike give environments that agree. */
  lemma SamePhis(phis: seq<Phi>, p: Label, phis': seq<Phi>, p': Label, e: Env, e': Env, limit: Id)
    requires PhisOk(phis, limit) && SameBelow(e, e', limit)
    requires forall t: Id | t < limit :: Source(phis', p', t) == Source(phis, p, t)
    ensures SameBelow(EvalPhis(phis, p, e), EvalPhis(phis', p', e'), limit)
  {
    var a, b := EvalPhis(phis, p, e), EvalPhis(phis', p', e');
    forall t: Id | t < limit
      ensures Read(a, t) == Read(b, t)
    {
      SourceBelow(phis, p, t, limit);
      assert Read(e, Source(phis, p, t)) == Read(e', Source(phis, p, t));
      assert Read(b, t) == Read(e', Source(phis', p', t));
    }
  }

  /** One block of the function is one block of the split function, or two when the edge is taken. */
  lemma SplitStep<W>(m: Machine<W>, f: Blocks, from: Label, to: Label, nb: Label, limit: Id, s: State<W>, t: State<W>)
    returns (k: nat)
    requires CanSplit(f, from, to, nb, limit) && SameState(s, t, limit) && (s.At? ==> s.lbl in f)
    ensures 1 <= k <= 2
    ensures var s' := StepBlock(m, f, s);
            SameState(s', Run(m, Split(f, from, to, nb), t, k), limit) && (s'.At? ==> s'.lbl in f)
  {
    var g := Split(f, from, to, nb);
    k := 1;
    assert Run(m, g, t, 0) == t && Run(m, g, t, 1) == StepBlock(m, g, t);
    if s.Done? {
      return;
    }
    var lbl, b := s.lbl, f[s.lbl];
    assert BlockOk(b, limit) && g[lbl].body == b.body;
    var l, l' := ExecBody(m, b.body, Local(s.env, s.world)), ExecBody(m, b.body, Local(t.env, t.world));
    SameBody(m, b.body, Local(s.env, s.world), Local(t.env, t.world), limit);
    var last := b.last;
    SameArgs(l.env, l'.env, limit, last.uses);
    var args := ReadAll(l.env, last.uses);
    var e, e' := l.env, l'.env;
    if last.Invoke? {
      var rs := m.exec(last.op, l.world, args);
      SameWrites(e, e', limit, last.defs, rs, |last.defs|);
      e, e' := WriteAll(e, last.defs, rs, |last.defs|), WriteAll(e', last.defs, rs, |last.defs|);
    }
    if last.succs == [] {
      return;
    }
    var i := m.pick(last.op, l.world, args) % |last.succs|;
    var x := last.succs[i];
    assert x in f && BlockOk(f[x], limit) && LabelsBelow(f, nb);
    forall v: Id | v < limit
      ensures x == to && lbl == from ==> Source(g[to].phis, nb, v) == Source(f[to].phis, from, v)
      ensures x == to && lbl != from ==> Source(g[to].phis, lbl, v) == Source(f[to].phis, lbl, v)
    {
      RenamedSource(f[to].phis, from, nb, if lbl == from then nb else lbl, v);
    }
    if lbl == from && x == to {
      k := 2;
      var mid := Run(m, g, t, 1);
      assert mid == At(nb, EvalPhis([], from, e'), mid.world);
      var e'' := EvalPhis([], from, e');
      assert forall v :: Read(e'', v) == Read(e', Source([], from, v));
      SamePhis(f[to].phis, from, g[to].phis, nb, e, e'', limit);
      assert ExecBody(m, [], Local(e'', mid.world)) == Local(e'', mid.world);
    } else {
      SamePhis(f[x].phis, lbl, g[x].phis, lbl, e, e', limit);
    }
  }

  lemma {:induction false} RunAdd<W>(m: Machine<W>, f: Blocks, s: State<W>, a: nat, b: nat)
    ensures Run(m, f, s, a + b) == Run(m, f, Run(m, f, s, a), b)
  {
    if b > 0 {
      RunAdd(m, f, s, a, b - 1);
    }
  }

  /** Splitting an edge keeps every run, at the price of the extra blocks. */
  lemma {:induction false} SplitRuns<W>(m: Machine<W>, f: Blocks, from: Label, to: Label, nb: Label, limit: Id,
                                        s: State<W>, t: State<W>, steps: nat)
    returns (k: nat)
    requires CanSplit(f, from, to, nb, limit) && SameState(s, t, limit) && (s.At? ==> s.lbl in f)
    ensures k >= steps
    ensures SameState(Run(m, f, s, steps), Run(m, Split(f, from, to, nb), t, k), limit)
    ensures Run(m, f, s, steps).At? ==> Run(m, f, s, steps).lbl in f
  {
    hide StepBlock, CanSplit, Split, SameState;
    k := 0;
    if steps > 0 {
      var j := SplitRuns(m, f, from, to, nb, limit, s, t, steps - 1);
      var g := Split(f, from, to, nb);
      var d := SplitStep(m, f, from, to, nb, limit, Run(m, f, s, steps - 1), Run(m, g, t, j));
      RunAdd(m, g, t, j, d);
      k := j + d;
    }
  }
}
