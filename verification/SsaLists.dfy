/** Leaving SSA form with the intrusive node list: what NodeList says of one edge, for a whole function. */
module SsaLists {
  import opened Basics
  import opened Code
  import opened ParallelCopy
  import opened NodeList
  import opened Ssa
  import opened SsaExit

  /** What exit_ssa_edge emits for the phis of a block and one predecessor. */
  function EdgeMoves(phis: seq<Phi>, predecessor: Label, next: Id, fuel: nat): (r: NodeList.Outcome) {
    var g := GatherPhis(phis, predecessor, |phis|);
    ListMoves(g.from, g.edges, ListOf(g.nodes), next, fuel)
  }

  /** Lists behave as sets for this edge. */
  ghost predicate EdgeSafe(phis: seq<Phi>, predecessor: Label) {
    ListsAreSets(GatherPhis(phis, predecessor, |phis|).from)
  }

  /** More turns than there are edges are never needed. */
  predicate EnoughFuel(phis: seq<Phi>, predecessor: Label, fuel: nat) {
    fuel >= |GatherPhis(phis, predecessor, |phis|).edges|
  }

  /** The moves from the lists do what the simultaneous evaluation of the phis does. */
  lemma EdgeMovesRealise(phis: seq<Phi>, predecessor: Label, limit: Id, next: Id, fuel: nat)
    requires PhisOk(phis, limit) && EdgeSafe(phis, predecessor) && next >= limit && EnoughFuel(phis, predecessor, fuel)
    ensures var r := EdgeMoves(phis, predecessor, next, fuel); r.Moves? && Realises(r.moves, phis, predecessor, limit)
  {
    hide GatherPhis, ListMoves, ListsAreSets, ListOf, PhisOk, ListsOk, Realises, Incoming;
    var g := GatherPhis(phis, predecessor, |phis|);
    PhisGathered(phis, predecessor, |phis|, limit);
    ListsAgree(g.from, g.edges, g.nodes, limit, next, fuel);
    var moves := EdgeMoves(phis, predecessor, next, fuel).moves;
    forall i | 0 <= i < |phis|
      ensures Origin(moves, phis[i].ret) == Incoming(phis[i], predecessor)
    {
      RetBelow(phis, limit, i);
      assert phis[i].ret in g.from ==> Origin(moves, phis[i].ret) == g.from[phis[i].ret];
    }
    forall t: Id | t < limit && forall i | 0 <= i < |phis| :: phis[i].ret != t
      ensures Origin(moves, t) == t
    {
      assert t !in g.from;
    }
    EdgeRealises(moves, phis, predecessor, limit);
  }

  lemma RetBelow(phis: seq<Phi>, limit: Id, i: nat)
    requires PhisOk(phis, limit) && i < |phis|
    ensures phis[i].ret < limit
  {
    assert PhiOk(phis[i], limit);
  }

  /** The block control goes to next, if it has phis. */
  predicate HasPhiTarget(f: Blocks, l: Label)
    requires l in f
  {
    var succs := f[l].last.succs;
    succs != [] && succs[0] in f && f[succs[0]].phis != []
  }

  /** What exit_ssa leaves of block l when it works on lists. */
  ghost predicate ListLoweredBlock(f: Blocks, l: Label, b: Block, limit: Id)
    requires l in f
  {
    && b.phis == [] && b.last == f[l].last
    && if HasPhiTarget(f, l) then
         var phis := f[f[l].last.succs[0]].phis;
         exists next, fuel :: next >= limit && EnoughFuel(phis, l, fuel) && EdgeMoves(phis, l, next, fuel).Moves?
                              && b.body == f[l].body + ToStmts(EdgeMoves(phis, l, next, fuel).moves)
       else b.body == f[l].body
  }

  ghost predicate ListLowered(f: Blocks, g: Blocks, limit: Id) {
    g.Keys == f.Keys && forall l | l in f :: ListLoweredBlock(f, l, g[l], limit)
  }

  /** Lists behave as sets for every edge into phis. */
  ghost predicate AllSafe(f: Blocks) {
    forall l | l in f && HasPhiTarget(f, l) :: EdgeSafe(f[f[l].last.succs[0]].phis, l)
  }

  lemma ListLoweredIsLowered(f: Blocks, g: Blocks, limit: Id)
    requires FunctionOk(f, limit) && NoCriticalEdges(f) && InvokesFork(f) && AllSafe(f) && ListLowered(f, g, limit)
    ensures Lowered(f, g, limit)
  {
    hide FunctionOk, NoCriticalEdges, InvokesFork, ListLoweredBlock, LoweredBlock, HasPhiTarget, EdgeSafe;
    forall l | l in f
      ensures LoweredBlock(f, l, g[l], limit)
    {
      if HasPhiTarget(f, l) {
        PhiTargetLowered(f, l, g[l], limit);
      } else {
        PlainTargetLowered(f, l, g[l], limit);
      }
    }
  }

  lemma PhiTargetLowered(f: Blocks, l: Label, b: Block, limit: Id)
    requires FunctionOk(f, limit) && NoCriticalEdges(f) && InvokesFork(f) && l in f && HasPhiTarget(f, l)
    requires EdgeSafe(f[f[l].last.succs[0]].phis, l) && ListLoweredBlock(f, l, b, limit)
    ensures LoweredBlock(f, l, b, limit)
  {
    hide EdgeMoves, EnoughFuel, EdgeSafe, Realises;
    var last := f[l].last;
    var phis := f[last.succs[0]].phis;
    var next, fuel :| next >= limit && EnoughFuel(phis, l, fuel) && EdgeMoves(phis, l, next, fuel).Moves?
                      && b.body == f[l].body + ToStmts(EdgeMoves(phis, l, next, fuel).moves);
    var moves := EdgeMoves(phis, l, next, fuel).moves;
    assert BlockOk(f[last.succs[0]], limit);
    EdgeMovesRealise(phis, l, limit, next, fuel);
    assert OnlySuccessor(last, last.succs[0]);
    assert MovesOk(f, l, moves, limit);
  }

  lemma NoPhisBehind(f: Blocks, l: Label, k: nat)
    requires NoCriticalEdges(f) && l in f && !HasPhiTarget(f, l) && k < |f[l].last.succs| && f[l].last.succs[k] in f
    ensures f[f[l].last.succs[k]].phis == []
  {
    var last := f[l].last;
    assert f[last.succs[k]].phis != [] ==> OnlySuccessor(last, last.succs[k]);
    assert OnlySuccessor(last, last.succs[k]) ==> last.succs[0] == last.succs[k];
  }

  lemma PlainTargetLowered(f: Blocks, l: Label, b: Block, limit: Id)
    requires FunctionOk(f, limit) && NoCriticalEdges(f) && l in f && !HasPhiTarget(f, l)
              && ListLoweredBlock(f, l, b, limit)
    ensures LoweredBlock(f, l, b, limit)
  {
    var last := f[l].last;
    forall k | 0 <= k < |last.succs|
      ensures last.succs[k] in f && Realises([], f[last.succs[k]].phis, l, limit)
    {
      NoPhisBehind(f, l, k);
    }
    assert ToStmts([]) == [] && f[l].body + [] == f[l].body;
    assert MovesOk(f, l, [], limit);
  }

  /** Splitting the critical edges and then leaving SSA on the lists of the C code preserves every run,
      if lists behave as sets for every edge into phis. */
  lemma LeavingSsaOnListsPreservesRuns<W>(m: Machine<W>, chain: seq<Blocks>, g: Blocks, limit: Id, s: State<W>,
                                          t: State<W>,
                                          steps: nat)
    returns (k: nat)
    requires IsChain(chain, limit) && FunctionOk(chain[|chain| - 1], limit)
    requires NoCriticalEdges(chain[|chain| - 1]) && InvokesFork(chain[|chain| - 1]) && AllSafe(chain[|chain| - 1])
    requires ListLowered(chain[|chain| - 1], g, limit)
    requires SameState(s, t, limit) && (s.At? ==> s.lbl in chain[0])
    ensures k >= steps && SameState(Run(m, chain[0], s, steps), Run(m, g, t, k), limit)
  {
    hide FunctionOk, NoCriticalEdges, InvokesFork, AllSafe, ListLowered, Lowered, SameState, Run;
    ListLoweredIsLowered(chain[|chain| - 1], g, limit);
    k := LeavingSsaPreservesRuns(m, chain, g, limit, s, t, steps);
  }

  /** The phis of NodeList.ListsAreNotSets on an edge: exit_ssa_edge follows a null pointer. */
  lemma EdgeFails(next: Id, fuel: nat)
    requires fuel >= 1
    ensures PhisOk(BAD_PHIS, 7) && EdgeMoves(BAD_PHIS, 0, next, fuel) == NullPointer && !EdgeSafe(BAD_PHIS, 0)
  {
    hide GatherPhis, ListMoves, ListsAreSets, ListOf, ListsOk;
    BadPhisGathered();
    ListsAreNotSets(next, fuel);
    assert forall i | 0 <= i < |BAD_PHIS| :: PhiOk(BAD_PHIS[i], 7);
  }
}
