/** exit_ssa_edge: the phis of a block, taken for one predecessor, are a parallel copy; this
    turns it into a list of moves. */
module ParallelCopy {
  import opened Basics

  type Id = nat

  datatype Move = Move(dst: Id, src: Id)

  datatype PhiNode = PhiNode(predecessor: nat, value: Id)
  datatype Phi = Phi(ret: Id, nodes: seq<PhiNode>)

  /** After the moves, t holds what Origin(moves, t) held before them. */
  function Origin(moves: seq<Move>, t: Id): (r: Id) {
    if moves == [] then t
    else
      var last := moves[|moves| - 1];
      Origin(moves[..|moves| - 1], if t == last.dst then last.src else t)
  }

  lemma OriginSnoc(moves: seq<Move>, m: Move, t: Id)
    ensures Origin(moves + [m], t) == Origin(moves, if t == m.dst then m.src else t)
  {
    assert (moves + [m])[..|moves|] == moves;
  }

  /** The moves only mention values below limit. */
  predicate MovesBelow(moves: seq<Move>, limit: Id) {
    forall i | 0 <= i < |moves| :: moves[i].dst < limit && moves[i].src < limit
  }

  lemma PushBelow(moves: seq<Move>, m: Move, limit: Id, limit': Id)
    requires MovesBelow(moves, limit) && limit <= limit' && m.dst < limit' && m.src < limit'
    ensures MovesBelow(moves + [m], limit')
  {
  }

  // ----- lists of nodes; removing a node is set difference -----

  function Remove(ns: seq<Id>, t: Id): (r: seq<Id>)
    ensures forall u :: u in r <==> u in ns && u != t
    ensures |r| <= |ns| && (t in ns ==> |r| < |ns|)
  {
    if ns == [] then []
    else
      assert ns == [ns[0]] + ns[1..];
      if ns[0] == t then Remove(ns[1..], t) else [ns[0]] + Remove(ns[1..], t)
  }

  lemma {:induction false} RemoveUnique(ns: seq<Id>, t: Id)
    requires Unique(ns)
    ensures Unique(Remove(ns, t))
    ensures t in ns ==> |Remove(ns, t)| == |ns| - 1
    ensures t !in ns ==> Remove(ns, t) == ns
  {
    if ns != [] {
      assert ns == [ns[0]] + ns[1..];
      RemoveUnique(ns[1..], t);
      assert ns[0] !in ns[1..];
    }
  }

  // ----- phase one -----

  /** Some edge still to be emitted copies from t. */
  predicate IsSource(from: map<Id, Id>, left: seq<Id>, t: Id) {
    exists d | d in left :: d in from && from[d] == t
  }

  /** from is the parallel copy, left the destinations not yet emitted: emitted destinations hold
      their source's old value, everything else below limit is untouched, and no source of what
      is left has been overwritten. */
  ghost predicate Halfway(from: map<Id, Id>, left: seq<Id>, moves: seq<Move>, limit: Id) {
    && Unique(left)
    && (forall d | d in left :: d in from)
    && (forall d | d in from :: d < limit && from[d] < limit)
    && (forall d | d in from && d !in left :: Origin(moves, d) == from[d])
    && (forall t: Id | t < limit && (t in left || t !in from) :: Origin(moves, t) == t)
    && (forall d | d in left && from[d] in from :: from[d] in left)
    && |moves| + |left| == |from|
  }

  lemma EmitLeaf(from: map<Id, Id>, left: seq<Id>, moves: seq<Move>, limit: Id, d: Id)
    requires Halfway(from, left, moves, limit) && d in left && !IsSource(from, left, d)
    ensures Halfway(from, Remove(left, d), moves + [Move(d, from[d])], limit)
  {
    RemoveUnique(left, d);
    forall t: Id
      ensures Origin(moves + [Move(d, from[d])], t) == Origin(moves, if t == d then from[d] else t)
    {
      OriginSnoc(moves, Move(d, from[d]), t);
    }
  }

  /** Every remaining destination is also a remaining source. */
  ghost predicate Stalled(from: map<Id, Id>, left: seq<Id>) {
    forall d {:trigger IsSource(from, left, d)} | d in left :: IsSource(from, left, d)
  }

  /** The nodes list holds every remaining source, and only remaining sources and destinations. */
  ghost predicate NodesOk(from: map<Id, Id>, left: seq<Id>, nodes: seq<Id>) {
    && Unique(nodes)
    && (forall t | t in nodes :: t in left || IsSource(from, left, t))
    && (forall d {:trigger from[d]} | d in left && d in from :: from[d] in nodes)
  }

  /** The node lists after an edge has gone. */
  function DropNodes(from: map<Id, Id>, left': seq<Id>, nodes: seq<Id>, d: Id): (r: seq<Id>)
    requires d in from
  {
    var rest := Remove(nodes, d);
    if IsSource(from, left', from[d]) then rest else Remove(rest, from[d])
  }

  lemma DropNodesOk(from: map<Id, Id>, left: seq<Id>, nodes: seq<Id>, d: Id)
    requires Unique(left) && (forall e | e in left :: e in from) && NodesOk(from, left, nodes)
    requires d in left && !IsSource(from, left, d)
    ensures NodesOk(from, Remove(left, d), DropNodes(from, Remove(left, d), nodes, d))
  {
    var left' := Remove(left, d);
    RemoveUnique(nodes, d);
    RemoveUnique(Remove(nodes, d), from[d]);
    forall t | t in DropNodes(from, left', nodes, d)
      ensures t in left' || IsSource(from, left', t)
    {
      if IsSource(from, left, t) && t != from[d] {
        var e :| e in left && from[e] == t;
        assert e in left';
      }
    }
  }

  ghost predicate PhaseOneState(from: map<Id, Id>, left: seq<Id>, nodes: seq<Id>, moves: seq<Move>, limit: Id) {
    Halfway(from, left, moves, limit) && NodesOk(from, left, nodes)
  }

  lemma EmitKeepsState(from: map<Id, Id>, left: seq<Id>, nodes: seq<Id>, moves: seq<Move>, limit: Id, d: Id)
    requires PhaseOneState(from, left, nodes, moves, limit) && d in left && d in from && !IsSource(from, left, d)
    ensures PhaseOneState(from, Remove(left, d), DropNodes(from, Remove(left, d), nodes, d), moves + [Move(d, from[d])],
                          limit)
  {
    EmitLeaf(from, left, moves, limit, d);
    DropNodesOk(from, left, nodes, d);
  }

  lemma LeftIsEdge(from: map<Id, Id>, left: seq<Id>, nodes: seq<Id>, moves: seq<Move>, limit: Id, i: nat)
    requires PhaseOneState(from, left, nodes, moves, limit) && i < |left|
    ensures left[i] in left && left[i] in from && |Remove(left, left[i])| == |left| - 1
    ensures left[i] < limit && from[left[i]] < limit
  {
    assert left[i] in left;
    RemoveUnique(left, left[i]);
  }

  /** One pass over the edges: a move for every leaf, a destination that nothing reads any more. */
  method Pass(from: map<Id, Id>, left0: seq<Id>, nodes0: seq<Id>, moves0: seq<Move>, limit: Id)
    returns (left: seq<Id>, nodes: seq<Id>, moves: seq<Move>, progress: bool)
    requires PhaseOneState(from, left0, nodes0, moves0, limit) && MovesBelow(moves0, limit)
    ensures PhaseOneState(from, left, nodes, moves, limit) && MovesBelow(moves, limit)
    ensures if progress then |left| < |left0| else left == left0 && Stalled(from, left)
  {
    hide PhaseOneState, IsSource, DropNodes, MovesBelow;
    left, nodes, moves, progress := left0, nodes0, moves0, false;
    var i := 0;
    while i < |left|
      invariant i <= |left| <= |left0|
      invariant PhaseOneState(from, left, nodes, moves, limit) && MovesBelow(moves, limit)
      invariant progress ==> |left| < |left0|
      invariant !progress ==> left == left0 && forall j | 0 <= j < i :: IsSource(from, left, left[j])
      decreases |left| - i
    {
      var d := left[i];
      LeftIsEdge(from, left, nodes, moves, limit, i);
      if IsSource(from, left, d) {
        i := i + 1;
      } else {
        EmitKeepsState(from, left, nodes, moves, limit, d);
        PushBelow(moves, Move(d, from[d]), limit, limit);
        moves := moves + [Move(d, from[d])];
        progress := true;
        left := Remove(left, d);
        nodes := DropNodes(from, left, nodes, d);
      }
    }
  }

  /** Passes until one finds no leaf. */
  method PhaseOne(from: map<Id, Id>, edges: seq<Id>, nodes0: seq<Id>, limit: Id)
    returns (left: seq<Id>, nodes: seq<Id>, moves: seq<Move>)
    requires PhaseOneState(from, edges, nodes0, [], limit)
    ensures PhaseOneState(from, left, nodes, moves, limit) && Stalled(from, left) && MovesBelow(moves, limit)
  {
    left, nodes, moves := edges, nodes0, [];
    var progress := true;
    while left != [] && progress
      invariant PhaseOneState(from, left, nodes, moves, limit) && MovesBelow(moves, limit)
      invariant !progress ==> Stalled(from, left)
      decreases |left|, progress
    {
      left, nodes, moves, progress := Pass(from, left, nodes, moves, limit);
    }
  }

  // ----- the stall -----

  ghost function Image(from: map<Id, Id>, ds: set<Id>): (r: set<Id>) {
    set d | d in ds && d in from :: from[d]
  }

  lemma {:induction false} ImageIsSmall(from: map<Id, Id>, ds: set<Id>)
    ensures |Image(from, ds)| <= |ds|
    decreases |ds|
  {
    if ds == {} {
      assert Image(from, ds) == {};
    } else {
      var d :| d in ds;
      ImageIsSmall(from, ds - {d});
      assert Image(from, ds) == Image(from, ds - {d}) + if d in from then {from[d]} else {};
    }
  }

  /** When every remaining destination is still a source, the remaining edges permute the
      remaining destinations: they are disjoint cycles. */
  ghost predicate Permutes(from: map<Id, Id>, ds: set<Id>) {
    && (forall d | d in ds :: d in from)
    && (forall d {:trigger from[d]} | d in ds :: from[d] in ds)
    && (forall d, e {:trigger from[d], from[e]} | d in ds && e in ds && from[d] == from[e] :: d == e)
  }

  lemma StallIsOnto(from: map<Id, Id>, left: seq<Id>)
    requires (forall d | d in left :: d in from) && Stalled(from, left)
    ensures Image(from, Elems(left)) == Elems(left)
  {
    var ds := Elems(left);
    forall d | d in ds
      ensures d in Image(from, ds)
    {
      assert IsSource(from, left, d);
      var e :| e in left && e in from && from[e] == d;
      assert e in ds;
    }
    ImageIsSmall(from, ds);
    SubsetSize(ds, Image(from, ds));
  }

  lemma StallIsPermutation(from: map<Id, Id>, left: seq<Id>)
    requires (forall d | d in left :: d in from) && Stalled(from, left)
    ensures Permutes(from, Elems(left))
  {
    var ds := Elems(left);
    StallIsOnto(from, left);
    var image := Image(from, ds);
    forall d, e | d in ds && e in ds && from[d] == from[e]
      ensures d == e
    {
      OntoIsInjective(from, ds, d, e);
    }
    assert forall d | d in ds :: from[d] in image;
  }

  lemma OntoIsInjective(from: map<Id, Id>, ds: set<Id>, d: Id, e: Id)
    requires |Image(from, ds)| >= |ds| && d in ds && e in ds && d in from && e in from && from[d] == from[e]
    ensures d == e
  {
    if d != e {
      var fewer := ds - {d};
      assert e in fewer;
      assert Image(from, ds) == Image(from, fewer) by {
        assert from[d] in Image(from, fewer);
      }
      ImageIsSmall(from, fewer);
    }
  }

  // ----- phase two -----

  ghost predicate Below(from: map<Id, Id>, limit: Id) {
    forall d {:trigger from[d]} | d in from :: d < limit && from[d] < limit
  }

  /** Everything but undone has its source's old value; undone is untouched. */
  ghost predicate Written(from: map<Id, Id>, undone: set<Id>, moves: seq<Move>, limit: Id) {
    && (forall d {:trigger Origin(moves, d)} | d in from && d !in undone :: Origin(moves, d) == from[d])
    && (forall t: Id {:trigger Origin(moves, t)} | t < limit && (t in undone || t !in from) :: Origin(moves, t) == t)
  }

  lemma WriteOne(from: map<Id, Id>, undone: set<Id>, moves: seq<Move>, limit: Id, d: Id, s: Id)
    requires Written(from, undone, moves, limit) && d in undone && d in from && Origin(moves, s) == from[d]
    ensures Written(from, undone - {d}, moves + [Move(d, s)], limit)
  {
    var m := Move(d, s);
    forall t: Id
      ensures Origin(moves + [m], t) == Origin(moves, if t == d then s else t)
    {
      OriginSnoc(moves, m, t);
    }
  }

  lemma WriteFresh(from: map<Id, Id>, undone: set<Id>, moves: seq<Move>, limit: Id, tmp: Id, s: Id)
    requires Written(from, undone, moves, limit) && Below(from, limit) && tmp >= limit
    ensures Written(from, undone, moves + [Move(tmp, s)], limit)
    ensures Origin(moves + [Move(tmp, s)], tmp) == Origin(moves, s)
  {
    var m := Move(tmp, s);
    forall t: Id
      ensures Origin(moves + [m], t) == Origin(moves, if t == tmp then s else t)
    {
      OriginSnoc(moves, m, t);
    }
    forall d {:trigger Origin(moves + [m], d)} | d in from && d !in undone
      ensures Origin(moves + [m], d) == from[d]
    {
      assert from[d] < limit;
    }
  }

  /** Part way round the cycle of start: seen has been passed and cur is next. */
  ghost predicate InCycle(from: map<Id, Id>, todo: set<Id>, seen: set<Id>, start: Id, cur: Id) {
    && Permutes(from, todo)
    && seen <= todo && cur in todo && cur !in seen && start in seen + {cur}
    && (forall d {:trigger from[d]} | d in seen :: from[d] in seen + {cur})
    && (forall d {:trigger ReadBy(from, seen, d)} | d in seen + {cur} && d != start :: ReadBy(from, seen, d))
  }

  ghost predicate ReadBy(from: map<Id, Id>, seen: set<Id>, d: Id) {
    exists e :: e in seen && e in from && from[e] == d
  }

  /** What has been read in this cycle is read by nothing outside it. */
  lemma ReadOnce(from: map<Id, Id>, todo: set<Id>, seen: set<Id>, start: Id, cur: Id, d: Id)
    requires InCycle(from, todo, seen, start, cur) && d in todo && d in from
    requires from[d] in seen + {cur} && from[d] != start
    ensures d in seen
  {
    var t := from[d];
    assert ReadBy(from, seen, t);
    var e :| e in seen && e in from && from[e] == t;
    assert e == d;
  }

  lemma Advance(from: map<Id, Id>, todo: set<Id>, seen: set<Id>, start: Id, cur: Id)
    requires InCycle(from, todo, seen, start, cur) && cur in from && from[cur] != start
    ensures InCycle(from, todo, seen + {cur}, start, from[cur])
  {
    hide ReadBy;
    var src, seen' := from[cur], seen + {cur};
    if src in seen' {
      ReadOnce(from, todo, seen, start, cur, cur);
    }
    NowRead(from, seen, cur);
    forall d {:trigger ReadBy(from, seen', d)} | d in seen' + {src} && d != start
      ensures ReadBy(from, seen', d)
    {
      if d != src {
        StillRead(from, seen, cur, d);
      }
    }
  }

  lemma NowRead(from: map<Id, Id>, seen: set<Id>, cur: Id)
    requires cur in from
    ensures ReadBy(from, seen + {cur}, from[cur])
  {
    assert cur in seen + {cur};
  }

  lemma StillRead(from: map<Id, Id>, seen: set<Id>, cur: Id, d: Id)
    requires ReadBy(from, seen, d)
    ensures ReadBy(from, seen + {cur}, d)
  {
    var e :| e in seen && e in from && from[e] == d;
    assert e in seen + {cur};
  }

  /** A closed cycle leaves a permutation. */
  lemma Closed(from: map<Id, Id>, todo: set<Id>, seen: set<Id>, start: Id, cur: Id)
    requires InCycle(from, todo, seen, start, cur) && cur in from && from[cur] == start
    ensures Permutes(from, todo - seen - {cur})
  {
    var rest := todo - seen - {cur};
    forall d {:trigger from[d]} | d in rest
      ensures from[d] in rest
    {
      if from[d] in seen + {cur} && from[d] != start {
        ReadOnce(from, todo, seen, start, cur, d);
      }
    }
  }

  lemma CycleFacts(from: map<Id, Id>, todo: set<Id>, seen: set<Id>, moves: seq<Move>, start: Id, cur: Id, limit: Id)
    requires InCycle(from, todo, seen, start, cur) && Below(from, limit) && Written(from, todo - seen, moves, limit)
    ensures cur in from && cur in todo && cur !in seen && cur < limit
    ensures from[cur] in todo - seen ==> Origin(moves, from[cur]) == from[cur]
  {
  }

  lemma NextFacts(from: map<Id, Id>, todo: set<Id>, seen: set<Id>, start: Id, cur: Id)
    requires InCycle(from, todo, seen, start, cur)
    ensures cur in todo - seen
  {
  }

  lemma CycleStarts(from: map<Id, Id>, todo: set<Id>, moves: seq<Move>, limit: Id, start: Id)
    requires Permutes(from, todo) && start in todo && Below(from, limit) && Written(from, todo, moves, limit)
    ensures InCycle(from, todo, {}, start, start) && Origin(moves, start) == start
  {
  }

  predicate NoSelfCopy(from: map<Id, Id>) {
    forall d | d in from :: from[d] != d
  }

  /** No more temporaries than values on cycles, and no more than half as many if no value is copied to itself. */
  predicate FewTemporaries(from: map<Id, Id>, ds: set<Id>, temporaries: nat) {
    temporaries <= |ds| && (NoSelfCopy(from) ==> 2 * temporaries <= |ds|)
  }

  /** One cycle, broken with one temporary. */
  method BreakCycle(from: map<Id, Id>, nodes0: seq<Id>, moves0: seq<Move>, limit: Id, tmp: Id)
    returns (nodes: seq<Id>, moves: seq<Move>)
    requires Unique(nodes0) && nodes0 != [] && Below(from, limit) && tmp >= limit
    requires Permutes(from, Elems(nodes0)) && Written(from, Elems(nodes0), moves0, limit)
    ensures Unique(nodes) && |nodes| < |nodes0|
    ensures Permutes(from, Elems(nodes)) && Written(from, Elems(nodes), moves, limit)
    ensures |moves| == |moves0| + 1 + |nodes0| - |nodes|
    ensures MovesBelow(moves0, tmp) ==> MovesBelow(moves, tmp + 1)
    ensures from[nodes0[0]] != nodes0[0] ==> |nodes| + 2 <= |nodes0|
  {
    hide InCycle, Permutes, Written, Below, Unique;
    var start: Id := nodes0[0];
    ghost var todo := Elems(nodes0);
    ghost var seen: set<Id> := {};
    assert todo - seen == todo;
    WriteFresh(from, todo, moves0, limit, tmp, start);
    CycleStarts(from, todo, moves0, limit, start);
    CycleFacts(from, todo, seen, moves0, start, start, limit);
    nodes, moves := nodes0, moves0 + [Move(tmp, start)];
    var cur: Id := start;
    while from[cur] != start
      invariant InCycle(from, todo, seen, start, cur)
      invariant Written(from, todo - seen, moves, limit) && Origin(moves, tmp) == start
      invariant Unique(nodes) && |nodes| <= |nodes0| && Elems(nodes) == todo - seen
      invariant |moves| == |moves0| + 1 + |nodes0| - |nodes|
      invariant cur in from && cur in nodes && cur < limit
      invariant MovesBelow(moves0, tmp) ==> MovesBelow(moves, tmp + 1)
      invariant cur != start ==> |nodes| < |nodes0|
      decreases |nodes|
    {
      Advance(from, todo, seen, start, cur);
      NextFacts(from, todo, seen + {cur}, start, from[cur]);
      CycleFacts(from, todo, seen, moves, start, cur, limit);
      nodes, moves := AssignOne(from, todo, seen, nodes, moves, limit, cur, from[cur]);
      seen := seen + {cur};
      cur := from[cur];
      CycleFacts(from, todo, seen, moves, start, cur, limit);
    }
    Closed(from, todo, seen, start, cur);
    nodes, moves := AssignOne(from, todo, seen, nodes, moves, limit, cur, tmp);
    assert todo - seen - {cur} == Elems(nodes);
  }

  /** Emits cur <- s and unlinks cur. */
  method AssignOne(from: map<Id, Id>, ghost todo: set<Id>, ghost seen: set<Id>, nodes0: seq<Id>, moves0: seq<Move>,
                   limit: Id, cur: Id, s: Id)
    returns (nodes: seq<Id>, moves: seq<Move>)
    requires Unique(nodes0) && Elems(nodes0) == todo - seen && cur in nodes0 && cur in from && cur < limit
    requires Written(from, todo - seen, moves0, limit) && Origin(moves0, s) == from[cur]
    ensures moves == moves0 + [Move(cur, s)]
    ensures Unique(nodes) && |nodes| == |nodes0| - 1 && Elems(nodes) == todo - (seen + {cur})
    ensures Written(from, todo - (seen + {cur}), moves, limit)
    ensures forall t: Id | t >= limit :: Origin(moves, t) == Origin(moves0, t)
  {
    WriteOne(from, todo - seen, moves0, limit, cur, s);
    assert todo - seen - {cur} == todo - (seen + {cur});
    forall t: Id | t >= limit
      ensures Origin(moves0 + [Move(cur, s)], t) == Origin(moves0, t)
    {
      OriginSnoc(moves0, Move(cur, s), t);
    }
    RemoveUnique(nodes0, cur);
    moves := moves0 + [Move(cur, s)];
    nodes := Remove(nodes0, cur);
  }

  /** Disjoint cycles, one temporary each. */
  method PhaseTwo(from: map<Id, Id>, nodes0: seq<Id>, moves0: seq<Move>, limit: Id, next0: Id)
    returns (moves: seq<Move>, next: Id)
    requires Unique(nodes0) && Below(from, limit) && next0 >= limit
    requires Permutes(from, Elems(nodes0)) && Written(from, Elems(nodes0), moves0, limit)
    ensures Written(from, {}, moves, limit)
    ensures next0 <= next && |moves| == |moves0| + |nodes0| + (next - next0)
    ensures MovesBelow(moves0, next0) ==> MovesBelow(moves, next)
    ensures next - next0 <= |nodes0| && (NoSelfCopy(from) ==> 2 * (next - next0) <= |nodes0|)
  {
    var nodes := nodes0;
    moves, next := moves0, next0;
    while nodes != []
      invariant Unique(nodes) && next0 <= next
      invariant Permutes(from, Elems(nodes)) && Written(from, Elems(nodes), moves, limit)
      invariant |moves| == |moves0| + |nodes0| - |nodes| + (next - next0)
      invariant MovesBelow(moves0, next0) ==> MovesBelow(moves, next)
      invariant next - next0 <= |nodes0| - |nodes|
      invariant NoSelfCopy(from) ==> 2 * (next - next0) <= |nodes0| - |nodes|
      decreases |nodes|
    {
      nodes, moves := BreakCycle(from, nodes, moves, limit, next);
      next := next + 1;
    }
    assert Elems(nodes) == {};
  }

  // ----- the whole edge -----

  predicate DistinctPredecessors(nodes: seq<PhiNode>) {
    forall i, j | 0 <= i < j < |nodes| :: nodes[i].predecessor != nodes[j].predecessor
  }

  /** The phis of a block: every value is defined once, and every phi has one entry for a
      predecessor. */
  predicate PhisOk(phis: seq<Phi>, limit: Id) {
    && (forall i, j | 0 <= i < j < |phis| :: phis[i].ret != phis[j].ret)
    && (forall i | 0 <= i < |phis| :: PhiOk(phis[i], limit))
  }

  predicate PhiOk(phi: Phi, limit: Id) {
    && DistinctPredecessors(phi.nodes)
    && phi.ret < limit
    && (forall j | 0 <= j < |phi.nodes| :: phi.nodes[j].value < limit)
  }

  /** The value phi takes when control comes from predecessor; a phi without an entry keeps
      what it has. */
  function Incoming(phi: Phi, predecessor: nat): (r: Id) {
    IncomingIn(phi.nodes, predecessor, phi.ret)
  }

  function IncomingIn(nodes: seq<PhiNode>, predecessor: nat, default: Id): (r: Id) {
    if nodes == [] then default
    else if nodes[0].predecessor == predecessor then nodes[0].value
    else IncomingIn(nodes[1..], predecessor, default)
  }

  lemma {:induction false} IncomingIs(nodes: seq<PhiNode>, predecessor: nat, default: Id, j: nat)
    requires DistinctPredecessors(nodes) && j < |nodes| && nodes[j].predecessor == predecessor
    ensures IncomingIn(nodes, predecessor, default) == nodes[j].value
  {
    if j > 0 {
      IncomingIs(nodes[1..], predecessor, default, j - 1);
    }
  }

  lemma {:induction false} IncomingDefault(nodes: seq<PhiNode>, predecessor: nat, default: Id)
    requires forall j | 0 <= j < |nodes| && nodes[j].predecessor == predecessor :: nodes[j].value == default
    ensures IncomingIn(nodes, predecessor, default) == default
  {
    if nodes != [] {
      IncomingDefault(nodes[1..], predecessor, default);
    }
  }

  /** from is the parallel copy that the first k phis ask for. */
  ghost predicate Gathered(phis: seq<Phi>, predecessor: nat, k: nat, from: map<Id, Id>)
    requires k <= |phis|
  {
    && (forall i | 0 <= i < k :: phis[i].ret in from <==> Incoming(phis[i], predecessor) != phis[i].ret)
    && (forall i | 0 <= i < k && phis[i].ret in from :: from[phis[i].ret] == Incoming(phis[i], predecessor))
    && (forall d | d in from :: exists i :: 0 <= i < k && phis[i].ret == d)
  }

  function AddNode(nodes: seq<Id>, t: Id): (r: seq<Id>) {
    if t in nodes then nodes else [t] + nodes
  }

  ghost predicate EdgesOk(from: map<Id, Id>, edges: seq<Id>) {
    Unique(edges) && (forall d :: d in edges <==> d in from) && |edges| == |from|
  }

  lemma AddEdgeKeys(from: map<Id, Id>, edges: seq<Id>, d: Id, s: Id)
    requires EdgesOk(from, edges) && d !in from
    ensures EdgesOk(from[d := s], [d] + edges)
  {
    assert from[d := s].Keys == from.Keys + {d};
  }

  ghost predicate ListsOk(from: map<Id, Id>, edges: seq<Id>, nodes: seq<Id>, limit: Id) {
    && EdgesOk(from, edges)
    && Below(from, limit)
    && NodesOk(from, edges, nodes)
    && forall d | d in edges :: d in nodes
  }

  lemma AddEdgeOk(from: map<Id, Id>, edges: seq<Id>, nodes: seq<Id>, limit: Id, d: Id, s: Id)
    requires ListsOk(from, edges, nodes, limit) && d !in from && d < limit && s < limit
    ensures ListsOk(from[d := s], [d] + edges, AddNode(AddNode(nodes, d), s), limit)
  {
    AddNodesOk(from, edges, nodes, d, s);
    AddEdgeKeys(from, edges, d, s);
    assert Below(from[d := s], limit);
  }

  lemma AddNodesOk(from: map<Id, Id>, edges: seq<Id>, nodes: seq<Id>, d: Id, s: Id)
    requires NodesOk(from, edges, nodes) && d !in from
    ensures NodesOk(from[d := s], [d] + edges, AddNode(AddNode(nodes, d), s))
  {
    var from', edges', nodes' := from[d := s], [d] + edges, AddNode(AddNode(nodes, d), s);
    assert d in edges' && from'[d] == s && IsSource(from', edges', s);
    forall t | t in nodes && IsSource(from, edges, t)
      ensures IsSource(from', edges', t)
    {
      var e :| e in edges && e in from && from[e] == t;
      assert e in edges' && from'[e] == t;
    }
  }

  lemma GatheredStep(phis: seq<Phi>, predecessor: nat, limit: Id, k: nat, from: map<Id, Id>, from': map<Id, Id>)
    requires PhisOk(phis, limit) && k < |phis| && Gathered(phis, predecessor, k, from)
    requires from' ==
              if Incoming(phis[k], predecessor) != phis[k].ret then from[phis[k].ret := Incoming(phis[k], predecessor)]
              else from
    ensures phis[k].ret !in from && Gathered(phis, predecessor, k + 1, from')
  {
  }

  /** The parallel copy and the two work lists that stand for it. */
  datatype CopyGraph = CopyGraph(from: map<Id, Id>, edges: seq<Id>, nodes: seq<Id>)

  /** The first k entries of a phi. */
  function GatherEntries(phi: Phi, predecessor: nat, k: nat, g: CopyGraph): (r: CopyGraph)
    requires k <= |phi.nodes|
  {
    if k == 0 then g
    else
      var before, node := GatherEntries(phi, predecessor, k - 1, g), phi.nodes[k - 1];
      if node.predecessor == predecessor && phi.ret != node.value then
        CopyGraph(before.from[phi.ret := node.value], [phi.ret] + before.edges,
                  AddNode(AddNode(before.nodes, phi.ret), node.value))
      else before
  }

  /** The first k phis of a block. */
  function GatherPhis(phis: seq<Phi>, predecessor: nat, k: nat): (r: CopyGraph)
    requires k <= |phis|
  {
    if k == 0 then CopyGraph(map[], [], [])
    else GatherEntries(phis[k - 1], predecessor, |phis[k - 1].nodes|, GatherPhis(phis, predecessor, k - 1))
  }

  ghost predicate GraphOk(g: CopyGraph, limit: Id) {
    ListsOk(g.from, g.edges, g.nodes, limit)
  }

  /** At most one of the first k entries adds an edge. */
  lemma {:induction false} EntriesOk(phi: Phi, predecessor: nat, k: nat, g: CopyGraph, limit: Id)
    requires PhiOk(phi, limit) && phi.ret !in g.from && GraphOk(g, limit) && k <= |phi.nodes|
    ensures var r := GatherEntries(phi, predecessor, k, g);
      && GraphOk(r, limit)
      && (r.from == g.from ==>
          forall i | 0 <= i < k && phi.nodes[i].predecessor == predecessor :: phi.nodes[i].value == phi.ret)
      && (r.from != g.from ==>
          exists i :: 0 <= i < k && phi.nodes[i].predecessor == predecessor && phi.nodes[i].value != phi.ret
                                           && r.from == g.from[phi.ret := phi.nodes[i].value])
    decreases k
  {
    hide GraphOk;
    if k > 0 {
      EntriesOk(phi, predecessor, k - 1, g, limit);
      var before, node := GatherEntries(phi, predecessor, k - 1, g), phi.nodes[k - 1];
      if node.predecessor == predecessor && phi.ret != node.value {
        assert phi.ret !in before.from;
        EntryOk(before, phi.ret, node.value, limit);
      }
    }
  }

  lemma EntryOk(g: CopyGraph, d: Id, s: Id, limit: Id)
    requires GraphOk(g, limit) && d !in g.from && d < limit && s < limit
    ensures GraphOk(CopyGraph(g.from[d := s], [d] + g.edges, AddNode(AddNode(g.nodes, d), s)), limit)
  {
    AddEdgeOk(g.from, g.edges, g.nodes, limit, d, s);
  }

  /** The entries of one phi. */
  lemma PhiGathered(phi: Phi, predecessor: nat, g: CopyGraph, limit: Id)
    requires PhiOk(phi, limit) && phi.ret !in g.from && GraphOk(g, limit)
    ensures var r := GatherEntries(phi, predecessor, |phi.nodes|, g);
      && GraphOk(r, limit)
      && r.from == if Incoming(phi, predecessor) != phi.ret then g.from[phi.ret := Incoming(phi, predecessor)]
        else g.from
  {
    hide GraphOk, GatherEntries;
    var r := GatherEntries(phi, predecessor, |phi.nodes|, g);
    EntriesOk(phi, predecessor, |phi.nodes|, g, limit);
    if r.from == g.from {
      IncomingDefault(phi.nodes, predecessor, phi.ret);
    } else {
      var i :| 0 <= i < |phi.nodes| && phi.nodes[i].predecessor == predecessor && phi.nodes[i].value != phi.ret
               && r.from == g.from[phi.ret := phi.nodes[i].value];
      IncomingIs(phi.nodes, predecessor, phi.ret, i);
    }
  }

  lemma {:induction false} PhisGathered(phis: seq<Phi>, predecessor: nat, k: nat, limit: Id)
    requires PhisOk(phis, limit) && k <= |phis|
    ensures GraphOk(GatherPhis(phis, predecessor, k), limit)
    ensures Gathered(phis, predecessor, k, GatherPhis(phis, predecessor, k).from)
    decreases k
  {
    hide GatherEntries, Gathered, Incoming;
    if k == 0 {
      NothingGathered(phis, predecessor, limit);
    } else {
      PhisGathered(phis, predecessor, k - 1, limit);
      var before := GatherPhis(phis, predecessor, k - 1);
      var from := if Incoming(phis[k - 1], predecessor) != phis[k - 1].ret
                  then before.from[phis[k - 1].ret := Incoming(phis[k - 1], predecessor)] else before.from;
      GatheredStep(phis, predecessor, limit, k - 1, before.from, from);
      PhiGathered(phis[k - 1], predecessor, before, limit);
    }
  }

  lemma NothingGathered(phis: seq<Phi>, predecessor: nat, limit: Id)
    ensures GraphOk(CopyGraph(map[], [], []), limit) && Gathered(phis, predecessor, 0, map[])
  {
  }

  /** The inner loop over the entries of one phi. */
  method GatherPhi(phi: Phi, predecessor: nat, g0: CopyGraph) returns (g: CopyGraph)
    ensures g == GatherEntries(phi, predecessor, |phi.nodes|, g0)
  {
    g := g0;
    for j := 0 to |phi.nodes|
      invariant g == GatherEntries(phi, predecessor, j, g0)
    {
      var node := phi.nodes[j];
      if node.predecessor == predecessor && phi.ret != node.value {
        var nodes := AddNode(AddNode(g.nodes, phi.ret), node.value);
        g := CopyGraph(g.from[phi.ret := node.value], [phi.ret] + g.edges, nodes);
      }
    }
  }

  /** The parallel copy of a block's phis for one predecessor, as the two work lists. */
  method Gather(phis: seq<Phi>, predecessor: nat, limit: Id) returns (g: CopyGraph)
    requires PhisOk(phis, limit)
    ensures g == GatherPhis(phis, predecessor, |phis|)
    ensures GraphOk(g, limit) && Gathered(phis, predecessor, |phis|, g.from)
  {
    g := CopyGraph(map[], [], []);
    for k := 0 to |phis|
      invariant g == GatherPhis(phis, predecessor, k)
    {
      g := GatherPhi(phis[k], predecessor, g);
    }
    PhisGathered(phis, predecessor, |phis|, limit);
  }

  /** The two phases: a parallel copy becomes a list of moves. */
  method Sequentialise(from: map<Id, Id>, edges: seq<Id>, nodes: seq<Id>, limit: Id, next0: Id)
    returns (moves: seq<Move>, next: Id)
    requires ListsOk(from, edges, nodes, limit) && next0 >= limit
    ensures forall d {:trigger Origin(moves, d)} | d in from :: Origin(moves, d) == from[d]
    ensures forall t: Id {:trigger Origin(moves, t)} | t < limit && t !in from :: Origin(moves, t) == t
    ensures next0 <= next && |moves| == |from| + (next - next0) && MovesBelow(moves, next)
    ensures exists ds: set<Id> :: Permutes(from, ds) && FewTemporaries(from, ds, next - next0)
  {
    hide Permutes, NoSelfCopy, PhaseOneState, Stalled, Written, Below, MovesBelow, Unique, ListsOk, Elems;
    NothingEmitted(from, edges, nodes, limit);
    var left, rest, first := PhaseOne(from, edges, nodes, limit);
    AfterStall(from, left, rest, first, limit);
    BelowMore(first, limit, next0);
    moves, next := PhaseTwo(from, rest, first, limit, next0);
    AllAreWritten(from, moves, limit);
    assert FewTemporaries(from, Elems(left), next - next0);
  }

  lemma NothingEmitted(from: map<Id, Id>, edges: seq<Id>, nodes: seq<Id>, limit: Id)
    requires ListsOk(from, edges, nodes, limit)
    ensures PhaseOneState(from, edges, nodes, [], limit)
  {
  }

  lemma AfterStall(from: map<Id, Id>, left: seq<Id>, nodes: seq<Id>, moves: seq<Move>, limit: Id)
    requires PhaseOneState(from, left, nodes, moves, limit) && Stalled(from, left)
    ensures Permutes(from, Elems(left)) && Elems(nodes) == Elems(left) && |nodes| == |left| == |Elems(left)|
    ensures Unique(nodes) && Below(from, limit) && Written(from, Elems(nodes), moves, limit)
    ensures |moves| + |left| == |from|
  {
    hide Permutes, Stalled, Halfway, NodesOk, Written, Below, Unique, Elems;
    HalfwayIs(from, left, moves, limit);
    StallIsPermutation(from, left);
    StallIsOnto(from, left);
    NodesAreLeft(from, left, nodes);
    UniqueSize(left);
    NodesUnique(from, left, nodes);
  }

  lemma NodesUnique(from: map<Id, Id>, left: seq<Id>, nodes: seq<Id>)
    requires NodesOk(from, left, nodes)
    ensures Unique(nodes)
  {
  }

  lemma HalfwayIs(from: map<Id, Id>, left: seq<Id>, moves: seq<Move>, limit: Id)
    requires Halfway(from, left, moves, limit)
    ensures Unique(left) && (forall d | d in left :: d in from) && Below(from, limit)
    ensures Written(from, Elems(left), moves, limit) && |moves| + |left| == |from|
  {
  }

  lemma BelowMore(moves: seq<Move>, limit: Id, limit': Id)
    requires MovesBelow(moves, limit) && limit <= limit'
    ensures MovesBelow(moves, limit')
  {
  }

  lemma AllAreWritten(from: map<Id, Id>, moves: seq<Move>, limit: Id)
    requires Written(from, {}, moves, limit)
    ensures forall d {:trigger Origin(moves, d)} | d in from :: Origin(moves, d) == from[d]
    ensures forall t: Id {:trigger Origin(moves, t)} | t < limit && t !in from :: Origin(moves, t) == t
  {
  }

  /** After the stall the nodes that are left are exactly the destinations that are left. */
  lemma NodesAreLeft(from: map<Id, Id>, left: seq<Id>, nodes: seq<Id>)
    requires (forall d | d in left :: d in from) && Unique(left) && Stalled(from, left) && NodesOk(from, left, nodes)
    requires Permutes(from, Elems(left))
    ensures Elems(nodes) == Elems(left) && |nodes| == |left|
  {
    hide IsSource, Unique;
    forall d | d in left
      ensures d in nodes
    {
      assert IsSource(from, left, d);
      SourceIsNode(from, left, nodes, d);
    }
    forall t | t in nodes
      ensures t in left
    {
      NodeIsLeft(from, left, nodes, t);
    }
    assert Elems(nodes) == Elems(left);
    ListSizes(from, left, nodes);
  }

  lemma SourceIsNode(from: map<Id, Id>, left: seq<Id>, nodes: seq<Id>, d: Id)
    requires NodesOk(from, left, nodes) && IsSource(from, left, d)
    ensures d in nodes
  {
  }

  lemma NodeIsLeft(from: map<Id, Id>, left: seq<Id>, nodes: seq<Id>, t: Id)
    requires NodesOk(from, left, nodes) && Permutes(from, Elems(left)) && t in nodes
    ensures t in left
  {
    if IsSource(from, left, t) {
      var e :| e in left && e in from && from[e] == t;
      assert e in Elems(left);
    }
  }

  lemma ListSizes(from: map<Id, Id>, left: seq<Id>, nodes: seq<Id>)
    requires Unique(left) && NodesOk(from, left, nodes)
    ensures |Elems(left)| == |left| && |Elems(nodes)| == |nodes|
  {
    UniqueSize(left);
    UniqueSize(nodes);
  }

  lemma {:induction false} UniqueSize(ns: seq<Id>)
    requires Unique(ns)
    ensures |Elems(ns)| == |ns|
  {
    if ns == [] {
      assert Elems(ns) == {};
    } else {
      UniqueSize(ns[1..]);
      assert ns == [ns[0]] + ns[1..] && ns[0] !in ns[1..];
      assert Elems(ns) == Elems(ns[1..]) + {ns[0]};
    }
  }

  /** exit_ssa_edge: the moves that go before the last instruction of the predecessor.  They give
      every phi the value its source had, and change nothing else below limit. */
  method ExitSsaEdge(phis: seq<Phi>, predecessor: nat, limit: Id, next0: Id)
    returns (moves: seq<Move>, next: Id)
    requires PhisOk(phis, limit) && next0 >= limit
    ensures forall i | 0 <= i < |phis| :: Origin(moves, phis[i].ret) == Incoming(phis[i], predecessor)
    ensures forall t: Id | t < limit && (forall i | 0 <= i < |phis| :: phis[i].ret != t) :: Origin(moves, t) == t
    ensures next0 <= next && MovesBelow(moves, next)
    ensures phis == [] ==> moves == []
  {
    var g := Gather(phis, predecessor, limit);
    var from, edges, nodes := g.from, g.edges, g.nodes;
    if edges == [] {
      assert forall t: Id :: Origin([], t) == t;
      moves, next := [], next0;
    } else {
      moves, next := Sequentialise(from, edges, nodes, limit, next0);
    }
    forall i | 0 <= i < |phis|
      ensures Origin(moves, phis[i].ret) == Incoming(phis[i], predecessor)
    {
      assert PhiOk(phis[i], limit);
    }
  }
}
