/** exit_ssa_edge on its intrusive node list.  A node in the middle of a chain of copies is unlinked
    twice; the second time its stale neighbours are linked together, which can bring back a node that
    has been taken out.  ParallelCopy takes nodes out of sets; this says when that is the same. */
module NodeList {
  import opened Basics
  import opened ParallelCopy

  // ----- LIST_HEAD, LIST_INSERT_HEAD and LIST_REMOVE -----

  datatype Ptr = Null | Node(id: Id)

  /** Where a pointer to a node is stored: in the head or in the next field of a node. */
  datatype Slot = Head | NextOf(id: Id)

  datatype Links = Links(first: Ptr, next: map<Id, Ptr>, prev: map<Id, Slot>)

  function Next(l: Links, x: Id): (p: Ptr) {
    if x in l.next then l.next[x] else Null
  }

  function Prev(l: Links, x: Id): (s: Slot) {
    if x in l.prev then l.prev[x] else Head
  }

  function Store(l: Links, s: Slot, p: Ptr): (r: Links) {
    match s
    case Head => l.(first := p)
    case NextOf(x) => l.(next := l.next[x := p])
  }

  /** LIST_REMOVE; the fields of the node itself stay as they are. */
  function Unlink(l: Links, x: Id): (r: Links) {
    var n, p := Next(l, x), Prev(l, x);
    Store(if n.Node? then l.(prev := l.prev[n.id := p]) else l, p, n)
  }

  function InsertHead(l: Links, x: Id): (r: Links) {
    Links(Node(x), l.next[x := l.first], (if l.first.Node? then l.prev[l.first.id := NextOf(x)] else l.prev)[x := Head])
  }

  function ListOf(ns: seq<Id>): (r: Links) {
    if ns == [] then Links(Null, map[], map[]) else InsertHead(ListOf(ns[1..]), ns[0])
  }

  function PtrAt(ns: seq<Id>, k: nat): (p: Ptr) {
    if k < |ns| then Node(ns[k]) else Null
  }

  function SlotAt(ns: seq<Id>, k: nat): (s: Slot)
    requires k < |ns|
  {
    if k == 0 then Head else NextOf(ns[k - 1])
  }

  /** The links represent the sequence. */
  ghost predicate IsList(l: Links, ns: seq<Id>) {
    && Unique(ns) && l.first == PtrAt(ns, 0)
    && forall k | 0 <= k < |ns| :: Next(l, ns[k]) == PtrAt(ns, k + 1) && Prev(l, ns[k]) == SlotAt(ns, k)
  }

  lemma {:induction false} ListOfIs(ns: seq<Id>)
    requires Unique(ns)
    ensures IsList(ListOf(ns), ns)
  {
    if ns != [] {
      var l, rest := ListOf(ns[1..]), ns[1..];
      ListOfIs(rest);
      var r := InsertHead(l, ns[0]);
      forall k | 0 <= k < |ns|
        ensures Next(r, ns[k]) == PtrAt(ns, k + 1) && Prev(r, ns[k]) == SlotAt(ns, k)
      {
        assert k > 0 ==> ns[k] == rest[k - 1] && ns[k] != ns[0];
      }
    }
  }

  lemma {:induction false} RemoveAt(ns: seq<Id>, k: nat)
    requires Unique(ns) && k < |ns|
    ensures Remove(ns, ns[k]) == ns[..k] + ns[k + 1..]
  {
    assert ns == [ns[0]] + ns[1..];
    if k == 0 {
      RemoveUnique(ns[1..], ns[0]);
    } else {
      RemoveAt(ns[1..], k - 1);
    }
  }

  /** Only the fields next to the node change. */
  lemma UnlinkFields(l: Links, ns: seq<Id>, k: nat)
    requires IsList(l, ns) && k < |ns|
    ensures var r := Unlink(l, ns[k]);
      && r.first == (if k == 0 then PtrAt(ns, 1) else l.first)
      && (forall y :: Next(r, y) == if k > 0 && y == ns[k - 1] then PtrAt(ns, k + 1) else Next(l, y))
      && (forall y :: Prev(r, y) == if k + 1 < |ns| && y == ns[k + 1] then SlotAt(ns, k) else Prev(l, y))
  {
    assert Next(l, ns[k]) == PtrAt(ns, k + 1) && Prev(l, ns[k]) == SlotAt(ns, k);
  }

  /** Unlinking a node that is in the list. */
  lemma UnlinkMember(l: Links, ns: seq<Id>, x: Id)
    requires IsList(l, ns) && x in ns
    ensures IsList(Unlink(l, x), Remove(ns, x))
  {
    hide Unlink, Next, Prev, Remove;
    var k :| 0 <= k < |ns| && ns[k] == x;
    UnlinkFields(l, ns, k);
    RemoveAt(ns, k);
    RemoveUnique(ns, x);
    var rest := Remove(ns, x);
    forall j | 0 <= j < |rest|
      ensures Next(Unlink(l, x), rest[j]) == PtrAt(rest, j + 1) && Prev(Unlink(l, x), rest[j]) == SlotAt(rest, j)
    {
      UnlinkNext(l, ns, k, j, rest);
      UnlinkPrev(l, ns, k, j, rest);
    }
  }

  lemma UnlinkNext(l: Links, ns: seq<Id>, k: nat, j: nat, rest: seq<Id>)
    requires IsList(l, ns) && k < |ns| && rest == ns[..k] + ns[k + 1..] && j < |rest|
    ensures Next(Unlink(l, ns[k]), rest[j]) == PtrAt(rest, j + 1)
  {
    hide Unlink, Next, Prev;
    UnlinkFields(l, ns, k);
    var i := if j < k then j else j + 1;
    assert rest[j] == ns[i] && Next(l, ns[i]) == PtrAt(ns, i + 1);
  }

  lemma UnlinkPrev(l: Links, ns: seq<Id>, k: nat, j: nat, rest: seq<Id>)
    requires IsList(l, ns) && k < |ns| && rest == ns[..k] + ns[k + 1..] && j < |rest|
    ensures Prev(Unlink(l, ns[k]), rest[j]) == SlotAt(rest, j)
  {
    hide Unlink, Next, Prev;
    UnlinkFields(l, ns, k);
    var i := if j < k then j else j + 1;
    assert rest[j] == ns[i] && Prev(l, ns[i]) == SlotAt(ns, i);
  }

  // ----- exit_ssa_edge as it works on the list -----

  /** The edges that are left, in list order, the node list, and the moves so far. */
  datatype Work = Work(left: seq<Id>, list: Links, moves: seq<Move>)

  function EmitLeafOnList(from: map<Id, Id>, w: Work, d: Id): (r: Work)
    requires d in from
  {
    var left, list := Remove(w.left, d), Unlink(w.list, d);
    Work(left, if IsSource(from, left, from[d]) then list else Unlink(list, from[d]), w.moves + [Move(d, from[d])])
  }

  /** One pass over the edges, from the i-th on. */
  function Sweep(from: map<Id, Id>, w: Work, i: nat): (r: Work)
    ensures |r.left| <= |w.left|
    decreases |w.left| - i
  {
    if i >= |w.left| then w
    else
      var d := w.left[i];
      if d in from && !IsSource(from, w.left, d) then
        assert d in w.left;
        Sweep(from, EmitLeafOnList(from, w, d), i)
      else Sweep(from, w, i + 1)
  }

  function Sweeps(from: map<Id, Id>, w: Work): (r: Work)
    ensures |r.left| <= |w.left|
    decreases |w.left|
  {
    var w' := Sweep(from, w, 0);
    if w'.left == [] || |w'.left| == |w.left| then w' else Sweeps(from, w')
  }

  /** Once round a cycle: the list and the moves after it.  A node without an incoming copy has no
      pln_dst.  With too little fuel it is not known how it goes on. */
  datatype Round = Round(list: Links, moves: seq<Move>) | NoDst | NoFuel

  function Cycle(from: map<Id, Id>, list: Links, moves: seq<Move>, start: Id, cur: Id, tmp: Id, fuel: nat): (r: Round)
    decreases fuel
  {
    if cur !in from then NoDst
    else
      var src := from[cur];
      if src == start then Round(Unlink(list, cur), moves + [Move(cur, tmp)])
      else if fuel == 0 then NoFuel
      else Cycle(from, Unlink(list, cur), moves + [Move(cur, src)], start, src, tmp, fuel - 1)
  }

  datatype Outcome = Moves(moves: seq<Move>) | NullPointer | Unfinished

  function Cycles(from: map<Id, Id>, list: Links, moves: seq<Move>, next: Id, fuel: nat): (r: Outcome)
    decreases fuel
  {
    match list.first
    case Null => Moves(moves)
    case Node(start) =>
      if fuel == 0 then Unfinished
      else
        match Cycle(from, list, moves + [Move(next, start)], start, start, next, fuel)
        case Round(list', moves') => Cycles(from, list', moves', next + 1, fuel - 1)
        case NoDst => NullPointer
        case NoFuel => Unfinished
  }

  function ListMoves(from: map<Id, Id>, edges: seq<Id>, list: Links, next: Id, fuel: nat): (r: Outcome) {
    var w := Sweeps(from, Work(edges, list, []));
    if w.left == [] then Moves(w.moves) else Cycles(from, w.list, w.moves, next, fuel)
  }

  // ----- when no node is unlinked twice to any effect -----

  /** d lies on a cycle of copies: it belongs to a finite set of destinations each of which is copied
      within the set. */
  ghost predicate Cyclic(from: map<Id, Id>, d: Id) {
    exists ds: set<Id> :: d in ds && Ring(from, ds)
  }

  ghost predicate Ring(from: map<Id, Id>, ds: set<Id>) {
    forall d {:trigger ReadBy(from, ds, d)} | d in ds :: d in from && ReadBy(from, ds, d)
  }

  /** There is no cycle, so that the node list is not looked at; or every value that is both a
      destination and a source is on a cycle, so that no node is unlinked twice. */
  ghost predicate ListsAreSets(from: map<Id, Id>) {
    (forall d :: !Cyclic(from, d)) || NoChains(from)
  }

  ghost predicate NoChains(from: map<Id, Id>) {
    forall e {:trigger from[e]} | e in from && from[e] in from :: Cyclic(from, from[e])
  }

  /** The list holds the nodes, every destination that is left is among them, and all cycles are left. */
  ghost predicate ListState(from: map<Id, Id>, left: seq<Id>, list: Links, nodes: seq<Id>) {
    && IsList(list, nodes) && NodesOk(from, left, nodes)
    && (forall d | d in left :: d in nodes)
    && CyclesLeft(from, left)
  }

  ghost predicate CyclesLeft(from: map<Id, Id>, left: seq<Id>) {
    forall d | Cyclic(from, d) :: d in left
  }

  lemma CyclicIsSource(from: map<Id, Id>, left: seq<Id>, d: Id)
    requires CyclesLeft(from, left) && Cyclic(from, d)
    ensures IsSource(from, left, d)
  {
    var ds :| d in ds && Ring(from, ds);
    assert ReadBy(from, ds, d);
    var e :| e in ds && e in from && from[e] == d;
    assert Cyclic(from, e);
  }

  lemma LeafCyclesLeft(from: map<Id, Id>, left: seq<Id>, d: Id)
    requires CyclesLeft(from, left) && !IsSource(from, left, d)
    ensures CyclesLeft(from, Remove(left, d))
  {
    forall e | Cyclic(from, e)
      ensures e in Remove(left, d)
    {
      CyclicIsSource(from, left, e);
    }
  }

  /** A leaf is in the list, and so is its source if it is unlinked. */
  lemma LeafKeepsList(from: map<Id, Id>, w: Work, nodes: seq<Id>, d: Id)
    requires NoChains(from) && Unique(w.left) && (forall e | e in w.left :: e in from)
    requires ListState(from, w.left, w.list, nodes) && d in w.left && !IsSource(from, w.left, d)
    ensures var r := EmitLeafOnList(from, w, d); ListState(from, r.left, r.list, DropNodes(from, r.left, nodes, d))
  {
    hide IsList, NodesOk, Unlink, CyclesLeft, Cyclic, Unique;
    var left, s := Remove(w.left, d), from[d];
    LeafCyclesLeft(from, w.left, d);
    DropNodesOk(from, w.left, nodes, d);
    SourceListed(from, w.left, nodes, d);
    UnlinkMember(w.list, nodes, d);
    if !IsSource(from, left, s) {
      UnlinkMember(Unlink(w.list, d), Remove(nodes, d), s);
      if s in from {
        CyclicIsSource(from, left, s);
      }
    }
  }

  lemma SourceListed(from: map<Id, Id>, left: seq<Id>, nodes: seq<Id>, d: Id)
    requires NodesOk(from, left, nodes) && d in left && d in from && !IsSource(from, left, d)
    ensures from[d] in nodes && from[d] != d
  {
  }

  // ----- phase one -----

  /** What holds of the work so far; nodes is what the list holds, if it is still good. */
  ghost predicate WorkOk(from: map<Id, Id>, w: Work, nodes: seq<Id>, limit: Id) {
    Halfway(from, w.left, w.moves, limit) && (NoChains(from) ==> ListState(from, w.left, w.list, nodes))
  }

  lemma {:induction false} SweepKeeps(from: map<Id, Id>, w: Work, nodes: seq<Id>, limit: Id, i: nat)
      returns (nodes': seq<Id>)
    requires WorkOk(from, w, nodes, limit)
    ensures WorkOk(from, Sweep(from, w, i), nodes', limit)
    decreases |w.left| - i
  {
    hide IsSource, ListState, NoChains;
    nodes' := nodes;
    if i < |w.left| {
      var d := w.left[i];
      assert d in w.left && d in from;
      if IsSource(from, w.left, d) {
        nodes' := SweepKeeps(from, w, nodes, limit, i + 1);
      } else {
        var r := EmitLeafOnList(from, w, d);
        EmitLeaf(from, w.left, w.moves, limit, d);
        if NoChains(from) {
          LeafKeepsList(from, w, nodes, d);
        }
        nodes' := SweepKeeps(from, r, DropNodes(from, r.left, nodes, d), limit, i);
      }
    }
  }

  /** A pass without a move means that every destination that is left is also a source. */
  lemma {:induction false} SweepStalls(from: map<Id, Id>, w: Work, i: nat)
    requires (forall d | d in w.left :: d in from) && forall j | 0 <= j < i && j < |w.left| ::
              IsSource(from, w.left, w.left[j])
    ensures |Sweep(from, w, i).left| == |w.left| ==> Stalled(from, w.left) && Sweep(from, w, i) == w
    decreases |w.left| - i
  {
    hide IsSource;
    if i < |w.left| && IsSource(from, w.left, w.left[i]) {
      SweepStalls(from, w, i + 1);
    }
  }

  lemma {:induction false} SweepsKeep(from: map<Id, Id>, w: Work, nodes: seq<Id>, limit: Id) returns (nodes': seq<Id>)
    requires WorkOk(from, w, nodes, limit)
    ensures WorkOk(from, Sweeps(from, w), nodes', limit) && Stalled(from, Sweeps(from, w).left)
    decreases |w.left|
  {
    hide IsSource, ListState, NoChains, Sweep;
    nodes' := SweepKeeps(from, w, nodes, limit, 0);
    SweepStalls(from, w, 0);
    var w' := Sweep(from, w, 0);
    if w'.left != [] && |w'.left| != |w.left| {
      nodes' := SweepsKeep(from, w', nodes', limit);
    }
  }

  // ----- phase two -----

  lemma Assigned(from: map<Id, Id>, todo: set<Id>, seen: set<Id>, list: Links, nodes: seq<Id>, moves: seq<Move>,
                 limit: Id, cur: Id, s: Id)
    requires IsList(list, nodes) && Elems(nodes) == todo - seen && cur in nodes && cur in from && cur < limit
    requires Written(from, todo - seen, moves, limit) && Origin(moves, s) == from[cur]
    ensures IsList(Unlink(list, cur), Remove(nodes, cur)) && |Remove(nodes, cur)| == |nodes| - 1
    ensures Elems(Remove(nodes, cur)) == todo - (seen + {cur})
    ensures Written(from, todo - (seen + {cur}), moves + [Move(cur, s)], limit)
    ensures forall t: Id | t >= limit :: Origin(moves + [Move(cur, s)], t) == Origin(moves, t)
  {
    UnlinkMember(list, nodes, cur);
    RemoveUnique(nodes, cur);
    WriteOne(from, todo - seen, moves, limit, cur, s);
    assert todo - seen - {cur} == todo - (seen + {cur});
    forall t: Id | t >= limit
      ensures Origin(moves + [Move(cur, s)], t) == Origin(moves, t)
    {
      OriginSnoc(moves, Move(cur, s), t);
    }
  }

  /** Part way round a cycle: the list holds exactly what is not yet written. */
  ghost predicate CycleState(from: map<Id, Id>, todo: set<Id>, seen: set<Id>, list: Links, nodes: seq<Id>,
                             moves: seq<Move>,
                             start: Id, cur: Id, tmp: Id, limit: Id) {
    && InCycle(from, todo, seen, start, cur) && Below(from, limit) && tmp >= limit
    && Written(from, todo - seen, moves, limit) && Origin(moves, tmp) == start
    && IsList(list, nodes) && Elems(nodes) == todo - seen
  }

  lemma CycleOn(from: map<Id, Id>, todo: set<Id>, seen: set<Id>, list: Links, nodes: seq<Id>, moves: seq<Move>,
                start: Id, cur: Id, tmp: Id, limit: Id)
    requires CycleState(from, todo, seen, list, nodes, moves, start, cur, tmp, limit) && cur in from
              && from[cur] != start
    ensures CycleState(from, todo, seen + {cur}, Unlink(list, cur), Remove(nodes, cur), moves + [Move(cur, from[cur])],
                       start, from[cur], tmp, limit)
    ensures 1 < |nodes| && |Remove(nodes, cur)| == |nodes| - 1
  {
    hide InCycle, IsList, Written, Below;
    var src := from[cur];
    CycleFacts(from, todo, seen, moves, start, cur, limit);
    Advance(from, todo, seen, start, cur);
    NextFacts(from, todo, seen + {cur}, start, src);
    assert cur in nodes && src in nodes && src != cur;
    Assigned(from, todo, seen, list, nodes, moves, limit, cur, src);
  }

  lemma {:induction false} CycleIs(from: map<Id, Id>, todo: set<Id>, seen: set<Id>, list: Links, nodes: seq<Id>,
                                   moves: seq<Move>,
                                   start: Id, cur: Id, tmp: Id, limit: Id, fuel: nat) returns (nodes': seq<Id>)
    requires CycleState(from, todo, seen, list, nodes, moves, start, cur, tmp, limit) && fuel + 1 >= |nodes|
    ensures Cycle(from, list, moves, start, cur, tmp, fuel).Round?
    ensures var r := Cycle(from, list, moves, start, cur, tmp, fuel);
            IsList(r.list, nodes') && |nodes'| < |nodes|
            && Permutes(from, Elems(nodes')) && Written(from, Elems(nodes'), r.moves, limit)
    decreases fuel
  {
    hide InCycle, IsList, Written, Below, Permutes, Unlink;
    CycleFacts(from, todo, seen, moves, start, cur, limit);
    if from[cur] == start {
      Closed(from, todo, seen, start, cur);
      Assigned(from, todo, seen, list, nodes, moves, limit, cur, tmp);
      nodes' := Remove(nodes, cur);
      assert todo - seen - {cur} == Elems(nodes');
    } else {
      CycleOn(from, todo, seen, list, nodes, moves, start, cur, tmp, limit);
      nodes' := CycleIs(from, todo, seen + {cur}, Unlink(list, cur), Remove(nodes, cur), moves + [Move(cur, from[cur])],
                        start, from[cur], tmp, limit, fuel - 1);
    }
  }

  lemma {:induction false} CyclesAre(from: map<Id, Id>, list: Links, nodes: seq<Id>, moves: seq<Move>, limit: Id,
                                     next: Id, fuel: nat)
    requires IsList(list, nodes) && Below(from, limit) && next >= limit && fuel >= |nodes|
    requires Permutes(from, Elems(nodes)) && Written(from, Elems(nodes), moves, limit)
    ensures var r := Cycles(from, list, moves, next, fuel); r.Moves? && Written(from, {}, r.moves, limit)
    decreases fuel
  {
    hide Permutes, Written, Below, Cycle;
    if nodes == [] {
      assert Elems(nodes) == {};
    } else {
      var start, todo := nodes[0], Elems(nodes);
      WriteFresh(from, todo, moves, limit, next, start);
      CycleStarts(from, todo, moves, limit, start);
      assert CycleState(from, todo, {}, list, nodes, moves + [Move(next, start)], start, start, next, limit) by {
        assert todo - {} == todo;
      }
      var nodes' := CycleIs(from, todo, {}, list, nodes, moves + [Move(next, start)], start, start, next, limit, fuel);
      var r := Cycle(from, list, moves + [Move(next, start)], start, start, next, fuel);
      CyclesAre(from, r.list, nodes', r.moves, limit, next + 1, fuel - 1);
    }
  }

  // ----- the whole edge -----

  /** If lists behave as sets, the C code gives every destination its source's old value, and changes
      nothing else below limit. */
  lemma ListsAgree(from: map<Id, Id>, edges: seq<Id>, nodes: seq<Id>, limit: Id, next: Id, fuel: nat)
    requires ListsOk(from, edges, nodes, limit) && next >= limit && fuel >= |edges| && ListsAreSets(from)
    ensures var r := ListMoves(from, edges, ListOf(nodes), next, fuel);
      && r.Moves?
      && (forall d {:trigger Origin(r.moves, d)} | d in from :: Origin(r.moves, d) == from[d])
      && (forall t: Id {:trigger Origin(r.moves, t)} | t < limit && t !in from :: Origin(r.moves, t) == t)
  {
    hide NodesOk, IsList, Sweeps, Cycles, ListState, NoChains, Stalled, Written, Permutes, Below, Cyclic;
    var w0 := Work(edges, ListOf(nodes), []);
    StartOk(from, edges, nodes, limit);
    var w := Sweeps(from, w0);
    var rest := SweepsKeep(from, w0, nodes, limit);
    StallEnds(from, w, rest, limit);
    if w.left == [] {
      assert Written(from, {}, w.moves, limit) by {
        AllWritten(from, w, limit);
      }
    } else {
      CyclesAre(from, w.list, rest, w.moves, limit, next, fuel);
    }
    WrittenAll(from, ListMoves(from, edges, ListOf(nodes), next, fuel).moves, limit);
  }

  lemma StartOk(from: map<Id, Id>, edges: seq<Id>, nodes: seq<Id>, limit: Id)
    requires ListsOk(from, edges, nodes, limit)
    ensures WorkOk(from, Work(edges, ListOf(nodes), []), nodes, limit) && Below(from, limit)
  {
    hide CyclesLeft, IsList, ListOf;
    ListOfIs(nodes);
    AllCyclesLeft(from, edges);
  }

  lemma AllCyclesLeft(from: map<Id, Id>, edges: seq<Id>)
    requires EdgesOk(from, edges)
    ensures CyclesLeft(from, edges)
  {
    forall d | Cyclic(from, d)
      ensures d in edges
    {
      var ds :| d in ds && Ring(from, ds);
      assert ReadBy(from, ds, d);
    }
  }

  lemma AllWritten(from: map<Id, Id>, w: Work, limit: Id)
    requires Halfway(from, w.left, w.moves, limit) && w.left == []
    ensures Written(from, {}, w.moves, limit)
  {
  }

  lemma WrittenAll(from: map<Id, Id>, moves: seq<Move>, limit: Id)
    requires Written(from, {}, moves, limit)
    ensures forall d {:trigger Origin(moves, d)} | d in from :: Origin(moves, d) == from[d]
    ensures forall t: Id {:trigger Origin(moves, t)} | t < limit && t !in from :: Origin(moves, t) == t
  {
  }

  /** A stall with something left is a cycle, so the list is good, and it holds what is left. */
  lemma StallEnds(from: map<Id, Id>, w: Work, nodes: seq<Id>, limit: Id)
    requires WorkOk(from, w, nodes, limit) && Stalled(from, w.left) && ListsAreSets(from)
    ensures w.left != [] ==> IsList(w.list, nodes) && |nodes| == |w.left|
    ensures w.left != [] ==> Permutes(from, Elems(nodes)) && Written(from, Elems(nodes), w.moves, limit)
  {
    if w.left != [] {
      StalledIsCyclic(from, w.left);
      StallIsPermutation(from, w.left);
      StallIsOnto(from, w.left);
      NodesAreLeft(from, w.left, nodes);
    }
  }

  lemma StalledIsCyclic(from: map<Id, Id>, left: seq<Id>)
    requires Stalled(from, left) && left != [] && forall d | d in left :: d in from
    ensures Cyclic(from, left[0])
  {
    var ds := Elems(left);
    forall d | d in ds
      ensures ReadBy(from, ds, d)
    {
      assert IsSource(from, left, d);
      var e :| e in left && e in from && from[e] == d;
      assert e in ds;
    }
    assert left[0] in ds && Ring(from, ds);
  }

  // ----- when lists are not sets -----

  /** The phis 6 <- 5, 1 <- 3, 4 <- 2, 5 <- 6, 2 <- 6 in this order: a cycle of 5 and 6, and the chains
      4 <- 2 <- 6 and 1 <- 3. */
  const BAD_COPY: map<Id, Id> := map[6 := 5, 1 := 3, 4 := 2, 5 := 6, 2 := 6]
  const BAD_EDGES: seq<Id> := [2, 5, 4, 1, 6]
  const BAD_NODES: seq<Id> := [2, 4, 3, 1, 5, 6]

  function BadPhi(ret: Id, value: Id): (phi: Phi) {
    Phi(ret, [PhiNode(0, value)])
  }

  const BAD_PHIS: seq<Phi> := [BadPhi(6, 5), BadPhi(1, 3), BadPhi(4, 2), BadPhi(5, 6), BadPhi(2, 6)]

  /** The lists are those that the five phis, in this order, are gathered into. */
  lemma BadPhisGathered()
    ensures GatherPhis(BAD_PHIS, 0, 5) == CopyGraph(BAD_COPY, BAD_EDGES, BAD_NODES)
  {
    hide GatherPhis, AddNode;
    var from := map[];
    NoPhisYet(BAD_PHIS);
    GatherTwo(BAD_PHIS, 0, 6, 5, CopyGraph(from, [], []), [6], [5, 6]);
    from := from[6 := 5];
    GatherTwo(BAD_PHIS, 1, 1, 3, CopyGraph(from, [6], [5, 6]), [1, 6], [3, 1, 5, 6]);
    from := from[1 := 3];
    GatherTwo(BAD_PHIS, 2, 4, 2, CopyGraph(from, [1, 6], [3, 1, 5, 6]), [4, 1, 6], BAD_NODES);
    from := from[4 := 2];
    GatherNone(BAD_PHIS, 3, 5, 6, CopyGraph(from, [4, 1, 6], BAD_NODES), [5, 4, 1, 6]);
    from := from[5 := 6];
    GatherNone(BAD_PHIS, 4, 2, 6, CopyGraph(from, [5, 4, 1, 6], BAD_NODES), BAD_EDGES);
  }

  lemma NoPhisYet(phis: seq<Phi>)
    ensures GatherPhis(phis, 0, 0) == CopyGraph(map[], [], [])
  {
  }

  /** A phi d <- s on the only edge; both ids are new to the list. */
  lemma GatherTwo(phis: seq<Phi>, k: nat, d: Id, s: Id, g: CopyGraph, edges: seq<Id>, nodes: seq<Id>)
    requires k < |phis| && phis[k] == BadPhi(d, s) && d != s && g == GatherPhis(phis, 0, k)
    requires d !in g.nodes && s !in g.nodes && edges == [d] + g.edges && nodes == [s, d] + g.nodes
    ensures GatherPhis(phis, 0, k + 1) == CopyGraph(g.from[d := s], edges, nodes)
  {
    assert GatherEntries(phis[k], 0, 0, g) == g;
    assert [s] + ([d] + g.nodes) == [s, d] + g.nodes;
  }

  /** A phi d <- s on the only edge; both ids are in the list. */
  lemma GatherNone(phis: seq<Phi>, k: nat, d: Id, s: Id, g: CopyGraph, edges: seq<Id>)
    requires k < |phis| && phis[k] == BadPhi(d, s) && d != s && g == GatherPhis(phis, 0, k)
    requires d in g.nodes && s in g.nodes && edges == [d] + g.edges
    ensures GatherPhis(phis, 0, k + 1) == CopyGraph(g.from[d := s], edges, g.nodes)
  {
    assert GatherEntries(phis[k], 0, 0, g) == g;
  }

  lemma SourceOf(from: map<Id, Id>, left: seq<Id>, d: Id)
    requires d in left && d in from
    ensures IsSource(from, left, from[d])
  {
  }

  lemma SweepSkips(from: map<Id, Id>, w: Work, i: nat)
    requires i < |w.left| && IsSource(from, w.left, w.left[i])
    ensures Sweep(from, w, i) == Sweep(from, w, i + 1)
  {
    hide IsSource;
  }

  lemma SweepEmits(from: map<Id, Id>, w: Work, i: nat, rest: seq<Id>)
    requires i < |w.left| && w.left[i] in from && !IsSource(from, w.left, w.left[i])
    requires Unique(w.left) && rest == w.left[..i] + w.left[i + 1..]
    ensures var r := EmitLeafOnList(from, w, w.left[i]); Sweep(from, w, i) == Sweep(from, r, i) && r.left == rest
  {
    hide IsSource;
    assert w.left[i] in w.left;
    RemoveAt(w.left, i);
  }

  lemma SweepEnds(from: map<Id, Id>, w: Work)
    ensures Sweep(from, w, |w.left|) == w
  {
  }

  /** The first pass emits 4 <- 2 and 1 <- 3. */
  lemma FirstPass(from: map<Id, Id>, e0: seq<Id>, e1: seq<Id>, e2: seq<Id>, l: Links) returns (w: Work)
    requires e0 == [2, 5, 4, 1, 6] && e1 == [2, 5, 1, 6] && e2 == [2, 5, 6]
    requires 4 in from && from[4] == 2 && 1 in from && from[1] == 3
    requires IsSource(from, e0, 2) && IsSource(from, e0, 5) && !IsSource(from, e0, 4)
    requires !IsSource(from, e1, 2) && !IsSource(from, e1, 1) && !IsSource(from, e2, 3) && IsSource(from, e2, 6)
    ensures w.left == e2 && w.list == Unlink(Unlink(Unlink(Unlink(l, 4), 2), 1), 3)
    ensures Sweep(from, Work(e0, l, []), 0) == w
  {
    hide Unlink, IsSource, Sweep, Remove;
    var w0 := Work(e0, l, []);
    SweepSkips(from, w0, 0);
    SweepSkips(from, w0, 1);
    SweepEmits(from, w0, 2, e1);
    var w1 := EmitLeafOnList(from, w0, 4);
    SweepEmits(from, w1, 2, e2);
    w := EmitLeafOnList(from, w1, 1);
    SweepSkips(from, w, 2);
    SweepEnds(from, w);
  }

  lemma WhoIsSource()
    ensures var from := BAD_COPY;
      && IsSource(from, BAD_EDGES, 2) && IsSource(from, BAD_EDGES, 5) && !IsSource(from, BAD_EDGES, 4)
      && !IsSource(from, [2, 5, 1, 6], 2) && !IsSource(from, [2, 5, 1, 6], 1)
      && !IsSource(from, [2, 5, 6], 3) && !IsSource(from, [2, 5, 6], 2) && IsSource(from, [2, 5, 6], 6)
      && IsSource(from, [5, 6], 5) && IsSource(from, [5, 6], 6)
  {
    SourceOf(BAD_COPY, BAD_EDGES, 4);
    SourceOf(BAD_COPY, BAD_EDGES, 6);
    SourceOf(BAD_COPY, [2, 5, 6], 5);
    SourceOf(BAD_COPY, [5, 6], 6);
    SourceOf(BAD_COPY, [5, 6], 5);
  }

  /** The second pass emits 2 <- 6 and unlinks node 2 again; then nothing is left but the cycle. */
  lemma SecondPass(from: map<Id, Id>, w: Work, rest: seq<Id>)
    requires w.left == [2, 5, 6] && rest == [5, 6] && 2 in from && from[2] == 6
    requires !IsSource(from, w.left, 2) && IsSource(from, rest, 5) && IsSource(from, rest, 6)
    ensures var r := Sweeps(from, w); r.left == rest && r.list == Unlink(w.list, 2)
  {
    hide Unlink, IsSource, Sweep, Remove;
    SweepEmits(from, w, 0, rest);
    var r := EmitLeafOnList(from, w, 2);
    SweepSkips(from, r, 0);
    SweepSkips(from, r, 1);
    SweepEnds(from, r);
    assert Sweeps(from, r) == r;
  }

  /** Unlinking node 2 for the second time brings back node 3, which has been taken out. */
  lemma BroughtBack()
    ensures Unlink(Unlink(Unlink(Unlink(Unlink(ListOf(BAD_NODES), 4), 2), 1), 3), 2).first == Node(3)
  {
    hide Unlink, Next, Prev, Remove, ListOf, IsList;
    ListOfIs(BAD_NODES);
    var l0 := ListOf(BAD_NODES);
    var l1 := Taken(l0, BAD_NODES, 1, [2, 3, 1, 5, 6]);
    var l2 := Taken(l1, [2, 3, 1, 5, 6], 0, [3, 1, 5, 6]);
    assert Next(l1, 2) == Node(3) && Prev(l1, 2) == Head;
    var l3 := Taken(l2, [3, 1, 5, 6], 1, [3, 5, 6]);
    var l4 := Taken(l3, [3, 5, 6], 0, [5, 6]);
    UnlinkStale(l4, 2, 3);
  }

  lemma Taken(l: Links, ns: seq<Id>, k: nat, rest: seq<Id>) returns (r: Links)
    requires IsList(l, ns) && k < |ns| && rest == ns[..k] + ns[k + 1..]
    ensures r == Unlink(l, ns[k]) && IsList(r, rest)
    ensures k + 1 < |ns| && ns[k] != 2 && 2 !in ns ==> Next(r, 2) == Next(l, 2) && Prev(r, 2) == Prev(l, 2)
    ensures ns[k] == 2 ==> Next(r, 2) == Next(l, 2) && Prev(r, 2) == Prev(l, 2)
    ensures k == 0 && 0 < |rest| ==> Next(l, ns[0]) == Node(rest[0]) && Prev(l, ns[0]) == Head
  {
    hide Unlink, Next, Prev, Remove;
    r := Unlink(l, ns[k]);
    UnlinkFields(l, ns, k);
    UnlinkMember(l, ns, ns[k]);
    RemoveAt(ns, k);
    assert ns[k] != 2 && 2 !in ns && k > 0 ==> ns[k - 1] in ns;
    assert k + 1 < |ns| ==> ns[k + 1] in ns && ns[k + 1] != ns[k];
  }

  lemma UnlinkStale(l: Links, x: Id, n: Id)
    requires Next(l, x) == Node(n) && Prev(l, x) == Head
    ensures Unlink(l, x).first == Node(n)
  {
  }

  /** On this copy, which ParallelCopy.Sequentialise handles with sets, the C code follows a null
      pointer: node 3 is back in the list and has no incoming copy. */
  lemma ListsAreNotSets(next: Id, fuel: nat)
    requires fuel >= 1
    ensures ListsOk(BAD_COPY, BAD_EDGES, BAD_NODES, 7)
    ensures ListMoves(BAD_COPY, BAD_EDGES, ListOf(BAD_NODES), next, fuel) == NullPointer
    ensures !ListsAreSets(BAD_COPY)
  {
    hide ListsOk, ListsAreSets, Sweep, Unlink, ListOf;
    BadListsOk();
    RunsIntoNull(next, fuel);
    RunsIntoNull(7, 5);
    if ListsAreSets(BAD_COPY) {
      ListsAgree(BAD_COPY, BAD_EDGES, BAD_NODES, 7, 7, 5);
    }
  }

  lemma RunsIntoNull(next: Id, fuel: nat)
    requires fuel >= 1
    ensures ListMoves(BAD_COPY, BAD_EDGES, ListOf(BAD_NODES), next, fuel) == NullPointer
  {
    hide Sweep, Unlink, ListOf, IsSource;
    WhoIsSource();
    var w := FirstPass(BAD_COPY, BAD_EDGES, [2, 5, 1, 6], [2, 5, 6], ListOf(BAD_NODES));
    SecondPass(BAD_COPY, w, [5, 6]);
    BroughtBack();
  }

  lemma BadListsOk()
    ensures ListsOk(BAD_COPY, BAD_EDGES, BAD_NODES, 7)
  {
    hide NodesOk, EdgesOk, Below, IsSource;
    BadEdgesOk();
    BadNodesOk();
  }

  lemma BadEdgesOk()
    ensures EdgesOk(BAD_COPY, BAD_EDGES) && Below(BAD_COPY, 7)
  {
    assert BAD_COPY.Keys == {6, 1, 4, 5, 2};
  }

  lemma BadNodesOk()
    ensures NodesOk(BAD_COPY, BAD_EDGES, BAD_NODES)
  {
    hide IsSource;
    SourceOf(BAD_COPY, BAD_EDGES, 1);
  }
}
