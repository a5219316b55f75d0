/** Cleaning up the control flow graph once phis are gone: merging a block into its only
    predecessor, deleting unreachable blocks, and bypassing blocks that only branch. */
module CfgCleanup {
  import opened Basics
  import opened Code
  import opened ParallelCopy
  import opened Ssa
  import opened EdgeSplit
  import opened Forwarding

  // ----- single steps -----

  datatype Action = Merge(src: Label, dst: Label) | Delete(lbl: Label) | Bypass(lbl: Label, target: Label)

  /** An unconditional branch. */
  predicate IsBr(last: Last, to: Label) {
    last == Jump(BRANCH, [], [to])
  }

  function Retarget(b: Block, was: Label, nb: Label): (r: Block) {
    b.(last := Redirect(b.last, was, nb))
  }

  function RetargetAll(f: Blocks, was: Label, nb: Label): (r: Blocks) {
    map l | l in f :: Retarget(f[l], was, nb)
  }

  function Apply(f: Blocks, a: Action): (g: Blocks) {
    match a
    case Merge(src, dst) =>
      if src in f && dst in f
      then (f - {dst})[src := Block(f[src].phis, f[src].body + f[dst].body, f[dst].last)]
      else f
    case Delete(lbl) => f - {lbl}
    case Bypass(lbl, target) => RetargetAll(f, lbl, target) - {lbl}
  }

  /** The block execution starts in, afterwards. */
  function EntryAfter(a: Action, entry: Label): (r: Label) {
    if a.Bypass? && a.lbl == entry then a.target else entry
  }

  ghost predicate Closed(f: Blocks) {
    forall l, k | l in f && 0 <= k < |f[l].last.succs| :: f[l].last.succs[k] in f
  }

  ghost predicate OnlyFrom(f: Blocks, src: Label, dst: Label) {
    forall l | l in f && dst in f[l].last.succs :: l == src
  }

  /** No other block goes there. */
  ghost predicate NotEntered(f: Blocks, lbl: Label) {
    forall l | l in f && l != lbl :: lbl !in f[l].last.succs
  }

  ghost predicate Legal(f: Blocks, entry: Label, a: Action) {
    match a
    case Merge(src, dst) =>
      src in f && dst in f && src != dst && dst != entry && IsBr(f[src].last, dst) && OnlyFrom(f, src, dst)
    case Delete(lbl) => lbl in f && lbl != entry && NotEntered(f, lbl)
    case Bypass(lbl, target) =>
      lbl in f && target in f && lbl != target && f[lbl].body == [] && IsBr(f[lbl].last, target)
  }

  /** No phis, and every label that is used exists. */
  ghost predicate Fine(f: Blocks, entry: Label) {
    NoPhis(f) && Closed(f) && entry in f
  }

  lemma ApplyFine(f: Blocks, entry: Label, a: Action)
    requires Fine(f, entry) && Legal(f, entry, a)
    ensures Fine(Apply(f, a), EntryAfter(a, entry))
  {
    var g := Apply(f, a);
    forall l, k | l in g && 0 <= k < |g[l].last.succs|
      ensures g[l].last.succs[k] in g
    {
      match a {
        case Merge(src, dst) =>
          var b := if l == src then dst else l;
          assert g[l].last == f[b].last && f[b].last.succs[k] in f[b].last.succs;
        case Delete(lbl) =>
          assert f[l].last.succs[k] in f[l].last.succs;
        case Bypass(lbl, target) =>
          assert f[l].last.succs[k] in f;
      }
    }
  }

  // ----- runs -----

  /** Without phis a block's last instruction only depends on itself. */
  lemma LeaveSame<W>(m: Machine<W>, f: Blocks, g: Blocks, l: Label, l': Label, last: Last, s: Local<W>)
    requires NoPhis(f) && NoPhis(g)
    ensures LeaveBlock(m, f, l, last, s) == LeaveBlock(m, g, l', last, s)
  {
    if last.succs != [] {
      var args := ReadAll(s.env, last.uses);
      var s' := if last.Invoke?
                then Local(WriteAll(s.env, last.defs, m.exec(last.op, s.world, args), |last.defs|),
                           m.effect(last.op, s.world, args))
                else s;
      NoPhisNothing(l, s'.env);
      NoPhisNothing(l', s'.env);
    }
  }

  lemma LeaveBr<W>(m: Machine<W>, f: Blocks, l: Label, to: Label, s: Local<W>)
    requires NoPhis(f)
    ensures LeaveBlock(m, f, l, Jump(BRANCH, [], [to]), s) == At(to, s.env, s.world)
  {
    NoPhisNothing(l, s.env);
  }

  /** The successor that is taken, redirected. */
  lemma LeaveRedirected<W>(m: Machine<W>, f: Blocks, g: Blocks, l: Label, last: Last, was: Label, nb: Label,
                           s: Local<W>)
    requires NoPhis(f) && NoPhis(g)
    ensures LeaveBlock(m, g, l, Redirect(last, was, nb), s) == Moved(LeaveBlock(m, f, l, last, s), was, nb)
  {
    if last.succs != [] {
      var args := ReadAll(s.env, last.uses);
      var s' := if last.Invoke?
                then Local(WriteAll(s.env, last.defs, m.exec(last.op, s.world, args), |last.defs|),
                           m.effect(last.op, s.world, args))
                else s;
      NoPhisNothing(l, s'.env);
    }
  }

  function Moved<W>(s: State<W>, was: Label, nb: Label): (r: State<W>) {
    if s.At? && s.lbl == was then s.(lbl := nb) else s
  }

  /** The place does not matter to the action: it is not a block that is going away. */
  predicate Stays<W>(s: State<W>, a: Action) {
    s.At? ==> match a
              case Merge(_, dst) => s.lbl != dst
              case Delete(lbl) => s.lbl != lbl
              case Bypass(lbl, _) => s.lbl != lbl
  }

  lemma ExecNothing<W>(m: Machine<W>, l: Local<W>)
    ensures ExecBody(m, [], l) == l
  {
  }

  lemma OneStep<W>(m: Machine<W>, f: Blocks, s: State<W>)
    ensures Run(m, f, s, 1) == StepBlock(m, f, s)
  {
    assert Run(m, f, s, 0) == s;
  }

  /** Leaving a block leads to one of its successors. */
  lemma LeavesTo<W>(m: Machine<W>, f: Blocks, l: Label, last: Last, s: Local<W>)
    ensures LeaveBlock(m, f, l, last, s).At? ==> LeaveBlock(m, f, l, last, s).lbl in last.succs
  {
  }

  /** The merged block does what its two parts did. */
  lemma MergedStep<W>(m: Machine<W>, f: Blocks, entry: Label, src: Label, dst: Label, s: State<W>)
    requires Fine(f, entry) && Legal(f, entry, Merge(src, dst)) && s.At? && s.lbl == src
    ensures Run(m, f, s, 2) == StepBlock(m, Apply(f, Merge(src, dst)), s)
    ensures Stays(StepBlock(m, Apply(f, Merge(src, dst)), s), Merge(src, dst))
  {
    hide LeaveBlock, EvalPhis, ExecBody;
    var g := Apply(f, Merge(src, dst));
    ApplyFine(f, entry, Merge(src, dst));
    var l := ExecBody(m, f[src].body, Local(s.env, s.world));
    LeaveBr(m, f, src, dst, l);
    OneStep(m, f, s);
    assert StepBlock(m, f, s) == At(dst, l.env, l.world);
    var l' := ExecBody(m, f[dst].body, l);
    BodyAppend(m, f[src].body, f[dst].body, Local(s.env, s.world));
    LeaveSame(m, f, g, dst, src, f[dst].last, l');
    LeavesTo(m, g, src, f[dst].last, l');
    assert Run(m, f, s, 2) == StepBlock(m, f, Run(m, f, s, 1));
  }

  /** Other blocks do what they did, when nothing is redirected. */
  lemma OtherStep<W>(m: Machine<W>, f: Blocks, entry: Label, a: Action, s: State<W>)
    requires Fine(f, entry) && Legal(f, entry, a) && !a.Bypass? && Stays(s, a) && s.At? && s.lbl in f
    requires a.Merge? ==> s.lbl != a.src
    ensures StepBlock(m, f, s) == StepBlock(m, Apply(f, a), s)
    ensures Stays(StepBlock(m, f, s), a)
  {
    hide LeaveBlock, EvalPhis, ExecBody;
    ApplyFine(f, entry, a);
    var l := ExecBody(m, f[s.lbl].body, Local(s.env, s.world));
    LeaveSame(m, f, Apply(f, a), s.lbl, s.lbl, f[s.lbl].last, l);
    LeavesTo(m, f, s.lbl, f[s.lbl].last, l);
  }

  /** A block that used to go through the bypassed one now goes straight to its target. */
  lemma BypassStep<W>(m: Machine<W>, f: Blocks, entry: Label, lbl: Label, target: Label, s: State<W>) returns (k: nat)
    requires Fine(f, entry) && Legal(f, entry, Bypass(lbl, target)) && s.At? && s.lbl in f && s.lbl != lbl
    ensures k >= 1 && Run(m, f, s, k) == StepBlock(m, Apply(f, Bypass(lbl, target)), s)
    ensures Stays(StepBlock(m, Apply(f, Bypass(lbl, target)), s), Bypass(lbl, target))
  {
    hide LeaveBlock, EvalPhis, ExecBody, Redirect;
    var a := Bypass(lbl, target);
    var g := Apply(f, a);
    ApplyFine(f, entry, a);
    var l := ExecBody(m, f[s.lbl].body, Local(s.env, s.world));
    LeaveRedirected(m, f, g, s.lbl, f[s.lbl].last, lbl, target, l);
    OneStep(m, f, s);
    k := 1;
    var next := StepBlock(m, f, s);
    assert StepBlock(m, g, s) == Moved(next, lbl, target);
    if next.At? && next.lbl == lbl {
      ThroughEmpty(m, f, lbl, target, next);
      assert Run(m, f, s, 2) == StepBlock(m, f, Run(m, f, s, 1));
      k := 2;
    }
  }

  lemma ThroughEmpty<W>(m: Machine<W>, f: Blocks, lbl: Label, target: Label, s: State<W>)
    requires NoPhis(f) && lbl in f && f[lbl].body == [] && IsBr(f[lbl].last, target) && s.At? && s.lbl == lbl
    ensures StepBlock(m, f, s) == At(target, s.env, s.world)
  {
    ExecNothing(m, Local(s.env, s.world));
    LeaveBr(m, f, lbl, target, Local(s.env, s.world));
  }

  /** One step afterwards is one or two steps before. */
  lemma ActionStep<W>(m: Machine<W>, f: Blocks, entry: Label, a: Action, s: State<W>) returns (k: nat)
    requires Fine(f, entry) && Legal(f, entry, a) && Stays(s, a) && (s.At? ==> s.lbl in f)
    ensures k >= 1 && Run(m, f, s, k) == StepBlock(m, Apply(f, a), s)
    ensures Stays(StepBlock(m, Apply(f, a), s), a)
  {
    hide StepBlock, Apply;
    k := 1;
    OneStep(m, f, s);
    if s.Done? {
      DoneStays(m, f, s);
      DoneStays(m, Apply(f, a), s);
    } else if a.Bypass? {
      k := BypassStep(m, f, entry, a.lbl, a.target, s);
    } else if a.Merge? && s.lbl == a.src {
      k := 2;
      MergedStep(m, f, entry, a.src, a.dst, s);
    } else {
      OtherStep(m, f, entry, a, s);
    }
  }

  lemma DoneStays<W>(m: Machine<W>, f: Blocks, s: State<W>)
    requires s.Done?
    ensures StepBlock(m, f, s) == s
  {
  }

  lemma StepInside<W>(m: Machine<W>, f: Blocks, s: State<W>)
    requires Closed(f) && (s.At? ==> s.lbl in f)
    ensures StepBlock(m, f, s).At? ==> StepBlock(m, f, s).lbl in f
  {
    if s.At? {
      LeavesTo(m, f, s.lbl, f[s.lbl].last, ExecBody(m, f[s.lbl].body, Local(s.env, s.world)));
    }
  }

  lemma {:induction false} RunInside<W>(m: Machine<W>, f: Blocks, s: State<W>, n: nat)
    requires Closed(f) && (s.At? ==> s.lbl in f)
    ensures Run(m, f, s, n).At? ==> Run(m, f, s, n).lbl in f
  {
    hide StepBlock, Closed;
    if n > 0 {
      RunInside(m, f, s, n - 1);
      StepInside(m, f, Run(m, f, s, n - 1));
    }
  }

  /** Every run of the changed function is a run of the original one. */
  lemma {:induction false} ActionRuns<W>(m: Machine<W>, f: Blocks, entry: Label, a: Action, s: State<W>, n: nat)
      returns (k: nat)
    requires Fine(f, entry) && Legal(f, entry, a) && Stays(s, a) && (s.At? ==> s.lbl in f)
    ensures k >= n && Run(m, f, s, k) == Run(m, Apply(f, a), s, n)
    ensures Stays(Run(m, Apply(f, a), s, n), a)
    decreases n
  {
    hide StepBlock, Apply, Legal;
    if n == 0 {
      k := 0;
    } else {
      k := ActionRuns(m, f, entry, a, s, n - 1);
      RunInside(m, f, s, k);
      var more := ActionStep(m, f, entry, a, Run(m, f, s, k));
      RunAdd(m, f, s, k, more);
      k := k + more;
    }
  }

  /** From the entry, also when the entry itself is bypassed. */
  lemma EntryRuns<W>(m: Machine<W>, f: Blocks, entry: Label, a: Action, env: Env, world: W, n: nat) returns (k: nat)
    requires Fine(f, entry) && Legal(f, entry, a)
    ensures k >= n && Run(m, f, At(entry, env, world), k) ==
              Run(m, Apply(f, a), At(EntryAfter(a, entry), env, world), n)
  {
    hide StepBlock, Apply, Fine;
    EntryInside(f, entry, a);
    if a.Bypass? && a.lbl == entry {
      var s := At(entry, env, world);
      ThroughEmpty(m, f, entry, a.target, s);
      OneStep(m, f, s);
      k := ActionRuns(m, f, entry, a, At(a.target, env, world), n);
      RunAdd(m, f, s, 1, k);
      k := 1 + k;
    } else {
      k := ActionRuns(m, f, entry, a, At(entry, env, world), n);
    }
  }

  lemma EntryInside(f: Blocks, entry: Label, a: Action)
    requires Fine(f, entry) && Legal(f, entry, a)
    ensures entry in f && EntryAfter(a, entry) in f && NoPhis(f)
  {
  }

  // ----- whole passes -----

  function ApplyAll(f: Blocks, trail: seq<Action>): (r: Blocks) {
    if trail == [] then f else Apply(ApplyAll(f, trail[..|trail| - 1]), trail[|trail| - 1])
  }

  function EntryAll(entry: Label, trail: seq<Action>): (r: Label) {
    if trail == [] then entry else EntryAfter(trail[|trail| - 1], EntryAll(entry, trail[..|trail| - 1]))
  }

  ghost predicate AllLegal(f: Blocks, entry: Label, trail: seq<Action>) {
    trail == [] || (
      var init := trail[..|trail| - 1];
      AllLegal(f, entry, init) && Legal(ApplyAll(f, init), EntryAll(entry, init), trail[|trail| - 1]))
  }

  lemma TrailStart(f: Blocks, entry: Label)
    ensures AllLegal(f, entry, []) && ApplyAll(f, []) == f && EntryAll(entry, []) == entry
  {
  }

  lemma TrailPush(f: Blocks, entry: Label, trail: seq<Action>, a: Action)
    requires AllLegal(f, entry, trail) && Legal(ApplyAll(f, trail), EntryAll(entry, trail), a)
    ensures AllLegal(f, entry, trail + [a])
    ensures ApplyAll(f, trail + [a]) == Apply(ApplyAll(f, trail), a)
    ensures EntryAll(entry, trail + [a]) == EntryAfter(a, EntryAll(entry, trail))
  {
    hide Legal, Apply;
    assert (trail + [a])[..|trail + [a]| - 1] == trail;
  }

  lemma {:induction false} TrailFine(f: Blocks, entry: Label, trail: seq<Action>)
    requires Fine(f, entry) && AllLegal(f, entry, trail)
    ensures Fine(ApplyAll(f, trail), EntryAll(entry, trail))
  {
    hide Fine, Legal, Apply;
    if trail != [] {
      var init := trail[..|trail| - 1];
      TrailFine(f, entry, init);
      ApplyFine(ApplyAll(f, init), EntryAll(entry, init), trail[|trail| - 1]);
    }
  }

  /** Every run of the cleaned function, from its entry, is a run of the original one from its
      entry: the same instructions other than branches, in the same order, on the same values. */
  lemma {:induction false} CleanupPreservesRuns<W>(m: Machine<W>, f: Blocks, entry: Label, trail: seq<Action>, env: Env,
                                                   world: W, n: nat)
    returns (k: nat)
    requires Fine(f, entry) && AllLegal(f, entry, trail)
    ensures k >= n && Run(m, f, At(entry, env, world), k) ==
              Run(m, ApplyAll(f, trail), At(EntryAll(entry, trail), env, world), n)
    decreases |trail|
  {
    hide Fine, Legal, Apply, StepBlock;
    if trail == [] {
      k := n;
    } else {
      var init := trail[..|trail| - 1];
      TrailFine(f, entry, init);
      k := EntryRuns(m, ApplyAll(f, init), EntryAll(entry, init), trail[|trail| - 1], env, world, n);
      k := CleanupPreservesRuns(m, f, entry, init, env, world, k);
    }
  }

  // ----- reachability -----

  ghost predicate ReachedIn(f: Blocks, entry: Label, l: Label, n: nat)
    decreases n
  {
    if n == 0 then l == entry
    else exists p :: p in f && l in f[p].last.succs && ReachedIn(f, entry, p, n - 1)
  }

  ghost predicate Reached(f: Blocks, entry: Label, l: Label) {
    exists n: nat :: ReachedIn(f, entry, l, n)
  }

  ghost predicate AllReached(f: Blocks, entry: Label) {
    forall l | l in f :: Reached(f, entry, l)
  }

  lemma {:induction false} MergeReached(f: Blocks, entry: Label, src: Label, dst: Label, l: Label, n: nat)
    requires Legal(f, entry, Merge(src, dst)) && ReachedIn(f, entry, l, n)
    ensures Reached(Apply(f, Merge(src, dst)), entry, if l == dst then src else l)
    decreases n
  {
    var g := Apply(f, Merge(src, dst));
    if n == 0 {
      assert ReachedIn(g, entry, l, 0);
    } else {
      var p :| p in f && l in f[p].last.succs && ReachedIn(f, entry, p, n - 1);
      MergeReached(f, entry, src, dst, p, n - 1);
      var q := if p == dst then src else p;
      if l != dst {
        var k: nat :| ReachedIn(g, entry, q, k);
        assert p != src;
        assert q in g && l in g[q].last.succs;
        assert ReachedIn(g, entry, l, k + 1);
      }
    }
  }

  lemma {:induction false} DeleteReached(f: Blocks, entry: Label, lbl: Label, l: Label, n: nat)
    requires Legal(f, entry, Delete(lbl)) && ReachedIn(f, entry, l, n)
    ensures l != lbl && ReachedIn(Apply(f, Delete(lbl)), entry, l, n)
    decreases n
  {
    if n > 0 {
      var p :| p in f && l in f[p].last.succs && ReachedIn(f, entry, p, n - 1);
      DeleteReached(f, entry, lbl, p, n - 1);
      var g := Apply(f, Delete(lbl));
      assert p in g && l in g[p].last.succs && ReachedIn(g, entry, p, n - 1);
    }
  }

  lemma StillReached(f: Blocks, entry: Label, a: Action)
    requires Legal(f, entry, a) && !a.Bypass?
    ensures AllReached(f, entry) ==> AllReached(Apply(f, a), entry)
  {
    var g := Apply(f, a);
    forall l | l in g && Reached(f, entry, l)
      ensures Reached(g, entry, l)
    {
      var n: nat :| ReachedIn(f, entry, l, n);
      if a.Merge? {
        MergeReached(f, entry, a.src, a.dst, l, n);
      } else {
        DeleteReached(f, entry, a.lbl, l, n);
      }
    }
    assert forall l | l in g :: l in f;
  }

  /** A block other than the entry that only enters itself is not reached. */
  lemma {:induction false} SelfNotReached(f: Blocks, entry: Label, l: Label, n: nat)
    requires OnlyFrom(f, l, l) && l != entry
    ensures !ReachedIn(f, entry, l, n)
    decreases n
  {
    if n > 0 {
      SelfNotReached(f, entry, l, n - 1);
    }
  }

  // ----- edge lists -----

  /** The edge list holds exactly the successor relation, perhaps with repetitions. */
  ghost predicate InStep(f: Blocks, edges: seq<Edge>) {
    && (forall j | 0 <= j < |edges| :: edges[j].src in f && edges[j].dst in f[edges[j].src].last.succs)
    && (forall l, t | l in f && t in f[l].last.succs :: Edge(l, t) in edges)
  }

  function Without(edges: seq<Edge>, lbl: Label): (r: seq<Edge>)
    ensures forall e :: e in r <==> e in edges && e.src != lbl && e.dst != lbl
  {
    if edges == [] then []
    else
      var rest := Without(edges[1..], lbl);
      if edges[0].src != lbl && edges[0].dst != lbl then [edges[0]] + rest else rest
  }

  function MoveSources(edges: seq<Edge>, was: Label, nb: Label): (r: seq<Edge>)
    ensures |r| == |edges| && forall j | 0 <= j < |edges| ::
              r[j] == if edges[j].src == was then edges[j].(src := nb) else edges[j]
  {
    seq(|edges|, j requires 0 <= j < |edges| => if edges[j].src == was then edges[j].(src := nb) else edges[j])
  }

  /** The list holds every block once; the first is the entry. */
  ghost predicate Listed(f: Blocks, order: seq<Label>) {
    && order != []
    && Unique(order)
    && (forall l :: l in order <==> l in f)
  }

  lemma RemovedListed(f: Blocks, g: Blocks, order: seq<Label>, i: nat)
    requires Listed(f, order) && i < |order| && |order| > 1 && g.Keys == f.Keys - {order[i]}
    ensures Listed(g, Removed(order, i))
  {
    var r := Removed(order, i);
    forall l | l in g
      ensures l in r
    {
      var k :| 0 <= k < |order| && order[k] == l;
      assert r[if k < i then k else k - 1] == l;
    }
    forall l | l in r
      ensures l in g
    {
      var k :| 0 <= k < |r| && r[k] == l;
      assert order[if k < i then k else k + 1] == l;
    }
  }

  /** The edges after a merge: the one that is gone, and the others moved. */
  lemma MergeInStep(f: Blocks, entry: Label, edges: seq<Edge>, j: nat, src: Label, dst: Label)
    requires Legal(f, entry, Merge(src, dst)) && InStep(f, edges) && j < |edges| && edges[j] == Edge(src, dst)
    requires forall k | 0 <= k < |edges| && edges[k].dst == dst :: k == j
    ensures InStep(Apply(f, Merge(src, dst)), MoveSources(Removed(edges, j), dst, src))
  {
    hide Apply, Legal;
    var g, rest := Apply(f, Merge(src, dst)), Removed(edges, j);
    var r := MoveSources(rest, dst, src);
    forall k | 0 <= k < |r|
      ensures r[k].src in g && r[k].dst in g[r[k].src].last.succs
    {
      var i := if k < j then k else k + 1;
      assert rest[k] == edges[i];
      NotInto(edges, j, dst, i);
      MovedLast(f, entry, edges, src, dst, i);
    }
    forall l, t | l in g && t in g[l].last.succs
      ensures Edge(l, t) in r
    {
      var i := EdgeBefore(f, entry, edges, j, src, dst, l, t);
      var k := if i < j then i else i - 1;
      assert rest[k] == edges[i] && r[k] == Edge(l, t);
    }
  }

  /** The last instruction in front of an edge is the one it was. */
  lemma MovedLast(f: Blocks, entry: Label, edges: seq<Edge>, src: Label, dst: Label, i: nat)
    requires Legal(f, entry, Merge(src, dst)) && InStep(f, edges) && i < |edges| && edges[i].dst != dst
    ensures edges[i].src in f && edges[i].src != src && edges[i].dst in f[edges[i].src].last.succs
    ensures var b := edges[i].src; var g := Apply(f, Merge(src, dst));
            var b' := if b == dst then src else b; b' in g && g[b'].last == f[b].last
  {
  }

  lemma NotInto(edges: seq<Edge>, j: nat, dst: Label, i: nat)
    requires i < |edges| && i != j && forall k | 0 <= k < |edges| && edges[k].dst == dst :: k == j
    ensures edges[i].dst != dst
  {
  }

  lemma EdgeBefore(f: Blocks, entry: Label, edges: seq<Edge>, j: nat, src: Label, dst: Label, l: Label, t: Label)
      returns (i: nat)
    requires Legal(f, entry, Merge(src, dst)) && InStep(f, edges) && j < |edges| && edges[j] == Edge(src, dst)
    requires l in Apply(f, Merge(src, dst)) && t in Apply(f, Merge(src, dst))[l].last.succs
    ensures i < |edges| && i != j && edges[i] == Edge(if l == src then dst else l, t) && l != dst
  {
    var b := if l == src then dst else l;
    assert t in f[b].last.succs && Edge(b, t) in edges;
    i :| 0 <= i < |edges| && edges[i] == Edge(b, t);
  }

  /** The only edge into a block. */
  ghost predicate OnlyEdge(edges: seq<Edge>, j: nat, lbl: Label) {
    j < |edges| && edges[j].dst == lbl && forall k | 0 <= k < |edges| && edges[k].dst == lbl :: k == j
  }

  /** One block goes there and does nothing else. */
  ghost predicate Mergeable(f: Blocks, edges: seq<Edge>, lbl: Label) {
    exists j: nat :: OnlyEdge(edges, j, lbl) && edges[j].src in f && IsBr(f[edges[j].src].last, lbl)
  }

  /** The block is its own only predecessor, branches to itself and has other instructions, which
      eliminate_dead_code would move to the end of the same list again and again. */
  ghost predicate Stuck(f: Blocks, edges: seq<Edge>, lbl: Label) {
    lbl in f && IsBr(f[lbl].last, lbl) && f[lbl].body != [] && exists j: nat ::
      OnlyEdge(edges, j, lbl) && edges[j].src == lbl
  }

  lemma NotMergeable(f: Blocks, edges: seq<Edge>, lbl: Label, j: nat, k: nat)
    requires j < |edges| && edges[j].dst == lbl && edges[j].src in f && k < |edges| && edges[k].dst == lbl
    requires j != k || !IsBr(f[edges[j].src].last, lbl)
    ensures !Mergeable(f, edges, lbl)
  {
  }

  lemma MergeableEdge(f: Blocks, edges: seq<Edge>, lbl: Label) returns (j: nat)
    requires Mergeable(f, edges, lbl)
    ensures j < |edges| && OnlyEdge(edges, j, lbl) && edges[j].src in f && IsBr(f[edges[j].src].last, lbl)
  {
    j :| OnlyEdge(edges, j, lbl) && edges[j].src in f && IsBr(f[edges[j].src].last, lbl);
  }

  /** A merge does not make another block mergeable. */
  lemma MergeSettles(f: Blocks, entry: Label, edges: seq<Edge>, j: nat, src: Label, dst: Label, l: Label)
    requires Legal(f, entry, Merge(src, dst)) && InStep(f, edges) && j < |edges| && edges[j] == Edge(src, dst)
    requires Mergeable(Apply(f, Merge(src, dst)), MoveSources(Removed(edges, j), dst, src), l) && l != dst
    ensures Mergeable(f, edges, l)
  {
    hide Apply, Legal, InStep, OnlyEdge, IsBr;
    var g, r := Apply(f, Merge(src, dst)), MoveSources(Removed(edges, j), dst, src);
    var m := MergeableEdge(g, r, l);
    var i := OnlyBefore(edges, j, src, dst, l, m);
    MovedLast(f, entry, edges, src, dst, i);
  }

  lemma OnlyBefore(edges: seq<Edge>, j: nat, src: Label, dst: Label, l: Label, m: nat) returns (i: nat)
    requires j < |edges| && edges[j].dst == dst != l && OnlyEdge(MoveSources(Removed(edges, j), dst, src), m, l)
    ensures OnlyEdge(edges, i, l) && i < |edges| && edges[i].dst == l && m < |edges| - 1
    ensures MoveSources(Removed(edges, j), dst, src)[m].src == if edges[i].src == dst then src else edges[i].src
  {
    var rest := Removed(edges, j);
    var r := MoveSources(rest, dst, src);
    i := if m < j then m else m + 1;
    assert rest[m] == edges[i];
    forall k | 0 <= k < |edges| && edges[k].dst == l
      ensures k == i
    {
      var k' := if k < j then k else k - 1;
      assert rest[k'] == edges[k] && r[k'].dst == l;
    }
  }

  lemma DeleteInStep(f: Blocks, entry: Label, edges: seq<Edge>, lbl: Label)
    requires Legal(f, entry, Delete(lbl)) && InStep(f, edges)
    ensures InStep(Apply(f, Delete(lbl)), Without(edges, lbl))
  {
    var g, r := Apply(f, Delete(lbl)), Without(edges, lbl);
    forall k | 0 <= k < |r|
      ensures r[k].src in g && r[k].dst in g[r[k].src].last.succs
    {
      assert r[k] in r;
      var i :| 0 <= i < |edges| && edges[i] == r[k];
    }
  }

  // ----- rings -----

  /** Where the edges into a block come from, in list order. */
  function Sources(edges: seq<Edge>, t: Label): (r: seq<Label>)
    ensures forall p :: p in r <==> Edge(p, t) in edges
  {
    if edges == [] then []
    else
      var rest := Sources(edges[1..], t);
      if edges[0].dst == t then [edges[0].src] + rest else rest
  }

  /** The block only branches on inside the set, and its only edge comes from the set. */
  predicate RingMember(f: Blocks, edges: seq<Edge>, ring: set<Label>, r: Label) {
    && r in f
    && |Sources(edges, r)| == 1 && Sources(edges, r)[0] in ring
    && |f[r].last.succs| == 1 && f[r].last.succs[0] in ring && IsBr(f[r].last, f[r].last.succs[0])
  }

  /** Blocks that branch to one another, that nothing else enters, and that are not all empty. */
  ghost predicate Ring(f: Blocks, edges: seq<Edge>, entry: Label, ring: set<Label>) {
    && entry !in ring
    && (forall r | r in ring :: RingMember(f, edges, ring, r))
    && exists r :: r in ring && r in f && f[r].body != []
  }

  ghost predicate Within(ring: set<Label>, labels: seq<Label>) {
    forall r | r in ring :: r in labels
  }

  /** There is a ring among these blocks. */
  ghost predicate HasRing(f: Blocks, edges: seq<Edge>, entry: Label, labels: seq<Label>) {
    exists ring :: Ring(f, edges, entry, ring) && Within(ring, labels)
  }

  ghost predicate Entered(f: Blocks, l: Label) {
    exists p :: p in f && l in f[p].last.succs
  }

  /** Some block, perhaps itself, enters every block but the first. */
  ghost predicate AllEntered(f: Blocks, entry: Label) {
    forall l | l in f && l != entry :: Entered(f, l)
  }

  lemma {:induction false} SourcesAppend(a: seq<Edge>, b: seq<Edge>, t: Label)
    ensures Sources(a + b, t) == Sources(a, t) + Sources(b, t)
  {
    if a == [] {
      assert a + b == b;
    } else {
      assert (a + b)[1..] == a[1..] + b;
      SourcesAppend(a[1..], b, t);
    }
  }

  lemma SourcesRemoved(edges: seq<Edge>, j: nat, t: Label)
    requires j < |edges| && edges[j].dst != t
    ensures Sources(Removed(edges, j), t) == Sources(edges, t)
  {
    assert edges == edges[..j] + ([edges[j]] + edges[j + 1..]);
    SourcesAppend(edges[..j], [edges[j]] + edges[j + 1..], t);
    SourcesAppend(edges[..j], edges[j + 1..], t);
  }

  lemma {:induction false} SourcesMoved(edges: seq<Edge>, was: Label, nb: Label, t: Label)
    ensures var a, b := Sources(edges, t), Sources(MoveSources(edges, was, nb), t);
            |a| == |b| && forall k | 0 <= k < |a| :: b[k] == if a[k] == was then nb else a[k]
  {
    if edges != [] {
      assert MoveSources(edges, was, nb)[1..] == MoveSources(edges[1..], was, nb);
      SourcesMoved(edges[1..], was, nb, t);
    }
  }

  lemma {:induction false} SourcesWithout(edges: seq<Edge>, lbl: Label, t: Label)
    requires t != lbl && Edge(lbl, t) !in edges
    ensures Sources(Without(edges, lbl), t) == Sources(edges, t)
  {
    if edges != [] {
      SourcesWithout(edges[1..], lbl, t);
      assert edges[0] in edges;
    }
  }

  lemma EdgeIs(f: Blocks, edges: seq<Edge>, l: Label, t: Label)
    requires InStep(f, edges)
    ensures Edge(l, t) in edges <==> l in f && t in f[l].last.succs
  {
  }

  lemma IsMember(f: Blocks, edges: seq<Edge>, entry: Label, ring: set<Label>, r: Label)
    requires Ring(f, edges, entry, ring) && r in ring
    ensures RingMember(f, edges, ring, r) && r != entry
  {
  }

  lemma SomeBusy(f: Blocks, edges: seq<Edge>, entry: Label, ring: set<Label>) returns (r: Label)
    requires Ring(f, edges, entry, ring)
    ensures r in ring && r in f && f[r].body != []
  {
    hide RingMember;
    r :| r in ring && r in f && f[r].body != [];
  }

  /** Its only edge comes from a block of the ring that branches to it. */
  lemma RingEdge(f: Blocks, edges: seq<Edge>, entry: Label, ring: set<Label>, r: Label) returns (p: Label)
    requires InStep(f, edges) && Ring(f, edges, entry, ring) && r in ring
    ensures p in ring && p in f && IsBr(f[p].last, r) && Sources(edges, r) == [p]
    ensures forall q | q in f && r in f[q].last.succs :: q == p
  {
    hide InStep, Ring;
    IsMember(f, edges, entry, ring, r);
    p := Sources(edges, r)[0];
    IsMember(f, edges, entry, ring, p);
    EdgeIs(f, edges, p, r);
    forall q | q in f && r in f[q].last.succs
      ensures q == p
    {
      EdgeIs(f, edges, q, r);
    }
  }

  lemma MergedMember(f: Blocks, entry: Label, edges: seq<Edge>, j: nat, src: Label, dst: Label, ring: set<Label>,
                     r: Label)
    requires Legal(f, entry, Merge(src, dst)) && InStep(f, edges) && j < |edges| && edges[j] == Edge(src, dst)
    requires Ring(f, edges, entry, ring) && r in ring && r != dst
    ensures RingMember(Apply(f, Merge(src, dst)), MoveSources(Removed(edges, j), dst, src), ring - {dst}, r)
  {
    hide Removed, InStep, Ring, MoveSources, Sources;
    var p := RingEdge(f, edges, entry, ring, r);
    if dst in ring {
      var q := RingEdge(f, edges, entry, ring, dst);
      assert q == src;
    }
    SourcesRemoved(edges, j, r);
    SourcesMoved(Removed(edges, j), dst, src, r);
    IsMember(f, edges, entry, ring, r);
    if r == src {
      IsMember(f, edges, entry, ring, dst);
    }
  }

  lemma MergeRing(f: Blocks, entry: Label, edges: seq<Edge>, j: nat, src: Label, dst: Label, ring: set<Label>)
    requires Legal(f, entry, Merge(src, dst)) && InStep(f, edges) && j < |edges| && edges[j] == Edge(src, dst)
    requires Ring(f, edges, entry, ring)
    ensures Ring(Apply(f, Merge(src, dst)), MoveSources(Removed(edges, j), dst, src), entry, ring - {dst})
  {
    hide Removed, InStep, MoveSources, RingMember;
    var g := Apply(f, Merge(src, dst));
    forall r | r in ring - {dst}
      ensures RingMember(g, MoveSources(Removed(edges, j), dst, src), ring - {dst}, r)
    {
      MergedMember(f, entry, edges, j, src, dst, ring, r);
    }
    var r := SomeBusy(f, edges, entry, ring);
    if r == dst {
      var p := RingEdge(f, edges, entry, ring, dst);
      assert src in ring - {dst} && g[src].body != [];
    } else {
      assert r in ring - {dst} && g[r].body != [];
    }
  }

  /** A ring after a merge comes from a ring before it. */
  lemma UnmergedMember(f: Blocks, entry: Label, edges: seq<Edge>, j: nat, src: Label, dst: Label, ring: set<Label>,
                       r: Label)
    requires Legal(f, entry, Merge(src, dst)) && InStep(f, edges) && j < |edges| && edges[j] == Edge(src, dst)
    requires r in ring && RingMember(Apply(f, Merge(src, dst)), MoveSources(Removed(edges, j), dst, src), ring, r)
    ensures RingMember(f, edges, if src in ring then ring + {dst} else ring, r)
  {
    hide Removed, InStep, MoveSources, Sources;
    SourcesRemoved(edges, j, r);
    SourcesMoved(Removed(edges, j), dst, src, r);
  }

  lemma UnmergedTarget(f: Blocks, entry: Label, edges: seq<Edge>, j: nat, src: Label, dst: Label, ring: set<Label>)
    requires Legal(f, entry, Merge(src, dst)) && InStep(f, edges) && OnlyEdge(edges, j, dst)
    requires j < |edges| && edges[j] == Edge(src, dst)
    requires src in ring && RingMember(Apply(f, Merge(src, dst)), MoveSources(Removed(edges, j), dst, src), ring, src)
    ensures RingMember(f, edges, ring + {dst}, dst)
  {
    hide InStep;
    OneSource(edges, j, dst);
  }

  lemma {:induction false} NoSource(edges: seq<Edge>, t: Label)
    requires forall k | 0 <= k < |edges| :: edges[k].dst != t
    ensures Sources(edges, t) == []
  {
    if edges != [] {
      NoSource(edges[1..], t);
    }
  }

  lemma OneSource(edges: seq<Edge>, j: nat, t: Label)
    requires OnlyEdge(edges, j, t)
    ensures Sources(edges, t) == [edges[j].src]
  {
    assert edges == edges[..j] + ([edges[j]] + edges[j + 1..]);
    SourcesAppend(edges[..j], [edges[j]] + edges[j + 1..], t);
    SourcesAppend([edges[j]], edges[j + 1..], t);
    NoSource(edges[..j], t);
    NoSource(edges[j + 1..], t);
  }

  lemma UnmergeRing(f: Blocks, entry: Label, edges: seq<Edge>, j: nat, src: Label, dst: Label, ring: set<Label>)
    requires Legal(f, entry, Merge(src, dst)) && InStep(f, edges) && OnlyEdge(edges, j, dst)
    requires j < |edges| && edges[j] == Edge(src, dst)
    requires Ring(Apply(f, Merge(src, dst)), MoveSources(Removed(edges, j), dst, src), entry, ring)
    ensures Ring(f, edges, entry, if src in ring then ring + {dst} else ring)
  {
    hide Removed, InStep, MoveSources, RingMember, OnlyEdge;
    var g, moved := Apply(f, Merge(src, dst)), MoveSources(Removed(edges, j), dst, src);
    var was := if src in ring then ring + {dst} else ring;
    forall r | r in was
      ensures RingMember(f, edges, was, r)
    {
      if r in ring {
        UnmergedMember(f, entry, edges, j, src, dst, ring, r);
      } else {
        UnmergedTarget(f, entry, edges, j, src, dst, ring);
      }
    }
    var r := SomeBusy(g, moved, entry, ring);
    if r == src && f[r].body == [] {
      assert f[dst].body != [] && dst in was;
    } else {
      assert r in f && f[r].body != [] && r in was;
    }
  }

  /** Deleting a block keeps the ring, less the block if it is an empty one that branches to itself. */
  lemma DeleteRing(f: Blocks, entry: Label, edges: seq<Edge>, lbl: Label, ring: set<Label>)
    requires Legal(f, entry, Delete(lbl)) && InStep(f, edges) && Ring(f, edges, entry, ring)
    requires lbl in ring ==> f[lbl].body == []
    ensures Ring(Apply(f, Delete(lbl)), Without(edges, lbl), entry, ring - {lbl})
  {
    hide InStep, Without, RingMember;
    var g := Apply(f, Delete(lbl));
    forall r | r in ring - {lbl}
      ensures RingMember(g, Without(edges, lbl), ring - {lbl}, r)
    {
      DeletedMember(f, entry, edges, lbl, ring, r);
    }
    var r := SomeBusy(f, edges, entry, ring);
    assert r in ring - {lbl} && g[r].body != [];
  }

  lemma DeletedMember(f: Blocks, entry: Label, edges: seq<Edge>, lbl: Label, ring: set<Label>, r: Label)
    requires Legal(f, entry, Delete(lbl)) && InStep(f, edges) && Ring(f, edges, entry, ring) && r in ring && r != lbl
    ensures RingMember(Apply(f, Delete(lbl)), Without(edges, lbl), ring - {lbl}, r)
  {
    hide InStep, Ring, Sources, Without;
    IsMember(f, edges, entry, ring, r);
    var p := RingEdge(f, edges, entry, ring, r);
    if lbl in ring {
      var q := RingEdge(f, edges, entry, ring, lbl);
      assert q == lbl;
    }
    EdgeIs(f, edges, lbl, r);
    SourcesWithout(edges, lbl, r);
  }

  /** A ring after an empty block that only branches to itself has been deleted was there before. */
  lemma UndeleteRing(f: Blocks, entry: Label, edges: seq<Edge>, lbl: Label, ring: set<Label>)
    requires Legal(f, entry, Delete(lbl)) && InStep(f, edges) && IsBr(f[lbl].last, lbl)
    requires Ring(Apply(f, Delete(lbl)), Without(edges, lbl), entry, ring)
    ensures Ring(f, edges, entry, ring)
  {
    hide InStep, Without, RingMember;
    var g := Apply(f, Delete(lbl));
    forall r | r in ring
      ensures RingMember(f, edges, ring, r)
    {
      UndeletedMember(f, entry, edges, lbl, ring, r);
    }
    var r := SomeBusy(g, Without(edges, lbl), entry, ring);
    assert r in ring && r in f && f[r].body != [];
  }

  lemma UndeletedMember(f: Blocks, entry: Label, edges: seq<Edge>, lbl: Label, ring: set<Label>, r: Label)
    requires Legal(f, entry, Delete(lbl)) && InStep(f, edges) && IsBr(f[lbl].last, lbl) && r in ring
    requires Ring(Apply(f, Delete(lbl)), Without(edges, lbl), entry, ring)
    ensures RingMember(f, edges, ring, r)
  {
    hide Ring, InStep, Sources, Without;
    IsMember(Apply(f, Delete(lbl)), Without(edges, lbl), entry, ring, r);
    EdgeIs(f, edges, lbl, r);
    SourcesWithout(edges, lbl, r);
  }

  /** An edge into the block is there exactly if some block enters it. */
  lemma EnteredByEdge(f: Blocks, edges: seq<Edge>, l: Label)
    requires InStep(f, edges)
    ensures Entered(f, l) <==> exists k | 0 <= k < |edges| :: edges[k].dst == l
  {
    if Entered(f, l) {
      var p :| p in f && l in f[p].last.succs;
      EdgeFor(f, edges, p, l);
    }
    if k :| 0 <= k < |edges| && edges[k].dst == l {
      assert edges[k] in edges && edges[k].src in f && l in f[edges[k].src].last.succs;
    }
  }

  /** Merging and deleting do not enter blocks that nothing entered. */
  lemma EnteredBefore(f: Blocks, entry: Label, a: Action, l: Label)
    requires Legal(f, entry, a) && !a.Bypass? && Entered(Apply(f, a), l)
    ensures Entered(f, l)
  {
    var g := Apply(f, a);
    var p :| p in g && l in g[p].last.succs;
    match a {
      case Merge(src, dst) =>
        var q := if p == src then dst else p;
        assert q in f && l in f[q].last.succs;
      case Delete(lbl) =>
        assert p in f && l in f[p].last.succs;
    }
  }

  /** The edge into a member of a ring is the only one. */
  lemma RingMergeable(f: Blocks, edges: seq<Edge>, entry: Label, ring: set<Label>, r: Label)
    requires InStep(f, edges) && Ring(f, edges, entry, ring) && r in ring
    ensures Mergeable(f, edges, r)
  {
    hide InStep, Ring, OnlyEdge;
    var p := RingEdge(f, edges, entry, ring, r);
    var j := SourceEdge(edges, r, p);
    assert OnlyEdge(edges, j, r) && edges[j].src in f;
  }

  lemma {:induction false} SourceEdge(edges: seq<Edge>, t: Label, p: Label) returns (j: nat)
    requires Sources(edges, t) == [p]
    ensures OnlyEdge(edges, j, t) && edges[j].src == p
  {
    var rest := edges[1..];
    if edges[0].dst == t {
      j := 0;
      forall k | 0 < k < |edges|
        ensures edges[k].dst != t
      {
        assert rest[k - 1] == edges[k] && Edge(edges[k].src, edges[k].dst) in rest;
      }
    } else {
      var i := SourceEdge(rest, t, p);
      j := i + 1;
      forall k | 0 <= k < |edges| && edges[k].dst == t
        ensures k == j
      {
        assert rest[k - 1] == edges[k];
      }
    }
  }

  /** A ring among the blocks from position i on does not have the block at i if that one is kept. */
  lemma KeptRing(f: Blocks, entry: Label, order: seq<Label>, edges: seq<Edge>, i: nat)
    requires InStep(f, edges) && i < |order|
    ensures order[i] == entry || !Mergeable(f, edges, order[i]) ==>
              HasRing(f, edges, entry, order[i..]) ==> HasRing(f, edges, entry, order[i + 1..])
  {
    hide InStep, Mergeable, Ring, Removed;
    if HasRing(f, edges, entry, order[i..]) && (order[i] == entry || !Mergeable(f, edges, order[i])) {
      var ring :| Ring(f, edges, entry, ring) && Within(ring, order[i..]);
      forall r | r in ring
        ensures r in order[i + 1..]
      {
        RingMergeable(f, edges, entry, ring, r);
        IsMember(f, edges, entry, ring, r);
        InTail(order, i, r);
      }
    }
  }

  lemma InTail(order: seq<Label>, i: nat, r: Label)
    requires i < |order| && r in order[i..] && r != order[i]
    ensures r in order[i + 1..] && r in Removed(order, i)[i..]
  {
    var k :| 0 <= k < |order[i..]| && order[i..][k] == r;
    assert order[i + 1..][k - 1] == r;
    assert Removed(order, i)[i..] == order[i + 1..];
  }

  lemma NoRing(f: Blocks, entry: Label, edges: seq<Edge>)
    ensures !HasRing(f, edges, entry, [])
  {
    hide RingMember;
  }

  lemma StuckRing(f: Blocks, entry: Label, order: seq<Label>, edges: seq<Edge>, i: nat)
    requires i < |order| && order[i] != entry && Stuck(f, edges, order[i])
    ensures HasRing(f, edges, entry, order)
  {
    hide RingMember, Stuck;
    SelfMember(f, edges, order[i]);
    assert Ring(f, edges, entry, {order[i]});
  }

  lemma SelfMember(f: Blocks, edges: seq<Edge>, lbl: Label)
    requires Stuck(f, edges, lbl)
    ensures RingMember(f, edges, {lbl}, lbl) && lbl in f && f[lbl].body != []
  {
    var j: nat :| OnlyEdge(edges, j, lbl) && edges[j].src == lbl;
    OneSource(edges, j, lbl);
  }

  /** Rings that a merge leaves to the rest of the list, and where rings come from. */
  lemma MergeRings(f: Blocks, entry: Label, order: seq<Label>, edges: seq<Edge>, i: nat, j: nat)
    requires Listed(f, order) && InStep(f, edges) && i < |order| && OnlyEdge(edges, j, order[i])
    requires j < |edges| && Legal(f, entry, Merge(edges[j].src, order[i]))
    ensures var src, dst := edges[j].src, order[i];
            var g, moved := Apply(f, Merge(src, dst)), MoveSources(Removed(edges, j), dst, src);
      && (HasRing(f, edges, entry, order[i..]) ==> HasRing(g, moved, entry, Removed(order, i)[i..]))
      && (HasRing(g, moved, entry, Removed(order, i)) ==> HasRing(f, edges, entry, order))
      && (AllEntered(f, entry) ==> AllEntered(g, entry))
  {
    hide InStep, Legal, Apply, Ring, OnlyEdge, AllEntered;
    var src, dst := edges[j].src, order[i];
    var g, moved := Apply(f, Merge(src, dst)), MoveSources(Removed(edges, j), dst, src);
    assert edges[j] == Edge(src, dst) by {
      EdgeAt(edges, j, dst);
    }
    if HasRing(f, edges, entry, order[i..]) {
      var ring :| Ring(f, edges, entry, ring) && Within(ring, order[i..]);
      MergeRing(f, entry, edges, j, src, dst, ring);
      ShorterRing(g, moved, entry, order, i, ring);
    }
    if HasRing(g, moved, entry, Removed(order, i)) {
      var ring :| Ring(g, moved, entry, ring) && Within(ring, Removed(order, i));
      UnmergeRing(f, entry, edges, j, src, dst, ring);
      RingListed(f, edges, entry, order, if src in ring then ring + {dst} else ring);
    }
    if AllEntered(f, entry) {
      MergeEntered(f, entry, src, dst);
    }
  }

  lemma EdgeAt(edges: seq<Edge>, j: nat, t: Label)
    requires OnlyEdge(edges, j, t)
    ensures j < |edges| && edges[j] == Edge(edges[j].src, t)
  {
  }

  lemma ShorterRing(g: Blocks, edges: seq<Edge>, entry: Label, order: seq<Label>, i: nat, ring: set<Label>)
    requires i < |order| && Within(ring, order[i..]) && Ring(g, edges, entry, ring - {order[i]})
    ensures HasRing(g, edges, entry, Removed(order, i)[i..])
  {
    hide Ring;
    var shorter := ring - {order[i]};
    forall r | r in shorter
      ensures r in Removed(order, i)[i..]
    {
      InTail(order, i, r);
    }
  }

  lemma RingListed(f: Blocks, edges: seq<Edge>, entry: Label, order: seq<Label>, ring: set<Label>)
    requires Listed(f, order) && Ring(f, edges, entry, ring)
    ensures HasRing(f, edges, entry, order)
  {
    forall r | r in ring
      ensures r in order
    {
      IsMember(f, edges, entry, ring, r);
    }
  }

  lemma MergeEntered(f: Blocks, entry: Label, src: Label, dst: Label)
    requires Legal(f, entry, Merge(src, dst)) && AllEntered(f, entry)
    ensures AllEntered(Apply(f, Merge(src, dst)), entry)
  {
    var g := Apply(f, Merge(src, dst));
    forall l | l in g && l != entry
      ensures Entered(g, l)
    {
      assert Entered(f, l);
      var p :| p in f && l in f[p].last.succs;
      var q := if p == dst then src else p;
      assert q in g && l in g[q].last.succs;
    }
  }

  /** The same for a block that is deleted: it is entered by nothing, or empty and by itself only. */
  lemma DeleteRings(f: Blocks, entry: Label, order: seq<Label>, edges: seq<Edge>, i: nat)
    requires Listed(f, order) && InStep(f, edges) && i < |order| && Legal(f, entry, Delete(order[i]))
    requires Entered(f, order[i]) ==> f[order[i]].body == [] && IsBr(f[order[i]].last, order[i])
    ensures var g, less := Apply(f, Delete(order[i])), Without(edges, order[i]);
      && (HasRing(f, edges, entry, order[i..]) ==> HasRing(g, less, entry, Removed(order, i)[i..]))
      && (AllEntered(f, entry) && HasRing(g, less, entry, Removed(order, i)) ==> HasRing(f, edges, entry, order))
      && (AllEntered(f, entry) ==> AllEntered(g, entry))
  {
    hide InStep, Ring, AllEntered, Entered;
    var lbl := order[i];
    var g, less := Apply(f, Delete(lbl)), Without(edges, lbl);
    if HasRing(f, edges, entry, order[i..]) {
      var ring :| Ring(f, edges, entry, ring) && Within(ring, order[i..]);
      if lbl in ring {
        RingEntered(f, edges, entry, ring, lbl);
      }
      DeleteRing(f, entry, edges, lbl, ring);
      ShorterRing(g, less, entry, order, i, ring);
    }
    if AllEntered(f, entry) {
      EnteredIs(f, entry, lbl);
      if HasRing(g, less, entry, Removed(order, i)) {
        var ring :| Ring(g, less, entry, ring) && Within(ring, Removed(order, i));
        UndeleteRing(f, entry, edges, lbl, ring);
        RingListed(f, edges, entry, order, ring);
      }
      DeleteEntered(f, entry, lbl);
    }
  }

  lemma RingEntered(f: Blocks, edges: seq<Edge>, entry: Label, ring: set<Label>, r: Label)
    requires InStep(f, edges) && Ring(f, edges, entry, ring) && r in ring
    ensures Entered(f, r)
  {
    hide InStep, Ring;
    var p := RingEdge(f, edges, entry, ring, r);
  }

  lemma EnteredIs(f: Blocks, entry: Label, l: Label)
    requires AllEntered(f, entry) && l in f && l != entry
    ensures Entered(f, l)
  {
  }

  lemma DeleteEntered(f: Blocks, entry: Label, lbl: Label)
    requires Legal(f, entry, Delete(lbl)) && AllEntered(f, entry) && IsBr(f[lbl].last, lbl)
    ensures AllEntered(Apply(f, Delete(lbl)), entry)
  {
    var g := Apply(f, Delete(lbl));
    forall l | l in g && l != entry
      ensures Entered(g, l)
    {
      assert Entered(f, l);
      var p :| p in f && l in f[p].last.succs;
      assert p in g && l in g[p].last.succs;
    }
  }

  // ----- the passes -----

  class Graph {
    var blocks: Blocks
    var order: seq<Label>
    var edges: seq<Edge>

    ghost predicate Valid()
      reads this
    {
      Listed(blocks, order) && Fine(blocks, order[0]) && InStep(blocks, edges)
    }

    constructor (blocks: Blocks, order: seq<Label>, edges: seq<Edge>)
      requires Listed(blocks, order) && Fine(blocks, order[0]) && InStep(blocks, edges)
      ensures Valid() && this.blocks == blocks && this.order == order && this.edges == edges
    {
      this.blocks, this.order, this.edges := blocks, order, edges;
    }

    /** The first incoming edge of a block, and whether it is the only one. */
    method Incoming(lbl: Label) returns (any: bool, only: bool, j: nat)
      ensures any <==> exists k | 0 <= k < |edges| :: edges[k].dst == lbl
      ensures any ==> j < |edges| && edges[j].dst == lbl
      ensures any && only ==> forall k | 0 <= k < |edges| && edges[k].dst == lbl :: k == j
      ensures any && !only ==> exists k | 0 <= k < |edges| :: k != j && edges[k].dst == lbl
    {
      any, only, j := false, true, 0;
      for k := 0 to |edges|
        invariant any <==> exists i | 0 <= i < k :: edges[i].dst == lbl
        invariant any ==> j < k && edges[j].dst == lbl
        invariant any && only ==> forall i | 0 <= i < k && edges[i].dst == lbl :: i == j
        invariant any && !only ==> exists i | 0 <= i < k :: i != j && edges[i].dst == lbl
        invariant !any ==> only
      {
        if edges[k].dst == lbl {
          if any {
            only := false;
          } else {
            any, j := true, k;
          }
        }
      }
    }

    /** bb_destroy for the block at position i, which no other block enters. */
    method Destroy(i: nat)
      requires Valid() && 0 < i < |order| && NotEntered(blocks, order[i])
      modifies this
      ensures Valid() && blocks == Apply(old(blocks), Delete(old(order)[i])) && order == Removed(old(order), i)
      ensures edges == Without(old(edges), old(order)[i])
    {
      var lbl := order[i];
      assert order[0] != lbl;
      ApplyFine(blocks, order[0], Delete(lbl));
      DeleteInStep(blocks, order[0], edges, lbl);
      RemovedListed(blocks, blocks - {lbl}, order, i);
      order := Removed(order, i);
      edges := Without(edges, lbl);
      blocks := blocks - {lbl};
    }

    /** Moves the instructions and outgoing edges of the block at position i to its predecessor. */
    method MergeBlock(i: nat, j: nat)
      requires Valid() && 0 < i < |order| && j < |edges| && edges[j].dst == order[i]
      requires Legal(blocks, order[0], Merge(edges[j].src, order[i]))
      requires forall k | 0 <= k < |edges| && edges[k].dst == order[i] :: k == j
      modifies this
      ensures Valid() && blocks == Apply(old(blocks), Merge(old(edges)[j].src, old(order)[i]))
                && order == Removed(old(order), i)
      ensures edges == MoveSources(Removed(old(edges), j), old(order)[i], old(edges)[j].src)
    {
      var src, dst := edges[j].src, order[i];
      ApplyFine(blocks, order[0], Merge(src, dst));
      MergeInStep(blocks, order[0], edges, j, src, dst);
      RemovedListed(blocks, Apply(blocks, Merge(src, dst)), order, i);
      var merged := Block(blocks[src].phis, blocks[src].body + blocks[dst].body, blocks[dst].last);
      edges := MoveSources(Removed(edges, j), dst, src);
      blocks := (blocks - {dst})[src := merged];
      order := Removed(order, i);
    }

    /** The treatment of the block at position i in eliminate_dead_code.  Moving the instructions of
        a block whose only predecessor is itself never ends, unless there are none. */
    method Eliminate(i: nat, ghost reached: bool) returns (hangs: bool, kept: bool, ghost a: Action)
      requires Valid() && 0 < i < |order|
      requires reached ==> AllReached(blocks, order[0])
      modifies this
      ensures Valid() && order[0] == old(order)[0]
      ensures hangs <==> Stuck(old(blocks), old(edges), old(order)[i])
      ensures reached ==> !hangs && AllReached(blocks, order[0])
      ensures kept || hangs ==> blocks == old(blocks) && order == old(order) && edges == old(edges)
      ensures kept <==> Entered(old(blocks), old(order)[i]) && !Mergeable(old(blocks), old(edges), old(order)[i])
      ensures kept ==> !Mergeable(blocks, edges, order[i])
      ensures !kept && !hangs ==> a == Delete(old(order)[i]) || (a.Merge? && a.dst == old(order)[i])
      ensures !kept && !hangs ==> !a.Bypass? && Legal(old(blocks), order[0], a)
      ensures !kept && !hangs ==> blocks == Apply(old(blocks), a) && order == Removed(old(order), i)
      ensures reached && !kept ==>
                forall l | l in blocks && Mergeable(blocks, edges, l) :: Mergeable(old(blocks), old(edges), l)
      ensures !hangs && HasRing(old(blocks), old(edges), order[0], old(order)[i..]) ==>
                HasRing(blocks, edges, order[0], order[if kept then i + 1 else i..])
      ensures AllEntered(old(blocks), order[0]) ==> AllEntered(blocks, order[0])
      ensures AllEntered(old(blocks), order[0]) && HasRing(blocks, edges, order[0], order) ==>
                HasRing(old(blocks), old(edges), order[0], old(order))
    {
      hide Ring, AllEntered, InStep;
      hangs, kept, a := false, true, Delete(0);
      var lbl := order[i];
      KeptRing(blocks, order[0], order, edges, i);
      EnteredByEdge(blocks, edges, lbl);
      EdgesInside(blocks, edges);
      assert lbl in order && lbl != order[0];
      var any, only, j := Incoming(lbl);
      if !any {
        NoEdgeNotEntered(lbl);
        NotReached(lbl);
        a := Delete(lbl);
        StillReached(blocks, order[0], a);
        DeleteRings(blocks, order[0], order, edges, i);
        Destroy(i);
        kept := false;
      } else if only {
        assert OnlyEdge(edges, j, lbl);
        var src := edges[j].src;
        if !IsBr(blocks[src].last, lbl) {
          NotMergeable(blocks, edges, lbl, j, j);
        } else {
          OneEdgeOnlyFrom(lbl, j);
          if src == lbl {
            NotReached(lbl);
            if blocks[lbl].body == [] {
              a := Delete(lbl);
              StillReached(blocks, order[0], a);
              DeleteRings(blocks, order[0], order, edges, i);
              Destroy(i);
              kept := false;
            } else {
              hangs, kept := true, false;
            }
          } else {
            a := Merge(src, lbl);
            MergeInto(i, j);
            kept := false;
          }
        }
      } else {
        ghost var k: nat :| k < |edges| && k != j && edges[k].dst == lbl;
        NotMergeable(blocks, edges, lbl, j, k);
      }
    }

    /** The block at position i, whose only edge is the j-th, becomes part of its predecessor. */
    method MergeInto(i: nat, j: nat)
      requires Valid() && 0 < i < |order| && OnlyEdge(edges, j, order[i]) && j < |edges|
      requires Legal(blocks, order[0], Merge(edges[j].src, order[i]))
      modifies this
      ensures Valid() && blocks == Apply(old(blocks), Merge(old(edges)[j].src, old(order)[i]))
      ensures order == Removed(old(order), i) && order[0] == old(order)[0]
      ensures AllReached(old(blocks), order[0]) ==> AllReached(blocks, order[0])
      ensures forall l | l in blocks && Mergeable(blocks, edges, l) :: Mergeable(old(blocks), old(edges), l)
      ensures HasRing(old(blocks), old(edges), order[0], old(order)[i..]) ==>
                HasRing(blocks, edges, order[0], order[i..])
      ensures HasRing(blocks, edges, order[0], order) ==> HasRing(old(blocks), old(edges), order[0], old(order))
      ensures AllEntered(old(blocks), order[0]) ==> AllEntered(blocks, order[0])
    {
      hide Ring, AllEntered, InStep, HasRing, AllReached, Mergeable;
      ghost var f, was, entry, src, lbl := blocks, edges, order[0], edges[j].src, order[i];
      StillReached(f, entry, Merge(src, lbl));
      MergeRings(f, entry, order, was, i, j);
      MergeBlock(i, j);
      MergedGone(f, src, lbl);
      forall l | l in blocks && Mergeable(blocks, edges, l)
        ensures Mergeable(f, was, l)
      {
        MergeSettles(f, entry, was, j, src, lbl, l);
      }
    }

    static lemma MergedGone(f: Blocks, src: Label, dst: Label)
      requires src in f && dst in f && src != dst
      ensures dst !in Apply(f, Merge(src, dst))
    {
    }

    /** A block that nothing but itself enters is not reached. */
    lemma NotReached(lbl: Label)
      requires Valid() && lbl != order[0] && NotEntered(blocks, lbl) && lbl in blocks
      ensures !AllReached(blocks, order[0])
    {
      forall n: nat
        ensures !ReachedIn(blocks, order[0], lbl, n)
      {
        SelfNotReached(blocks, order[0], lbl, n);
      }
    }

    lemma NoEdgeNotEntered(lbl: Label)
      requires Valid() && !exists k | 0 <= k < |edges| :: edges[k].dst == lbl
      ensures NotEntered(blocks, lbl) && !Entered(blocks, lbl)
    {
      forall l | l in blocks
        ensures lbl !in blocks[l].last.succs
      {
        assert lbl in blocks[l].last.succs ==> Edge(l, lbl) in edges;
      }
    }

    lemma OneEdgeOnlyFrom(lbl: Label, j: nat)
      requires Valid() && j < |edges| && forall k | 0 <= k < |edges| && edges[k].dst == lbl :: k == j
      ensures OnlyFrom(blocks, edges[j].src, lbl)
    {
      forall l | l in blocks && lbl in blocks[l].last.succs
        ensures l == edges[j].src
      {
        assert Edge(l, lbl) in edges;
      }
    }

    /** eliminate_dead_code as far as it changes blocks.  It does not end if there is a ring; if some
        block enters every block but the first, exactly then.  If every block is reachable it ends, and
        nothing is left to merge. */
    method EliminateDeadCode() returns (hangs: bool, ghost trail: seq<Action>)
      requires Valid()
      modifies this
      ensures Valid() && order[0] == old(order)[0]
      ensures hangs ==> exists k :: 0 < k < |order| && Stuck(blocks, edges, order[k])
      ensures HasRing(old(blocks), old(edges), old(order)[0], old(order)) ==> hangs
      ensures AllEntered(old(blocks), old(order)[0]) && hangs ==>
                HasRing(old(blocks), old(edges), old(order)[0], old(order))
      ensures AllReached(old(blocks), old(order)[0]) ==>
                !hangs && forall k | 0 < k < |order| :: !Mergeable(blocks, edges, order[k])
      ensures AllLegal(old(blocks), old(order)[0], trail) && blocks == ApplyAll(old(blocks), trail)
      ensures EntryAll(old(order)[0], trail) == order[0] && forall k | 0 <= k < |trail| :: !trail[k].Bypass?
      ensures !hangs ==> forall k | 0 < k < |order| :: Entered(old(blocks), order[k])
    {
      hide Legal, Apply, Fine, InStep, AllReached, AllEntered, Mergeable, Stuck, HasRing, Entered, AllLegal, ApplyAll,
        EntryAll;
      TrailStart(blocks, order[0]);
      hangs, trail := false, [];
      ghost var entered := AllEntered(blocks, order[0]);
      ghost var ring := HasRing(blocks, edges, order[0], order);
      KeptRing(blocks, order[0], order, edges, 0);
      assert order[0..] == order;
      ghost var f, entry, reached := blocks, order[0], AllReached(blocks, order[0]);
      var i := 1;
      while i < |order|
        invariant Valid() && 1 <= i <= |order| && order[0] == entry
        invariant AllLegal(f, entry, trail) && blocks == ApplyAll(f, trail) && EntryAll(entry, trail) == entry
        invariant forall k | 0 <= k < |trail| :: !trail[k].Bypass?
        invariant forall l | Entered(blocks, l) :: Entered(f, l)
        invariant forall k | 0 < k < i :: Entered(f, order[k])
        invariant ring ==> HasRing(blocks, edges, entry, order[i..])
        invariant entered ==> AllEntered(blocks, entry) && (HasRing(blocks, edges, entry, order) ==> ring)
        invariant reached ==> AllReached(blocks, entry) && forall k | 0 < k < i :: !Mergeable(blocks, edges, order[k])
        decreases |order| - i
      {
        ghost var a;
        var kept;
        ghost var order0, blocks0 := order, blocks;
        hangs, kept, a := Eliminate(i, reached);
        if hangs {
          StuckRing(blocks, entry, order, edges, i);
          return;
        }
        if kept {
          i := i + 1;
        } else {
          assert forall k | 0 < k < i :: order[k] == order0[k] && order[k] in order;
          forall l | Entered(blocks, l)
            ensures Entered(f, l)
          {
            EnteredBefore(blocks0, entry, a, l);
          }
          TrailPush(f, entry, trail, a);
          trail := trail + [a];
        }
      }
      NoRing(blocks, entry, edges);
      assert order[i..] == [];
    }

    /** Redirects every predecessor of lbl with bb_change_branch. */
    method ChangeBranches(lbl: Label, target: Label)
      requires Valid() && lbl in blocks && lbl != target
      modifies this`blocks, this`edges
      ensures blocks == RetargetAll(old(blocks), lbl, target)
      ensures edges == MoveTargets(old(edges), lbl, target)
    {
      hide Retarget, InStep, Listed, Fine;
      ghost var f, was := blocks, edges;
      EdgesInside(f, was);
      for j := 0 to |edges|
        invariant |edges| == |was| && blocks.Keys == f.Keys
        invariant forall k | 0 <= k < |was| ::
                  edges[k] == if k < j && was[k].dst == lbl then was[k].(dst := target) else was[k]
        invariant forall l | l in f :: blocks[l] == f[l] || blocks[l] == Retarget(f[l], lbl, target)
        invariant forall k | 0 <= k < j && was[k].dst == lbl ::
                  blocks[was[k].src] == Retarget(f[was[k].src], lbl, target)
      {
        if edges[j].dst == lbl {
          var src := edges[j].src;
          assert edges[j] == was[j];
          RetargetTwice(f[src], lbl, target);
          blocks := blocks[src := Retarget(blocks[src], lbl, target)];
          edges := edges[j := edges[j].(dst := target)];
        }
      }
      forall l | l in f
        ensures blocks[l] == Retarget(f[l], lbl, target)
      {
        if lbl in f[l].last.succs {
          EdgeFor(f, was, l, lbl);
        } else {
          RetargetNothing(f[l], lbl, target);
        }
      }
    }

    /** The treatment of the block at position i in remove_empty_bb. */
    method BypassBlock(i: nat, target: Label)
      requires Valid() && i < |order| && Legal(blocks, order[0], Bypass(order[i], target))
      modifies this
      ensures Valid() && blocks == Apply(old(blocks), Bypass(old(order)[i], target)) && order == Removed(old(order), i)
    {
      hide Legal, InStep, Fine, Listed, RetargetAll;
      var lbl := order[i];
      ghost var f := blocks;
      ReadyToBypass(f, order, edges, i, target);
      ChangeBranches(lbl, target);
      edges := Without(edges, lbl);
      blocks := blocks - {lbl};
      order := Removed(order, i);
    }

    /** remove_empty_bb.  If the first block is bypassed, the next one in the list becomes the entry.
        That is right exactly if, of the blocks that are left over, the first in the list is the one
        that branch-only blocks lead to from the old entry. */
    method RemoveEmpty() returns (ghost trail: seq<Action>)
      requires Valid()
      modifies this
      ensures Valid()
      ensures AllLegal(old(blocks), old(order)[0], trail) && blocks == ApplyAll(old(blocks), trail)
      ensures order[0] == EntryAll(old(order)[0], trail) <==>
                EntryLeadsToFirst(Forwards(old(blocks)), old(order), old(order)[0])
      ensures forall l | l in blocks :: Kept(blocks, l)
      ensures forall k | 0 <= k < |trail| :: trail[k].Bypass?
    {
      hide Legal, Apply, Fine, InStep, Forwards, EntryLeadsToFirst, Bypassable;
      trail := [];
      ghost var f, entry, right := blocks, order[0], EntryLeadsToFirst(Forwards(blocks), order, order[0]);
      var i := 0;
      while i < |order|
        invariant Valid() && AllLegal(f, entry, trail) && blocks == ApplyAll(f, trail) && i <= |order|
        invariant right <==> EntryLeadsToFirst(Forwards(blocks), order, EntryAll(entry, trail))
        invariant forall k | 0 <= k < i :: Kept(blocks, order[k])
        invariant forall k | 0 <= k < |trail| :: trail[k].Bypass?
        decreases |order| - i
      {
        var lbl := order[i];
        assert lbl in order;
        if Bypassable(blocks, lbl) && OnlyTarget(blocks, lbl) != lbl {
          var target := OnlyTarget(blocks, lbl);
          ghost var e := EntryAll(entry, trail);
          BypassLegal(lbl, target, e);
          ghost var blocks0, order0 := blocks, order;
          EntryListed(f, entry, trail);
          StepKeepsEntry(blocks0, order0, i, target, e);
          BypassBlock(i, target);
          TrailPush(f, entry, trail, Bypass(lbl, target));
          StillKept(blocks0, order0, i, target);
          trail := trail + [Bypass(lbl, target)];
        } else {
          i := i + 1;
        }
      }
      assert forall l | l in blocks :: l in order && Kept(blocks, l);
      EntryListed(f, entry, trail);
      NothingForwards(blocks, order, EntryAll(entry, trail));
    }

    lemma BypassLegal(lbl: Label, target: Label, entry: Label)
      requires Valid() && lbl in blocks && Bypassable(blocks, lbl) && blocks[lbl].last.succs == [target]
                && target != lbl
      ensures Legal(blocks, order[0], Bypass(lbl, target)) && Legal(blocks, entry, Bypass(lbl, target))
    {
      assert blocks[lbl].last.succs[0] in blocks;
    }
  }

  lemma EdgesInside(f: Blocks, edges: seq<Edge>)
    requires InStep(f, edges)
    ensures forall j | 0 <= j < |edges| :: edges[j].src in f
  {
  }

  lemma EdgeFor(f: Blocks, edges: seq<Edge>, l: Label, t: Label)
    requires InStep(f, edges) && l in f && t in f[l].last.succs
    ensures exists k :: 0 <= k < |edges| && edges[k] == Edge(l, t)
  {
    assert Edge(l, t) in edges;
  }

  function MoveTargets(edges: seq<Edge>, was: Label, nb: Label): (r: seq<Edge>)
    ensures |r| == |edges| && forall j | 0 <= j < |edges| ::
              r[j] == if edges[j].dst == was then edges[j].(dst := nb) else edges[j]
  {
    seq(|edges|, j requires 0 <= j < |edges| => if edges[j].dst == was then edges[j].(dst := nb) else edges[j])
  }

  /** What BypassBlock needs: the list, the blocks and the edges afterwards are right. */
  lemma ReadyToBypass(f: Blocks, order: seq<Label>, edges: seq<Edge>, i: nat, target: Label)
    requires Listed(f, order) && Fine(f, order[0]) && InStep(f, edges) && i < |order|
    requires Legal(f, order[0], Bypass(order[i], target))
    ensures |order| > 1 && order[i] in f && order[i] != target
    ensures var lbl, rest := order[i], Removed(order, i);
            var g := Apply(f, Bypass(lbl, target));
      && g == RetargetAll(f, lbl, target) - {lbl}
      && Listed(g, rest) && Fine(g, rest[0]) && InStep(g, Without(MoveTargets(edges, lbl, target), lbl))
  {
    hide InStep, Fine, Retarget;
    var lbl := order[i];
    TwoListed(f, order, lbl, target);
    ApplyFine(f, order[0], Bypass(lbl, target));
    BypassInStep(f, order[0], edges, lbl, target);
    var g, rest := Apply(f, Bypass(lbl, target)), Removed(order, i);
    RemovedListed(f, g, order, i);
    assert rest[0] in rest;
    FineAnywhere(g, EntryAfter(Bypass(lbl, target), order[0]), rest[0]);
  }

  lemma FineAnywhere(f: Blocks, entry: Label, l: Label)
    requires Fine(f, entry) && l in f
    ensures Fine(f, l)
  {
  }

  lemma RetargetTwice(b: Block, was: Label, nb: Label)
    requires was != nb
    ensures Retarget(Retarget(b, was, nb), was, nb) == Retarget(b, was, nb)
  {
    var r := Retarget(b, was, nb).last;
    assert RedirectAll(r.succs, was, nb) == r.succs;
  }

  lemma RetargetNothing(b: Block, was: Label, nb: Label)
    requires was !in b.last.succs
    ensures Retarget(b, was, nb) == b
  {
    assert RedirectAll(b.last.succs, was, nb) == b.last.succs;
  }

  lemma TwoListed(f: Blocks, order: seq<Label>, a: Label, b: Label)
    requires Listed(f, order) && a in f && b in f && a != b
    ensures |order| > 1
  {
    assert a in order && b in order;
  }

  /** Edges still match after a bypass: incoming ones are moved, the outgoing one is gone. */
  lemma BypassInStep(f: Blocks, entry: Label, edges: seq<Edge>, lbl: Label, target: Label)
    requires Legal(f, entry, Bypass(lbl, target)) && InStep(f, edges)
    ensures InStep(Apply(f, Bypass(lbl, target)), Without(MoveTargets(edges, lbl, target), lbl))
  {
    var g, moved := Apply(f, Bypass(lbl, target)), MoveTargets(edges, lbl, target);
    var r := Without(moved, lbl);
    hide Without, MoveTargets;
    forall k | 0 <= k < |r|
      ensures r[k].src in g && r[k].dst in g[r[k].src].last.succs
    {
      assert r[k] in r;
      var i :| 0 <= i < |moved| && moved[i] == r[k];
      Redirected(f[edges[i].src].last, edges[i].dst, lbl, target);
    }
    forall l, t | l in g && t in g[l].last.succs
      ensures Edge(l, t) in r
    {
      var u := RedirectedFrom(f[l].last, t, lbl, target);
      assert Edge(l, u) in edges;
      var i :| 0 <= i < |edges| && edges[i] == Edge(l, u);
      assert moved[i] == Edge(l, t);
    }
  }

  lemma Redirected(last: Last, t: Label, was: Label, nb: Label)
    requires t in last.succs
    ensures (if t == was then nb else t) in Redirect(last, was, nb).succs
  {
    var x :| 0 <= x < |last.succs| && last.succs[x] == t;
    assert Redirect(last, was, nb).succs[x] == if t == was then nb else t;
  }

  lemma RedirectedFrom(last: Last, t: Label, was: Label, nb: Label) returns (u: Label)
    requires t in Redirect(last, was, nb).succs && was != nb
    ensures u in last.succs && t == if u == was then nb else u
    ensures t != was
  {
    var x :| 0 <= x < |last.succs| && Redirect(last, was, nb).succs[x] == t;
    u := last.succs[x];
  }

  /** A block whose first instruction is an unconditional branch. */
  predicate Bypassable(f: Blocks, l: Label)
    requires l in f
  {
    f[l].body == [] && f[l].last.Jump? && |f[l].last.succs| == 1 && IsBr(f[l].last, f[l].last.succs[0])
  }

  predicate Kept(f: Blocks, l: Label) {
    l in f && (!Bypassable(f, l) || f[l].last.succs == [l])
  }

  function OnlyTarget(f: Blocks, l: Label): (t: Label)
    requires l in f && Bypassable(f, l)
    ensures IsBr(f[l].last, t)
  {
    f[l].last.succs[0]
  }

  /** Where blocks forward control without doing anything. */
  function Forwards(f: Blocks): (h: map<Label, Label>)
    ensures h.Keys == f.Keys
  {
    map l | l in f :: if Bypassable(f, l) then OnlyTarget(f, l) else l
  }

  lemma BypassForwards(f: Blocks, entry: Label, lbl: Label, target: Label)
    requires Fine(f, entry) && Legal(f, entry, Bypass(lbl, target))
    ensures Inside(Forwards(f)) && Forwards(f)[lbl] == target != lbl
    ensures Forwards(Apply(f, Bypass(lbl, target))) == Contract(Forwards(f), lbl)
  {
    hide Redirect, Apply, Retarget, Bypassable, Inside;
    ForwardsInside(f, entry);
    var h, g := Forwards(f), Apply(f, Bypass(lbl, target));
    ApplyBypass(f, lbl, target);
    BypassableNow(f, entry, lbl, target);
    forall l | l in g
      ensures Forwards(g)[l] == Contract(h, lbl)[l]
    {
      RedirectedTarget(f, g, l, lbl, target);
    }
  }

  lemma ForwardsInside(f: Blocks, entry: Label)
    requires Fine(f, entry)
    ensures Inside(Forwards(f))
  {
    forall l | l in f
      ensures Forwards(f)[l] in f
    {
      assert Bypassable(f, l) ==> f[l].last.succs[0] in f;
    }
  }

  lemma BypassableNow(f: Blocks, entry: Label, lbl: Label, target: Label)
    requires Legal(f, entry, Bypass(lbl, target))
    ensures lbl in f && target != lbl && Bypassable(f, lbl) && OnlyTarget(f, lbl) == target
  {
  }

  lemma ApplyBypass(f: Blocks, lbl: Label, target: Label)
    ensures var g := Apply(f, Bypass(lbl, target));
            g.Keys == f.Keys - {lbl} && forall l | l in g :: g[l] == Retarget(f[l], lbl, target)
  {
  }

  lemma RedirectedTarget(f: Blocks, g: Blocks, l: Label, was: Label, nb: Label)
    requires l in f && l in g && g[l] == Retarget(f[l], was, nb)
    ensures Bypassable(g, l) <==> Bypassable(f, l)
    ensures Bypassable(f, l) ==> OnlyTarget(g, l) == if OnlyTarget(f, l) == was then nb else OnlyTarget(f, l)
  {
  }

  /** Bypassing the block at position i does not change whether the entry is right in the end. */
  lemma StepKeepsEntry(f: Blocks, order: seq<Label>, i: nat, target: Label, entry: Label)
    requires Listed(f, order) && i < |order| && entry in f && Fine(f, order[0])
              && Legal(f, order[0], Bypass(order[i], target))
    requires forall k | 0 <= k < i :: Kept(f, order[k])
    ensures var a := Bypass(order[i], target);
            EntryLeadsToFirst(Forwards(Apply(f, a)), Removed(order, i), EntryAfter(a, entry))
            <==> EntryLeadsToFirst(Forwards(f), order, entry)
  {
    hide *;
    BypassForwards(f, order[0], order[i], target);
    BypassNext(f, order, i, target);
    ContractKeeps(Forwards(f), order, i, entry);
    AfterBypass(order[i], target, entry);
  }

  lemma AfterBypass(lbl: Label, target: Label, entry: Label)
    ensures EntryAfter(Bypass(lbl, target), entry) == if entry == lbl then target else entry
  {
  }

  lemma BypassNext(f: Blocks, order: seq<Label>, i: nat, target: Label)
    requires Listed(f, order) && i < |order| && Inside(Forwards(f))
              && (order[i] in f ==> Forwards(f)[order[i]] != order[i])
    requires forall k | 0 <= k < i :: Kept(f, order[k])
    ensures order[i] in f && DoneBefore(Forwards(f), order, i)
  {
    hide Inside;
    assert order[i] in order;
    forall k | 0 <= k < i
      ensures Forwards(f)[order[k]] == order[k]
    {
      KeptForwards(f, order[k]);
    }
  }

  lemma KeptForwards(f: Blocks, l: Label)
    requires Kept(f, l)
    ensures Forwards(f)[l] == l
  {
  }

  lemma EntryListed(f: Blocks, entry: Label, trail: seq<Action>)
    requires Fine(f, entry) && AllLegal(f, entry, trail)
    ensures EntryAll(entry, trail) in ApplyAll(f, trail)
  {
    hide AllLegal;
    TrailFine(f, entry, trail);
  }

  lemma NothingForwards(f: Blocks, order: seq<Label>, entry: Label)
    requires Listed(f, order) && entry in f && forall l | l in f :: Kept(f, l)
    ensures EntryLeadsToFirst(Forwards(f), order, entry) <==> entry == order[0]
  {
    hide EntryLeadsToFirst;
    AllLeft(Forwards(f), order, entry);
  }

  /** A block that was kept is kept on: only its successors can have changed. */
  lemma StillKept(f: Blocks, order: seq<Label>, i: nat, target: Label)
    requires Listed(f, order) && i < |order| && !Kept(f, order[i]) && f[order[i]].last.succs == [target]
    requires forall k | 0 <= k < i :: Kept(f, order[k])
    ensures forall k | 0 <= k < i :: Kept(Apply(f, Bypass(order[i], target)), Removed(order, i)[k])
  {
    forall k | 0 <= k < i
      ensures Kept(Apply(f, Bypass(order[i], target)), order[k])
    {
      assert Kept(f, order[k]) && order[k] != order[i];
      assert f[order[k]].last.succs == [order[k]] ==> RedirectAll([order[k]], order[i], target) == [order[k]];
    }
  }

  // ----- a block that is stuck -----

  function StuckBlocks(s: Stmt): (r: Blocks) {
    map[0 := ReturnOf(0), 1 := Block([], [s], Jump(BRANCH, [], [1]))]
  }

  lemma StuckShape(s: Stmt)
    ensures Listed(StuckBlocks(s), [0, 1]) && Fine(StuckBlocks(s), 0) && InStep(StuckBlocks(s), [Edge(1, 1)])
    ensures Stuck(StuckBlocks(s), [Edge(1, 1)], 1)
  {
    var f, edges := StuckBlocks(s), [Edge(1, 1)];
    assert OnlyEdge(edges, 0, 1);
    assert edges[0] in edges;
  }

  /** An unreachable block that computes something and branches to itself: eliminate_dead_code hangs. */
  lemma UnreachableLoopIsStuck(s: Stmt)
    ensures Listed(StuckBlocks(s), [0, 1]) && Fine(StuckBlocks(s), 0) && InStep(StuckBlocks(s), [Edge(1, 1)])
    ensures Stuck(StuckBlocks(s), [Edge(1, 1)], 1) && HasRing(StuckBlocks(s), [Edge(1, 1)], 0, [0, 1])
  {
    hide StuckBlocks, HasRing, Stuck, Listed, Fine, InStep;
    StuckShape(s);
    StuckRing(StuckBlocks(s), 0, [0, 1], [Edge(1, 1)], 1);
  }

  // ----- the entry -----

  function ReturnOf(v: Id): (r: Block) {
    Block([], [], Jump(1, [v], []))
  }

  /** Three blocks: the entry branches to the last one. */
  function BadEntry(): (r: Blocks) {
    map[0 := Block([], [], Jump(BRANCH, [], [2])), 1 := ReturnOf(1), 2 := ReturnOf(2)]
  }

  /** When the target does not follow the entry, bypassing the entry makes another block the first:
      here the function returns another value. */
  lemma BypassedEntryIsWrong<W>(m: Machine<W>, env: Env, world: W)
    requires Read(env, 1) != Read(env, 2)
    ensures Legal(BadEntry(), 0, Bypass(0, 2)) && !EntryLeadsToFirst(Forwards(BadEntry()), [0, 1, 2], 0)
    ensures Run(m, BadEntry(), At(0, env, world), 2) == Done([Read(env, 2)], world)
    ensures Run(m, Apply(BadEntry(), Bypass(0, 2)), At(1, env, world), 1) == Done([Read(env, 1)], world)
    ensures Run(m, BadEntry(), At(0, env, world), 2) != Run(m, Apply(BadEntry(), Bypass(0, 2)), At(1, env, world), 1)
  {
    hide EntryLeadsToFirst, BadEntry, Apply, Legal, StepBlock;
    BadEntryIsNot();
    BadEntryIs();
    var f := BadEntry();
    var g := Apply(f, Bypass(0, 2));
    ThroughEmpty(m, f, 0, 2, At(0, env, world));
    OneStep(m, f, At(0, env, world));
    assert Run(m, f, At(0, env, world), 2) == StepBlock(m, f, At(2, env, world));
    Returns(m, f, 2, 2, env, world);
    OneStep(m, g, At(1, env, world));
    Returns(m, g, 1, 1, env, world);
    assert [Read(env, 1)][0] != [Read(env, 2)][0];
  }

  lemma BadEntryIs()
    ensures var f, g := BadEntry(), Apply(BadEntry(), Bypass(0, 2));
      && Legal(f, 0, Bypass(0, 2)) && NoPhis(f) && 0 in f && f[0].body == [] && IsBr(f[0].last, 2)
      && 1 in g && g[1] == ReturnOf(1) && 2 in f && f[2] == ReturnOf(2)
  {
    RetargetNothing(ReturnOf(1), 0, 2);
  }

  lemma BadEntryIsNot()
    ensures !EntryLeadsToFirst(Forwards(BadEntry()), [0, 1, 2], 0)
  {
    hide Leads, LeftOver;
    var h, order := Forwards(BadEntry()), [0, 1, 2];
    assert h == map[0 := 2, 1 := 1, 2 := 2];
    FixedIsLeft(h, order, order[1]);
    LeadsStep(h, 0, 1);
    FixedLeads(h, 2, 1);
    LeadsStep(h, 2, 0);
    FixedLeads(h, 2, 0);
    NotOnLoop(h, order, 0);
  }

  function CommonTarget(v: Id): (f: Blocks) {
    map[0 := Block([], [], Jump(BRANCH, [], [2])), 1 := Block([], [], Jump(BRANCH, [], [2])), 2 := ReturnOf(v)]
  }

  /** Two branch-only blocks in front of their common target, as splitting an edge leaves them: the
      entry is bypassed and the right block becomes the first. */
  method CommonTargetIsRight(v: Id) returns (g: Graph, ghost trail: seq<Action>)
    ensures AllLegal(CommonTarget(v), 0, trail) && g.blocks == ApplyAll(CommonTarget(v), trail)
    ensures g.order != [] && g.order[0] == EntryAll(0, trail)
  {
    hide EntryLeadsToFirst, Forwards, AllLegal, ApplyAll;
    CommonTargetFine(v);
    g := new Graph(CommonTarget(v), [0, 1, 2], [Edge(0, 2), Edge(1, 2)]);
    CommonTargetLeads(v);
    trail := g.RemoveEmpty();
  }

  lemma CommonTargetFine(v: Id)
    ensures var f, order, edges := CommonTarget(v), [0, 1, 2], [Edge(0, 2), Edge(1, 2)];
            Listed(f, order) && Fine(f, 0) && InStep(f, edges)
  {
    assert Edge(0, 2) in [Edge(0, 2), Edge(1, 2)] && Edge(1, 2) in [Edge(0, 2), Edge(1, 2)];
  }

  lemma CommonTargetLeads(v: Id)
    ensures EntryLeadsToFirst(Forwards(CommonTarget(v)), [0, 1, 2], 0)
  {
    hide Leads, LeftOver;
    var h, order := Forwards(CommonTarget(v)), [0, 1, 2];
    assert h == map[0 := 2, 1 := 2, 2 := 2];
    FixedIsLeft(h, order, order[2]);
    LeadsStep(h, 0, 2);
    FixedLeads(h, 2, 2);
    FixedLeads(h, 2, 0);
    FixedLeads(h, 2, 1);
    NotOnLoop(h, order, 0);
    NotOnLoop(h, order, 1);
    assert FirstLeft(h, order, 2) && Leads(h, 0, order[2]);
  }

  lemma NotOnLoop(h: map<Label, Label>, order: seq<Label>, l: Label)
    requires l in h && !Leads(h, h[l], l)
    ensures !LeftOver(h, order, l)
  {
  }

  lemma Returns<W>(m: Machine<W>, f: Blocks, l: Label, v: Id, env: Env, world: W)
    requires l in f && f[l] == ReturnOf(v)
    ensures StepBlock(m, f, At(l, env, world)) == Done([Read(env, v)], world)
  {
    ExecNothing(m, Local(env, world));
    assert ReadAll(env, [v]) == [Read(env, v)];
  }
}
