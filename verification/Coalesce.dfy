/** The second half of coalesce: copies between values that do not interfere are deleted and
    the two values become one. */
module Coalesce {
  import opened Code
  import opened Bits
  import opened Interference

  /** The value that t has been merged into. */
  function RepOf(rep: seq<Temp>, t: Temp): (r: Temp) {
    if t < |rep| then rep[t] else t
  }

  function RenameAll(rep: seq<Temp>, ts: seq<Temp>): (r: seq<Temp>)
    ensures |r| == |ts|
  {
    seq(|ts|, k requires 0 <= k < |ts| => RepOf(rep, ts[k]))
  }

  function Rename(rep: seq<Temp>, ins: Instr): (r: Instr) {
    ins.(defs := RenameAll(rep, ins.defs), uses := RenameAll(rep, ins.uses))
  }

  predicate IsCopy(ins: Instr) {
    ins.kind.Move? && |ins.defs| == 1 && |ins.uses| == 1
  }

  /** Identification of values below n. */
  predicate IsQuotient(rep: seq<Temp>, n: nat) {
    |rep| == n && forall t | 0 <= t < n :: rep[t] < n && rep[rep[t]] == rep[t]
  }

  /** h is the image of g when every value is replaced by its representative. */
  ghost predicate IsImage(g: Graph, rep: seq<Temp>, h: Graph) {
    && |h| == |g| == |rep|
    && (forall x, y {:trigger y in g[x]} | 0 <= x < |g| && y in g[x] ::
          y < |g| && rep[x] < |g| && rep[y] in h[rep[x]])
    && (forall a, b {:trigger b in h[a]} | 0 <= a < |h| && b in h[a] :: HasPreimage(g, rep, a, b))
  }

  ghost predicate HasPreimage(g: Graph, rep: seq<Temp>, a: Temp, b: Temp)
    requires |g| == |rep|
  {
    exists x, y :: 0 <= x < |g| && 0 <= y < |g| && y in g[x] && rep[x] == a && rep[y] == b
  }

  /** What an instruction becomes: its values replaced by their representatives, unless it was
      a copy between values that are now the same and has been removed. */
  ghost predicate RewrittenAt(ins0: Instr, ins: Instr, rep: seq<Temp>) {
    || ins == Rename(rep, ins0)
    || (ins == GONE && IsCopy(ins0) && RepOf(rep, ins0.defs[0]) == RepOf(rep, ins0.uses[0]))
  }

  ghost predicate Rewritten(code0: seq<Instr>, code: seq<Instr>, rep: seq<Temp>) {
    && |code| == |code0|
    && forall pc | 0 <= pc < |code| :: RewrittenAt(code0[pc], code[pc], rep)
  }

  /** The relation when the merge of killed into saved has done the columns below i. */
  ghost function Merged(g: Graph, killed: Temp, saved: Temp, i: nat): (h: Graph)
    requires killed < |g|
    ensures |h| == |g|
  {
    seq(|g|, a requires 0 <= a < |g| =>
      if a == killed then set b | b in g[killed] && b >= i
      else if a == saved then g[a] + set b | b in g[killed] && b < i
      else if a < i && killed in g[a] then g[a] - {killed} + {saved}
      else g[a])
  }

  lemma MergedStart(g: Graph, killed: Temp, saved: Temp)
    requires killed < |g| && saved < |g|
    ensures Merged(g, killed, saved, 0) == g
  {
    var m := Merged(g, killed, saved, 0);
    forall a | 0 <= a < |g|
      ensures m[a] == g[a]
    {
      if a == saved {
        assert g[a] + {} == g[a];
      }
    }
  }

  lemma MergedStep(g: Graph, killed: Temp, saved: Temp, i: nat)
    requires Symmetric(g) && Irreflexive(g) && killed < |g| && saved < |g| && i < |g|
    requires killed != saved && killed !in g[saved]
    ensures i in Merged(g, killed, saved, i)[killed] <==> i in g[killed]
    ensures i in g[killed] ==>
      && i != killed && i != saved
      && Merged(g, killed, saved, i + 1) == Connected(Disconnected(Merged(g, killed, saved, i), killed, i), saved, i)
      && killed in Merged(g, killed, saved, i)[i]
    ensures i !in g[killed] ==> Merged(g, killed, saved, i + 1) == Merged(g, killed, saved, i)
  {
    var m, m' := Merged(g, killed, saved, i), Merged(g, killed, saved, i + 1);
    assert i in g[killed] <==> killed in g[i];
    assert saved !in g[killed];
    if i in g[killed] {
      var c := Connected(Disconnected(m, killed, i), saved, i);
      forall a | 0 <= a < |g|
        ensures m'[a] == c[a]
      {
      }
    } else {
      forall a | 0 <= a < |g|
        ensures m'[a] == m[a]
      {
      }
    }
  }

  ghost predicate CountedExcept(g: Graph, edges: seq<int>, killed: Temp) {
    |g| == |edges| && forall z | 0 <= z < |g| && z != killed :: edges[z] == |g[z]|
  }

  lemma CountMerge(g: Graph, e: seq<int>, killed: Temp, saved: Temp, i: nat)
    requires Symmetric(g) && killed < |g| && saved < |g| && i < |g|
    requires killed != saved && i != killed && i != saved && i in g[killed]
    requires CountedExcept(g, e, killed)
    ensures i in Disconnected(g, killed, i)[saved] <==> i in g[saved]
    ensures i in g[saved] ==> CountedExcept(Connected(Disconnected(g, killed, i), saved, i), e[i := e[i] + -1], killed)
    ensures i in g[saved] ==> Connected(Disconnected(g, killed, i), saved, i) == Disconnected(g, killed, i)
    ensures i !in g[saved] ==>
              CountedExcept(Connected(Disconnected(g, killed, i), saved, i), e[saved := e[saved] + 1], killed)
  {
    var h := Disconnected(g, killed, i);
    assert killed in g[i] && (saved in g[i] <==> i in g[saved]);
    if i in g[saved] {
      assert h[saved] + {i} == h[saved] && h[i] + {saved} == h[i];
    }
  }

  method Bump(a: array<int>, i: nat, d: int)
    requires i < a.Length
    modifies a
    ensures a[..] == old(a[..])[i := old(a[i]) + d]
  {
    a[i] := a[i] + d;
  }

  lemma MatrixSymmetric(mtx: TriMatrix)
    requires mtx.Valid()
    ensures Symmetric(mtx.rel) && |mtx.rel| == mtx.size
  {
  }

  /** One column of the merge: what killed is related to, saved is related to instead. */
  method MergeOne(mtx: TriMatrix, edges: array<int>, killed: Temp, saved: Temp, i: nat)
    requires mtx.Valid() && mtx.size == edges.Length && killed < mtx.size && saved < mtx.size && i < mtx.size
    requires killed != saved && i != killed && i != saved && i in mtx.rel[killed]
    requires CountedExcept(mtx.rel, edges[..], killed)
    modifies mtx, mtx.words, edges
    ensures mtx.Valid() && mtx.rel == Connected(Disconnected(old(mtx.rel), killed, i), saved, i)
    ensures CountedExcept(mtx.rel, edges[..], killed)
  {
    hide Connected, Disconnected, CountedExcept, Symmetric;
    MatrixSymmetric(mtx);
    ghost var e := edges[..];
    CountMerge(mtx.rel, e, killed, saved, i);
    mtx.Clr(killed, i);
    var s := mtx.Get(saved, i);
    if !s {
      mtx.Set(saved, i);
      Bump(edges, saved, 1);
    } else {
      Bump(edges, i, -1);
    }
  }

  /** One turn of the merge loop. */
  method MergeColumn(mtx: TriMatrix, edges: array<int>, killed: Temp, saved: Temp, i: nat, ghost g: Graph)
    requires mtx.Valid() && mtx.size == edges.Length && killed < mtx.size && saved < mtx.size && i < mtx.size
    requires |g| == mtx.size && killed != saved && Symmetric(g) && Irreflexive(g) && killed !in g[saved]
    requires mtx.rel == Merged(g, killed, saved, i)
    requires CountedExcept(mtx.rel, edges[..], killed)
    modifies mtx, mtx.words, edges
    ensures mtx.Valid() && mtx.rel == Merged(g, killed, saved, i + 1)
    ensures CountedExcept(mtx.rel, edges[..], killed)
  {
    MergedStep(g, killed, saved, i);
    var k := mtx.Get(killed, i);
    if k {
      MergeOne(mtx, edges, killed, saved, i);
    }
  }

  /** The merge of two nodes of the interference graph. */
  method MergeNodes(mtx: TriMatrix, edges: array<int>, killed: Temp, saved: Temp)
    requires mtx.Valid() && mtx.size == edges.Length && killed < mtx.size && saved < mtx.size
    requires killed != saved && Irreflexive(mtx.rel) && killed !in mtx.rel[saved]
    requires Counted(mtx.rel, edges[..])
    modifies mtx, mtx.words, edges
    ensures mtx.Valid() && mtx.rel == Merged(old(mtx.rel), killed, saved, mtx.size)
    ensures CountedExcept(mtx.rel, edges[..], killed)
  {
    ghost var g := mtx.rel;
    assert Symmetric(g);
    MergedStart(g, killed, saved);
    for i := 0 to mtx.size
      invariant mtx.Valid() && mtx.rel == Merged(g, killed, saved, i)
      invariant CountedExcept(mtx.rel, edges[..], killed)
    {
      MergeColumn(mtx, edges, killed, saved, i, g);
    }
  }

  /** The relation after the identification of killed with saved. */
  function Compose(rep: seq<Temp>, killed: Temp, saved: Temp): (r: seq<Temp>)
    ensures |r| == |rep| && forall t | 0 <= t < |rep| :: r[t] == if rep[t] == killed then saved else rep[t]
  {
    seq(|rep|, t requires 0 <= t < |rep| => if rep[t] == killed then saved else rep[t])
  }

  lemma MergedRow(g: Graph, killed: Temp, saved: Temp, a: nat)
    requires Symmetric(g) && Irreflexive(g) && killed < |g| && saved < |g| && a < |g|
    requires killed != saved && killed !in g[saved]
    ensures Merged(g, killed, saved, |g|)[a] ==
            if a == killed then {}
            else if a == saved then g[saved] + g[killed]
            else if killed in g[a] then g[a] - {killed} + {saved}
            else g[a]
  {
    assert forall b | b in g[killed] :: b < |g|;
    assert (set b | b in g[killed] && b < |g|) == g[killed];
    assert (set b | b in g[killed] && b >= |g|) == {};
  }

  /** Merging keeps the matrix the exact image of the original relation. */
  lemma MergedIsImage(g0: Graph, rep: seq<Temp>, g: Graph, killed: Temp, saved: Temp)
    requires Symmetric(g) && Irreflexive(g) && IsImage(g0, rep, g)
    requires killed < |g| && saved < |g| && killed != saved && killed !in g[saved]
    ensures IsImage(g0, Compose(rep, killed, saved), Merged(g, killed, saved, |g|))
    ensures Irreflexive(Merged(g, killed, saved, |g|))
  {
    var rep', h := Compose(rep, killed, saved), Merged(g, killed, saved, |g|);
    assert saved !in g[killed];
    forall x, y {:trigger y in g0[x]} | 0 <= x < |g0| && y in g0[x]
      ensures y < |g0| && rep'[x] < |g0| && rep'[y] in h[rep'[x]]
    {
      assert rep[y] in g[rep[x]];
      MergedRow(g, killed, saved, rep'[x]);
      assert rep[x] in g[rep[y]];
    }
    forall a, b {:trigger b in h[a]} | 0 <= a < |h| && b in h[a]
      ensures HasPreimage(g0, rep', a, b)
    {
      MergedRow(g, killed, saved, a);
      var a0 := if a == saved && b !in g[saved] then killed else a;
      var b0 := if b == saved && saved !in g[a] then killed else b;
      assert b0 in g[a0];
      assert HasPreimage(g0, rep, a0, b0);
      var x, y :| 0 <= x < |g0| && 0 <= y < |g0| && y in g0[x] && rep[x] == a0 && rep[y] == b0;
      assert rep'[x] == a && rep'[y] == b;
    }
    forall a | 0 <= a < |h|
      ensures a !in h[a]
    {
      MergedRow(g, killed, saved, a);
    }
  }

  lemma RenameCompose(n: nat, rep: seq<Temp>, killed: Temp, saved: Temp, ins0: Instr, ins: Instr)
    requires RewrittenAt(ins0, ins, rep) && IsQuotient(rep, n)
    requires forall t | t in ins0.defs :: t < n
    requires forall t | t in ins0.uses :: t < n
    ensures RewrittenAt(ins0, ReplaceValue(ins, killed, saved), Compose(rep, killed, saved))
  {
    var rep' := Compose(rep, killed, saved);
    if ins == Rename(rep, ins0) {
      assert forall k | 0 <= k < |ins0.defs| :: ins0.defs[k] in ins0.defs;
      assert forall k | 0 <= k < |ins0.uses| :: ins0.uses[k] in ins0.uses;
      assert ReplaceValue(ins, killed, saved).defs == RenameAll(rep', ins0.defs);
      assert ReplaceValue(ins, killed, saved).uses == RenameAll(rep', ins0.uses);
    } else {
      assert ins0.defs[0] in ins0.defs && ins0.uses[0] in ins0.uses;
      assert ReplaceValue(GONE, killed, saved) == GONE;
    }
  }

  /** instr_replace_values */
  function ReplaceValue(ins: Instr, killed: Temp, saved: Temp): (r: Instr) {
    ins.(defs := seq(|ins.defs|, k requires 0 <= k < |ins.defs| =>
                     if ins.defs[k] == killed then saved else ins.defs[k]),
         uses := seq(|ins.uses|, k requires 0 <= k < |ins.uses| =>
                     if ins.uses[k] == killed then saved else ins.uses[k]))
  }

  /** The values below n, as the allocator keeps them. */
  ghost predicate ValuesOk(n: nat, rep: seq<Temp>, dead: seq<bool>, precolored: seq<bool>, width: seq<nat>) {
    && IsQuotient(rep, n) && |dead| == |precolored| == |width| == n
    && (forall t | 0 <= t < n :: dead[t] <==> rep[t] != t)
    && (forall t | 0 <= t < n && precolored[t] :: rep[t] == t)
    && (forall t | 0 <= t < n :: width[rep[t]] == width[t])
  }

  /** Copies are between values of one width. */
  predicate CopiesFit(code: seq<Instr>, n: nat, width: seq<nat>)
    requires WellFormed(code, n) && |width| == n
  {
    forall pc | 0 <= pc < |code| && IsCopy(code[pc]) ::
      InstrOk(code, n, pc) && CopyFits(code[pc], width)
  }

  predicate CopyFits(ins: Instr, width: seq<nat>)
    requires IsCopy(ins)
  {
    ins.defs[0] < |width| && ins.uses[0] < |width| && width[ins.defs[0]] == width[ins.uses[0]]
  }

  /** Replaces killed by saved in every instruction. */
  method ReplaceEverywhere(code0: seq<Instr>, code: seq<Instr>, n: nat, killed: Temp, saved: Temp, ghost rep: seq<Temp>)
    returns (code': seq<Instr>)
    requires WellFormed(code0, n) && Rewritten(code0, code, rep) && IsQuotient(rep, n)
    ensures |code'| == |code| && forall pc | 0 <= pc < |code| :: code'[pc] == ReplaceValue(code[pc], killed, saved)
    ensures Rewritten(code0, code', Compose(rep, killed, saved))
  {
    code' := code;
    for q := 0 to |code|
      invariant |code'| == |code|
      invariant forall p | 0 <= p < q :: code'[p] == ReplaceValue(code[p], killed, saved)
      invariant forall p | q <= p < |code| :: code'[p] == code[p]
    {
      code' := code'[q := ReplaceValue(code[q], killed, saved)];
    }
    forall pc | 0 <= pc < |code|
      ensures RewrittenAt(code0[pc], code'[pc], Compose(rep, killed, saved))
    {
      assert InstrOk(code0, n, pc) && RewrittenAt(code0[pc], code[pc], rep);
      RenameCompose(n, rep, killed, saved, code0[pc], code[pc]);
    }
  }

  /** Merging a live value that is not precoloured into another of its width keeps the values in order. */
  lemma ComposeOk(n: nat, rep: seq<Temp>, dead: seq<bool>, precolored: seq<bool>, width: seq<nat>, killed: Temp,
                  saved: Temp)
    requires ValuesOk(n, rep, dead, precolored, width)
    requires killed < n && saved < n && killed != saved && rep[killed] == killed && rep[saved] == saved
    requires !precolored[killed] && width[killed] == width[saved]
    ensures ValuesOk(n, Compose(rep, killed, saved), dead[killed := true], precolored, width)
  {
  }

  /** What the second loop nest keeps: g is the exact image of the original relation, nothing
      interferes with what it has been merged with, and iv_edges are the degrees. */
  ghost predicate Progress(code0: seq<Instr>, n: nat, code: seq<Instr>, rep: seq<Temp>, g: Graph, edges: seq<int>,
                           dead: seq<bool>, precolored: seq<bool>, width: seq<nat>) {
    && ValuesOk(n, rep, dead, precolored, width)
    && Rewritten(code0, code, rep)
    && IsImage(InterferenceGraph(code0, n), rep, g)
    && Irreflexive(g) && Symmetric(g)
    && Counted(g, edges)
  }

  lemma Start(code0: seq<Instr>, n: nat, edges: seq<int>, dead: seq<bool>, precolored: seq<bool>, width: seq<nat>)
    requires WellFormed(code0, n) && |dead| == |precolored| == |width| == n
    requires Counted(InterferenceGraph(code0, n), edges) && Symmetric(InterferenceGraph(code0, n))
    requires forall t | 0 <= t < n :: !dead[t]
    ensures Progress(code0, n, code0, seq(n, t => t), InterferenceGraph(code0, n), edges, dead, precolored, width)
  {
    var rep, g := seq(n, t => t), InterferenceGraph(code0, n);
    forall pc | 0 <= pc < |code0|
      ensures RewrittenAt(code0[pc], code0[pc], rep)
    {
      assert InstrOk(code0, n, pc);
      assert RenameAll(rep, code0[pc].defs) == code0[pc].defs;
      assert RenameAll(rep, code0[pc].uses) == code0[pc].uses;
    }
    forall a, b {:trigger b in g[a]} | 0 <= a < |g| && b in g[a]
      ensures HasPreimage(g, rep, a, b)
    {
      assert rep[a] == a && rep[b] == b;
    }
    forall x | 0 <= x < |g|
      ensures x !in g[x]
    {
    }
  }

  /** The operands of a copy that is still there are representatives of the original ones. */
  lemma CopyOperands(code0: seq<Instr>, n: nat, code: seq<Instr>, rep: seq<Temp>, pc: nat, width: seq<nat>)
    requires WellFormed(code0, n) && |width| == n && CopiesFit(code0, n, width)
    requires IsQuotient(rep, n) && Rewritten(code0, code, rep) && pc < |code|
    requires code[pc].kind.Move? && |code[pc].defs| == 1
    ensures IsCopy(code0[pc]) && IsCopy(code[pc])
    ensures code0[pc].defs[0] < n && code0[pc].uses[0] < n
    ensures code[pc].defs[0] == rep[code0[pc].defs[0]] && code[pc].uses[0] == rep[code0[pc].uses[0]]
    ensures width[code0[pc].defs[0]] == width[code0[pc].uses[0]]
    ensures code[pc].defs[0] < n && rep[code[pc].defs[0]] == code[pc].defs[0]
    ensures code[pc].uses[0] < n && rep[code[pc].uses[0]] == code[pc].uses[0]
  {
    assert InstrOk(code0, n, pc) && RewrittenAt(code0[pc], code[pc], rep);
    assert code0[pc].defs[0] in code0[pc].defs && code0[pc].uses[0] in code0[pc].uses;
    assert CopyFits(code0[pc], width);
  }

  lemma RemoveCopy(code0: seq<Instr>, code: seq<Instr>, rep: seq<Temp>, pc: nat)
    requires Rewritten(code0, code, rep) && pc < |code| && IsCopy(code0[pc])
    requires RepOf(rep, code0[pc].defs[0]) == RepOf(rep, code0[pc].uses[0])
    ensures Rewritten(code0, code[pc := GONE], rep)
  {
    forall q | 0 <= q < |code|
      ensures RewrittenAt(code0[q], code[pc := GONE][q], rep)
    {
      assert RewrittenAt(code0[q], code[q], rep);
    }
  }

  // ----- what is left, and what has been identified -----

  /** A copy that is left has different operands, both of them arguments or related. */
  ghost predicate StaysApart(g: Graph, precolored: seq<bool>, ins: Instr) {
    IsCopy(ins) ==>
      var d, u := ins.defs[0], ins.uses[0];
      d < |g| && u < |g| && d < |precolored| && u < |precolored|
      && d != u && ((precolored[d] && precolored[u]) || u in g[d])
  }

  /** The copies in front of position pc have been dealt with. */
  ghost predicate CopiesDone(g: Graph, precolored: seq<bool>, code: seq<Instr>, pc: nat) {
    forall q | 0 <= q < pc && q < |code| :: StaysApart(g, precolored, code[q])
  }

  /** Two different values that are related, or are both arguments, are so after a merge. */
  lemma StillApart(g: Graph, precolored: seq<bool>, killed: Temp, saved: Temp, ins: Instr)
    requires Symmetric(g) && Irreflexive(g) && killed < |g| && saved < |g| && killed != saved && killed !in g[saved]
    requires |precolored| == |g| && !precolored[killed] && StaysApart(g, precolored, ins)
    ensures StaysApart(Merged(g, killed, saved, |g|), precolored, ReplaceValue(ins, killed, saved))
  {
    if IsCopy(ins) {
      var d, u := ins.defs[0], ins.uses[0];
      var d' := if d == killed then saved else d;
      MergedRow(g, killed, saved, d');
      assert d in g[u] <==> u in g[d];
    }
  }

  lemma MergeCopiesDone(g: Graph, precolored: seq<bool>, killed: Temp, saved: Temp, code: seq<Instr>,
                        code': seq<Instr>, pc: nat)
    requires Symmetric(g) && Irreflexive(g) && killed < |g| && saved < |g| && killed != saved && killed !in g[saved]
    requires |precolored| == |g| && !precolored[killed] && CopiesDone(g, precolored, code, pc)
    requires |code'| == |code| && forall q | 0 <= q < |code| :: code'[q] == ReplaceValue(code[q], killed, saved)
    ensures CopiesDone(Merged(g, killed, saved, |g|), precolored, code', pc)
  {
    hide StaysApart;
    forall q | 0 <= q < pc && q < |code'|
      ensures StaysApart(Merged(g, killed, saved, |g|), precolored, code'[q])
    {
      StillApart(g, precolored, killed, saved, code[q]);
    }
  }

  /** A copy between x and y has been removed. */
  predicate RemovedCopy(code0: seq<Instr>, code: seq<Instr>, x: Temp, y: Temp) {
    exists pc | 0 <= pc < |code0| && pc < |code| :: IsRemoved(code0[pc], code[pc], x, y)
  }

  predicate IsRemoved(ins0: Instr, ins: Instr, x: Temp, y: Temp) {
    && IsCopy(ins0) && ins == GONE
    && ((ins0.defs[0] == x && ins0.uses[0] == y) || (ins0.defs[0] == y && ins0.uses[0] == x))
  }

  /** Removed copies lead from the first value of the path to the last. */
  predicate IsJoin(code0: seq<Instr>, code: seq<Instr>, path: seq<Temp>) {
    path != [] && forall k | 0 <= k < |path| - 1 :: RemovedCopy(code0, code, path[k], path[k + 1])
  }

  ghost predicate Joined(code0: seq<Instr>, code: seq<Instr>, x: Temp, y: Temp) {
    exists path :: IsJoin(code0, code, path) && path[0] == x && path[|path| - 1] == y
  }

  lemma JoinedSelf(code0: seq<Instr>, code: seq<Instr>, x: Temp)
    ensures Joined(code0, code, x, x)
  {
    assert IsJoin(code0, code, [x]);
  }

  lemma JoinedBack(code0: seq<Instr>, code: seq<Instr>, x: Temp, y: Temp)
    requires Joined(code0, code, x, y)
    ensures Joined(code0, code, y, x)
  {
    var path :| IsJoin(code0, code, path) && path[0] == x && path[|path| - 1] == y;
    var back := seq(|path|, k requires 0 <= k < |path| => path[|path| - 1 - k]);
    forall k | 0 <= k < |back| - 1
      ensures RemovedCopy(code0, code, back[k], back[k + 1])
    {
      var j := |path| - 2 - k;
      assert RemovedCopy(code0, code, path[j], path[j + 1]);
      var pc :| 0 <= pc < |code0| && pc < |code| && IsRemoved(code0[pc], code[pc], path[j], path[j + 1]);
      assert IsRemoved(code0[pc], code[pc], back[k], back[k + 1]);
    }
    assert IsJoin(code0, code, back);
  }

  lemma JoinedOn(code0: seq<Instr>, code: seq<Instr>, x: Temp, y: Temp, z: Temp)
    requires Joined(code0, code, x, y) && Joined(code0, code, y, z)
    ensures Joined(code0, code, x, z)
  {
    hide RemovedCopy;
    var a :| IsJoin(code0, code, a) && a[0] == x && a[|a| - 1] == y;
    var b :| IsJoin(code0, code, b) && b[0] == y && b[|b| - 1] == z;
    var path := a + b[1..];
    forall k | 0 <= k < |path| - 1
      ensures RemovedCopy(code0, code, path[k], path[k + 1])
    {
      if k >= |a| - 1 {
        var j := k - (|a| - 1);
        assert path[k] == b[j] && path[k + 1] == b[j + 1];
      }
    }
    assert IsJoin(code0, code, path);
  }

  /** Removed copies stay removed. */
  ghost predicate MoreRemoved(code: seq<Instr>, code': seq<Instr>) {
    |code'| == |code| && forall pc | 0 <= pc < |code| && code[pc] == GONE :: code'[pc] == GONE
  }

  lemma JoinedMore(code0: seq<Instr>, code: seq<Instr>, code': seq<Instr>, x: Temp, y: Temp)
    requires MoreRemoved(code, code') && Joined(code0, code, x, y)
    ensures Joined(code0, code', x, y)
  {
    var path :| IsJoin(code0, code, path) && path[0] == x && path[|path| - 1] == y;
    forall k | 0 <= k < |path| - 1
      ensures RemovedCopy(code0, code', path[k], path[k + 1])
    {
      assert RemovedCopy(code0, code, path[k], path[k + 1]);
      var pc :| 0 <= pc < |code0| && pc < |code| && IsRemoved(code0[pc], code[pc], path[k], path[k + 1]);
      assert IsRemoved(code0[pc], code'[pc], path[k], path[k + 1]);
    }
    assert IsJoin(code0, code', path);
  }

  /** Every value is joined with its representative. */
  ghost predicate RepJoined(code0: seq<Instr>, code: seq<Instr>, rep: seq<Temp>) {
    forall t | 0 <= t < |rep| :: Joined(code0, code, t, rep[t])
  }

  /** Merging the values of a copy that is removed keeps every value joined with its representative. */
  lemma MergeJoined(code0: seq<Instr>, code: seq<Instr>, code': seq<Instr>, n: nat, rep: seq<Temp>, pc: nat,
                    killed: Temp, saved: Temp, x: Temp, y: Temp)
    requires |rep| == n && RepJoined(code0, code, rep) && MoreRemoved(code, code')
    requires pc < |code0| && pc < |code'| && IsRemoved(code0[pc], code'[pc], x, y)
    requires x < n && y < n && rep[x] == killed && rep[y] == saved
    ensures RepJoined(code0, code', Compose(rep, killed, saved))
  {
    hide Joined, MoreRemoved, IsRemoved;
    var rep' := Compose(rep, killed, saved);
    JoinedMore(code0, code, code', x, killed);
    JoinedMore(code0, code, code', y, saved);
    JoinedBack(code0, code', x, killed);
    OneCopyJoins(code0, code', x, y, pc);
    JoinedOn(code0, code', killed, x, y);
    JoinedOn(code0, code', killed, y, saved);
    forall t | 0 <= t < |rep'|
      ensures Joined(code0, code', t, rep'[t])
    {
      JoinedMore(code0, code, code', t, rep[t]);
      if rep[t] == killed {
        JoinedOn(code0, code', t, killed, saved);
      }
    }
  }

  lemma OneCopyJoins(code0: seq<Instr>, code: seq<Instr>, x: Temp, y: Temp, pc: nat)
    requires pc < |code0| && pc < |code| && IsRemoved(code0[pc], code[pc], x, y)
    ensures Joined(code0, code, x, y)
  {
    assert RemovedCopy(code0, code, x, y);
    assert IsJoin(code0, code, [x, y]);
  }

  /** Values are one exactly if removed copies lead from one to the other. */
  lemma SameExactlyIfJoined(code0: seq<Instr>, code: seq<Instr>, n: nat, rep: seq<Temp>, x: Temp, y: Temp)
    requires IsQuotient(rep, n) && Rewritten(code0, code, rep) && RepJoined(code0, code, rep) && x < n && y < n
    ensures rep[x] == rep[y] <==> Joined(code0, code, x, y)
  {
    hide Joined, Rewritten;
    if rep[x] == rep[y] {
      JoinedBack(code0, code, y, rep[y]);
      JoinedOn(code0, code, x, rep[x], y);
    }
    if Joined(code0, code, x, y) {
      JoinedSame(code0, code, n, rep, x, y);
    }
  }

  lemma JoinedSame(code0: seq<Instr>, code: seq<Instr>, n: nat, rep: seq<Temp>, x: Temp, y: Temp)
    requires IsQuotient(rep, n) && Rewritten(code0, code, rep) && Joined(code0, code, x, y)
    ensures RepOf(rep, x) == RepOf(rep, y)
  {
    hide Rewritten;
    var path :| IsJoin(code0, code, path) && path[0] == x && path[|path| - 1] == y;
    PathSame(code0, code, rep, path, |path| - 1);
  }

  lemma {:induction false} PathSame(code0: seq<Instr>, code: seq<Instr>, rep: seq<Temp>, path: seq<Temp>, k: nat)
    requires Rewritten(code0, code, rep) && IsJoin(code0, code, path) && k < |path|
    ensures RepOf(rep, path[0]) == RepOf(rep, path[k])
  {
    if k > 0 {
      PathSame(code0, code, rep, path, k - 1);
      assert RemovedCopy(code0, code, path[k - 1], path[k - 1 + 1]);
      var pc :| 0 <= pc < |code0| && pc < |code| && IsRemoved(code0[pc], code[pc], path[k - 1], path[k]);
      assert RewrittenAt(code0[pc], code[pc], rep);
      assert Rename(rep, code0[pc]) != GONE;
    }
  }

  /** What the second loop nest has done in front of position pc: the copies that are left stay apart, and
      only values that removed copies join have been identified. */
  ghost predicate Dealt(code0: seq<Instr>, code: seq<Instr>, rep: seq<Temp>, g: Graph, precolored: seq<bool>,
                        pc: nat) {
    CopiesDone(g, precolored, code, pc) && RepJoined(code0, code, rep)
  }

  lemma NothingDealt(code0: seq<Instr>, n: nat, g: Graph, precolored: seq<bool>)
    ensures Dealt(code0, code0, seq(n, t => t), g, precolored, 0)
  {
    hide Joined;
    var rep := seq(n, t => t);
    forall t | 0 <= t < n
      ensures Joined(code0, code0, t, rep[t])
    {
      JoinedSelf(code0, code0, t);
    }
  }

  /** The instruction at pc stays as it is. */
  lemma DealtKept(code0: seq<Instr>, code: seq<Instr>, rep: seq<Temp>, g: Graph, precolored: seq<bool>, pc: nat)
    requires Dealt(code0, code, rep, g, precolored, pc) && pc < |code| && StaysApart(g, precolored, code[pc])
    ensures Dealt(code0, code, rep, g, precolored, pc + 1)
  {
    hide StaysApart, RepJoined;
  }

  /** A copy of a value to itself goes. */
  lemma DealtRemoved(code0: seq<Instr>, code: seq<Instr>, rep: seq<Temp>, g: Graph, precolored: seq<bool>, pc: nat)
    requires Dealt(code0, code, rep, g, precolored, pc) && pc < |code|
    ensures Dealt(code0, code[pc := GONE], rep, g, precolored, pc + 1)
  {
    hide Joined;
    var code' := code[pc := GONE];
    forall t | 0 <= t < |rep|
      ensures Joined(code0, code', t, rep[t])
    {
      JoinedMore(code0, code, code', t, rep[t]);
    }
    forall q | 0 <= q < pc + 1
      ensures StaysApart(g, precolored, code'[q])
    {
      assert q < pc ==> StaysApart(g, precolored, code[q]);
    }
  }

  /** A copy whose operands become one goes. */
  lemma DealtMerged(code0: seq<Instr>, code: seq<Instr>, code1: seq<Instr>, n: nat, rep: seq<Temp>, g: Graph,
                    precolored: seq<bool>, pc: nat, killed: Temp, saved: Temp, x: Temp, y: Temp)
    requires Dealt(code0, code, rep, g, precolored, pc) && pc < |code| == |code0| && |rep| == n == |g| == |precolored|
    requires Symmetric(g) && Irreflexive(g) && killed < n && saved < n && killed != saved && killed !in g[saved]
    requires !precolored[killed] && IsRemoved(code0[pc], GONE, x, y)
    requires x < n && y < n && rep[x] == killed && rep[y] == saved
    requires |code1| == |code| && forall q | 0 <= q < |code| :: code1[q] == ReplaceValue(code[q], killed, saved)
    ensures Dealt(code0, code1[pc := GONE], Compose(rep, killed, saved), Merged(g, killed, saved, n), precolored,
                  pc + 1)
  {
    hide StaysApart, Merged, RepJoined, IsRemoved;
    var code', h := code1[pc := GONE], Merged(g, killed, saved, n);
    MergeCopiesDone(g, precolored, killed, saved, code, code1, pc);
    NotApart(h, precolored);
    assert ReplaceValue(GONE, killed, saved) == GONE;
    MergeJoined(code0, code, code', n, rep, pc, killed, saved, x, y);
    forall q | 0 <= q < pc + 1
      ensures StaysApart(h, precolored, code'[q])
    {
      assert q < pc ==> StaysApart(h, precolored, code1[q]);
    }
  }

  lemma NotApart(g: Graph, precolored: seq<bool>)
    ensures StaysApart(g, precolored, GONE)
  {
  }

  /** Makes killed and saved one value. */
  method MergeValues(code0: seq<Instr>, n: nat, code: seq<Instr>, mtx: TriMatrix, edges: array<int>, dead: array<bool>,
                     precolored: seq<bool>, ghost width: seq<nat>, killed: Temp, saved: Temp, ghost rep: seq<Temp>)
    returns (code': seq<Instr>)
    requires WellFormed(code0, n)
    requires mtx.Valid() && mtx.size == n == edges.Length == dead.Length
    requires Progress(code0, n, code, rep, mtx.rel, edges[..], dead[..], precolored, width)
    requires killed < n && saved < n && killed != saved && rep[killed] == killed && rep[saved] == saved
    requires !precolored[killed] && width[killed] == width[saved] && killed !in mtx.rel[saved]
    modifies mtx, mtx.words, edges, dead
    ensures mtx.Valid() && mtx.rel == Merged(old(mtx.rel), killed, saved, n)
    ensures |code'| == |code| && forall pc | 0 <= pc < |code| :: code'[pc] == ReplaceValue(code[pc], killed, saved)
    ensures Progress(code0, n, code', Compose(rep, killed, saved), mtx.rel, edges[..], dead[..], precolored, width)
  {
    code' := ReplaceEverywhere(code0, code, n, killed, saved, rep);
    ghost var g := mtx.rel;
    hide Packs;
    MergeNodes(mtx, edges, killed, saved);
    MergedIsImage(InterferenceGraph(code0, n), rep, g, killed, saved);
    MergedRow(g, killed, saved, killed);
    edges[killed] := 0;
    ghost var was := dead[..];
    ComposeOk(n, rep, was, precolored, width, killed, saved);
    dead[killed] := true;
    assert dead[..] == was[killed := true];
  }

  lemma MatrixIsImage(code0: seq<Instr>, n: nat, code: seq<Instr>, rep: seq<Temp>, g: Graph, edges: seq<int>,
                      dead: seq<bool>, precolored: seq<bool>, width: seq<nat>, x: Temp)
    requires Progress(code0, n, code, rep, g, edges, dead, precolored, width)
    ensures |g| == |rep| == |precolored| == |width| == n && |code| == |code0| && Symmetric(g) && Irreflexive(g)
    ensures IsQuotient(rep, n) && Rewritten(code0, code, rep) && (x < n ==> width[rep[x]] == width[x])
  {
    hide IsImage, Counted, Rewritten, Symmetric, Irreflexive;
    assert IsImage(InterferenceGraph(code0, n), rep, g);
    ImageSize(InterferenceGraph(code0, n), rep, g);
    RewrittenSize(code0, code, rep);
  }

  lemma ImageSize(g: Graph, rep: seq<Temp>, h: Graph)
    requires IsImage(g, rep, h)
    ensures |h| == |g| == |rep|
  {
  }

  lemma RewrittenSize(code0: seq<Instr>, code: seq<Instr>, rep: seq<Temp>)
    requires Rewritten(code0, code, rep)
    ensures |code| == |code0|
  {
  }

  /** Merges the operands x and y of the copy at pc, and removes it. */
  method MergeCopy(code0: seq<Instr>, n: nat, code: seq<Instr>, mtx: TriMatrix, edges: array<int>, dead: array<bool>,
                   precolored: seq<bool>, ghost width: seq<nat>, pc: nat, killed: Temp, saved: Temp,
                   ghost rep: seq<Temp>, ghost x: Temp, ghost y: Temp)
    returns (code': seq<Instr>)
    requires WellFormed(code0, n)
    requires mtx.Valid() && mtx.size == n == edges.Length == dead.Length
    requires Progress(code0, n, code, rep, mtx.rel, edges[..], dead[..], precolored, width)
    requires |rep| == |precolored| == |width| == n && |code| == |code0|
    requires killed < n && saved < n && killed != saved && rep[killed] == killed && rep[saved] == saved
    requires !precolored[killed] && width[killed] == width[saved] && killed !in mtx.rel[saved]
    requires pc < |code0| && IsCopy(code0[pc]) && IsRemoved(code0[pc], GONE, x, y)
    requires x < n && y < n && rep[x] == killed && rep[y] == saved
    requires Dealt(code0, code, rep, mtx.rel, precolored, pc)
    modifies mtx, mtx.words, edges, dead
    ensures mtx.Valid()
    ensures Progress(code0, n, code', Compose(rep, killed, saved), mtx.rel, edges[..], dead[..], precolored, width)
    ensures Dealt(code0, code', Compose(rep, killed, saved), mtx.rel, precolored, pc + 1)
  {
    hide Dealt, Merged, IsImage, Counted, Rewritten;
    ghost var g := mtx.rel;
    code' := MergeValues(code0, n, code, mtx, edges, dead, precolored, width, killed, saved, rep);
    RemoveCopy(code0, code', Compose(rep, killed, saved), pc);
    DealtMerged(code0, code, code', n, rep, g, precolored, pc, killed, saved, x, y);
    code' := code'[pc := GONE];
  }

  /** The treatment of one copy. */
  method CoalesceAt(code0: seq<Instr>, n: nat, code: seq<Instr>, mtx: TriMatrix, edges: array<int>, dead: array<bool>,
                    precolored: seq<bool>, ghost width: seq<nat>, pc: nat, ghost rep: seq<Temp>)
    returns (code': seq<Instr>, ghost rep': seq<Temp>)
    requires WellFormed(code0, n) && |width| == |precolored| == n && CopiesFit(code0, n, width)
    requires mtx.Valid() && mtx.size == n == edges.Length == dead.Length
    requires Progress(code0, n, code, rep, mtx.rel, edges[..], dead[..], precolored, width)
    requires pc < |code| && code[pc].kind.Move? && |code[pc].defs| == 1
    requires Dealt(code0, code, rep, mtx.rel, precolored, pc)
    modifies mtx, mtx.words, edges, dead
    ensures mtx.Valid()
    ensures Progress(code0, n, code', rep', mtx.rel, edges[..], dead[..], precolored, width)
    ensures Dealt(code0, code', rep', mtx.rel, precolored, pc + 1)
  {
    hide Progress, Dealt, IsQuotient, Rewritten, CopiesFit, Symmetric, Irreflexive;
    MatrixIsImage(code0, n, code, rep, mtx.rel, edges[..], dead[..], precolored, width, 0);
    CopyOperands(code0, n, code, rep, pc, width);
    ghost var d, u := code0[pc].defs[0], code0[pc].uses[0];
    MatrixIsImage(code0, n, code, rep, mtx.rel, edges[..], dead[..], precolored, width, d);
    MatrixIsImage(code0, n, code, rep, mtx.rel, edges[..], dead[..], precolored, width, u);
    code', rep' := code, rep;
    var src, dst := code[pc].uses[0], code[pc].defs[0];
    if dst == src {
      RemoveCopy(code0, code, rep, pc);
      DealtRemoved(code0, code, rep, mtx.rel, precolored, pc);
      code' := code[pc := GONE];
      CodeChanges(code0, n, code, code', rep, mtx.rel, edges[..], dead[..], precolored, width);
    } else if !(precolored[dst] && precolored[src]) {
      var apart := mtx.Get(dst, src);
      if !apart {
        Unrelated(mtx.rel, dst, src);
        var killed, saved := if precolored[src] then dst else src, if precolored[src] then src else dst;
        rep' := Compose(rep, killed, saved);
        code' := MergeCopy(code0, n, code, mtx, edges, dead, precolored, width, pc, killed, saved, rep,
                           if precolored[src] then d else u, if precolored[src] then u else d);
      } else {
        DealtKept(code0, code, rep, mtx.rel, precolored, pc);
      }
    } else {
      DealtKept(code0, code, rep, mtx.rel, precolored, pc);
    }
  }

  lemma Unrelated(g: Graph, x: Temp, y: Temp)
    requires Symmetric(g) && x < |g| && y < |g| && y !in g[x]
    ensures x !in g[y]
  {
  }

  lemma CodeChanges(code0: seq<Instr>, n: nat, code: seq<Instr>, code': seq<Instr>, rep: seq<Temp>, g: Graph,
                    edges: seq<int>, dead: seq<bool>, precolored: seq<bool>, width: seq<nat>)
    requires Progress(code0, n, code, rep, g, edges, dead, precolored, width) && Rewritten(code0, code', rep)
    ensures Progress(code0, n, code', rep, g, edges, dead, precolored, width)
  {
  }

  /** coalesce, second loop nest. */
  method CoalesceMoves(code0: seq<Instr>, n: nat, mtx: TriMatrix, edges: array<int>, dead: array<bool>,
                       precolored: seq<bool>, ghost width: seq<nat>)
    returns (code: seq<Instr>, ghost rep: seq<Temp>)
    requires WellFormed(code0, n) && |width| == |precolored| == n && CopiesFit(code0, n, width)
    requires mtx.Valid() && mtx.size == n == edges.Length == dead.Length
    requires mtx.rel == InterferenceGraph(code0, n) && Counted(mtx.rel, edges[..])
    requires forall t | 0 <= t < n :: !dead[t]
    modifies mtx, mtx.words, edges, dead
    ensures mtx.Valid()
    ensures Progress(code0, n, code, rep, mtx.rel, edges[..], dead[..], precolored, width)
    ensures CopiesDone(mtx.rel, precolored, code, |code|) && RepJoined(code0, code, rep)
  {
    hide StaysApart, RepJoined;
    code, rep := code0, seq(n, t => t);
    Start(code0, n, edges[..], dead[..], precolored, width);
    NothingDealt(code0, n, mtx.rel, precolored);
    for pc := 0 to |code0|
      invariant mtx.Valid()
      invariant Progress(code0, n, code, rep, mtx.rel, edges[..], dead[..], precolored, width)
      invariant Dealt(code0, code, rep, mtx.rel, precolored, pc)
    {
      if code[pc].kind.Move? && |code[pc].defs| == 1 {
        code, rep := CoalesceAt(code0, n, code, mtx, edges, dead, precolored, width, pc, rep);
      } else {
        OtherStays(mtx.rel, precolored, code[pc]);
        DealtKept(code0, code, rep, mtx.rel, precolored, pc);
      }
    }
  }

  lemma OtherStays(g: Graph, precolored: seq<bool>, ins: Instr)
    requires !(ins.kind.Move? && |ins.defs| == 1)
    ensures StaysApart(g, precolored, ins)
  {
  }
}
