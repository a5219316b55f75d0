/** The first half of coalesce: the interference relation and the degrees of its nodes. */
module Interference {
  import opened Code
  import opened Bits
  import opened Liveness

  /** The instruction at pc keeps x and y apart: it defines x while y is live out of it,
      unless it is a move of y. */
  ghost predicate Separates(code: seq<Instr>, pc: nat, x: Temp, y: Temp)
    requires pc < |code|
  {
    && x != y
    && x in code[pc].defs
    && LiveOut(code, pc, y)
    && !(code[pc].kind.Move? && y in code[pc].uses)
  }

  ghost predicate Interfere(code: seq<Instr>, x: Temp, y: Temp) {
    exists pc | 0 <= pc < |code| :: Separates(code, pc, x, y) || Separates(code, pc, y, x)
  }

  ghost predicate Irreflexive(g: Graph) {
    forall x | 0 <= x < |g| :: x !in g[x]
  }

  /** The interference relation on the values below n. */
  ghost function InterferenceGraph(code: seq<Instr>, n: nat): (g: Graph)
    ensures |g| == n
    ensures forall x, y: nat {:trigger y in g[x]} | 0 <= x < n :: y in g[x] <==> y < n && Interfere(code, x, y)
  {
    seq(n, x requires 0 <= x < n => set y: nat | y < n && Interfere(code, x, y))
  }

  lemma ConnectDegrees(g: Graph, x: nat, y: nat, z: nat)
    requires x < |g| && y < |g| && x != y && z < |g| && y !in g[x] && x !in g[y]
    ensures |Connected(g, x, y)[z]| == |g[z]| + if z == x || z == y then 1 else 0
  {
  }

  /** The test that guards tribitmtx_set. */
  predicate Wanted(code: seq<Instr>, out: seq<set<Temp>>, pc: nat, x: Temp, y: Temp)
    requires pc < |code| == |out|
  {
    y in out[pc] && y != x && !(code[pc].kind.Move? && y in code[pc].uses)
  }

  /** ps accounts for everything that the definition of x at pc is to be kept apart from,
      as far as the live-out values below y. */
  ghost predicate Covered(code: seq<Instr>, out: seq<set<Temp>>, g: Graph, pc: nat, x: Temp, y: nat)
    requires pc < |code| == |out| && x < |g| && y <= |g|
  {
    forall b: nat | b < y && Wanted(code, out, pc, x, b) :: b in g[x] && x in g[b]
  }

  /** Everything the definitions before (pc, a) ask for is in ps. */
  ghost predicate CoveredUpTo(code: seq<Instr>, n: nat, out: seq<set<Temp>>, g: Graph, pc: nat, a: nat)
    requires pc <= |code| == |out| && n == |g|
  {
    forall q, k | 0 <= q <= pc && q < |code| && 0 <= k < |code[q].defs| && (q < pc || k < a) ::
      code[q].defs[k] < n && Covered(code, out, g, q, code[q].defs[k], n)
  }

  lemma CoveredGrows(code: seq<Instr>, n: nat, out: seq<set<Temp>>, g: Graph, g': Graph, pc: nat, a: nat)
    requires pc < |code| == |out| && a < |code[pc].defs| && n == |g| == |g'| && code[pc].defs[a] < n
    requires CoveredUpTo(code, n, out, g, pc, a) && Within(g, g')
    requires Covered(code, out, g', pc, code[pc].defs[a], n)
    ensures CoveredUpTo(code, n, out, g', pc, a + 1)
  {
    forall q, k | 0 <= q <= pc && 0 <= k < |code[q].defs| && (q < pc || k < a + 1)
      ensures code[q].defs[k] < n && Covered(code, out, g', q, code[q].defs[k], n)
    {
      if q < pc || k < a {
        assert Covered(code, out, g, q, code[q].defs[k], n);
      }
    }
  }

  lemma WantedInterferes(code: seq<Instr>, n: nat, out: seq<set<Temp>>, pc: nat, x: Temp)
    requires |code| == |out| && pc < |code| && x < n && x in code[pc].defs
    requires forall v :: v in out[pc] <==> LiveOut(code, pc, v)
    ensures forall y: nat | y < n && Wanted(code, out, pc, x, y) ::
              y in InterferenceGraph(code, n)[x] && x in InterferenceGraph(code, n)[y]
  {
    forall y: nat | y < n && Wanted(code, out, pc, x, y)
      ensures Interfere(code, x, y) && Interfere(code, y, x)
    {
      assert Separates(code, pc, x, y);
    }
  }

  lemma CoveredIsInterference(code: seq<Instr>, n: nat, out: seq<set<Temp>>, g: Graph, x: Temp, y: Temp)
    requires |code| == |out| && x < n && y < n && n == |g|
    requires forall pc, v | 0 <= pc < |code| :: v in out[pc] <==> LiveOut(code, pc, v)
    requires CoveredUpTo(code, n, out, g, |code|, 0)
    requires Interfere(code, x, y)
    ensures y in g[x]
  {
    var pc :| 0 <= pc < |code| && (Separates(code, pc, x, y) || Separates(code, pc, y, x));
    var d, o := if Separates(code, pc, x, y) then x else y, if Separates(code, pc, x, y) then y else x;
    var k :| 0 <= k < |code[pc].defs| && code[pc].defs[k] == d;
    assert Covered(code, out, g, pc, code[pc].defs[k], n);
    assert Wanted(code, out, pc, d, o);
  }

  ghost predicate Within(g: Graph, g': Graph)
    requires |g| == |g'|
  {
    forall x | 0 <= x < |g| :: g[x] <= g'[x]
  }

  /** edges[z] is the degree of z. */
  ghost predicate Counted(g: Graph, edges: seq<int>) {
    |g| == |edges| && forall z | 0 <= z < |g| :: edges[z] == |g[z]|
  }

  /** edges[z] is the degree of z, but for x it is e short of it. */
  ghost predicate CountedBut(g: Graph, edges: seq<int>, x: Temp, e: int) {
    |g| == |edges| && forall z | 0 <= z < |g| :: edges[z] == |g[z]| - if z == x then e else 0
  }

  /** Relates x and y; the far end is counted here, the near end by the caller. */
  method Connect(mtx: TriMatrix, edges: array<int>, x: Temp, y: Temp, ghost e: int) returns (added: bool)
    requires mtx.Valid() && mtx.size == edges.Length && x < edges.Length && y < edges.Length && x != y
    requires CountedBut(mtx.rel, edges[..], x, e)
    modifies mtx, mtx.words, edges
    ensures mtx.Valid() && mtx.rel == Connected(old(mtx.rel), x, y)
    ensures CountedBut(mtx.rel, edges[..], x, if added then e + 1 else e)
  {
    hide Connected, CountedBut, Symmetric;
    ghost var g, was := mtx.rel, edges[..];
    var known := mtx.Get(x, y);
    added := !known;
    if known {
      AlreadyConnected(g, x, y);
    } else {
      NewlyConnected(g, was, x, y, e);
      mtx.Set(x, y);
      edges[y] := edges[y] + 1;
      assert edges[..] == was[y := was[y] + 1];
    }
  }

  lemma AlreadyConnected(g: Graph, x: Temp, y: Temp)
    requires x < |g| && y < |g| && x != y && y in g[x] && x in g[y]
    ensures Connected(g, x, y) == g
  {
    assert g[x] + {y} == g[x] && g[y] + {x} == g[y];
  }

  lemma NewlyConnected(g: Graph, edges: seq<int>, x: Temp, y: Temp, e: int)
    requires x < |g| && y < |g| && x != y && y !in g[x] && x !in g[y] && CountedBut(g, edges, x, e)
    ensures CountedBut(Connected(g, x, y), edges[y := edges[y] + 1], x, e + 1)
  {
    hide Connected;
    forall z | 0 <= z < |g|
      ensures |Connected(g, x, y)[z]| == |g[z]| + if z == x || z == y then 1 else 0
    {
      ConnectDegrees(g, x, y, z);
    }
  }

  lemma NothingCovered(code: seq<Instr>, out: seq<set<Temp>>, g: Graph, pc: nat, x: Temp)
    requires pc < |code| == |out| && x < |g|
    ensures Covered(code, out, g, pc, x, 0)
  {
  }

  lemma CountedNow(g: Graph, edges: seq<int>, x: Temp)
    ensures CountedBut(g, edges, x, 0) <==> Counted(g, edges)
  {
  }

  lemma CountedAfter(g: Graph, edges: seq<int>, x: Temp, e: int)
    requires CountedBut(g, edges, x, e) && x < |edges|
    ensures Counted(g, edges[x := edges[x] + e])
  {
  }

  lemma WithinSelf(g: Graph)
    ensures Within(g, g)
  {
  }

  lemma ConnectWithin(g0: Graph, g: Graph, all: Graph, x: Temp, y: Temp)
    requires |g0| == |g| == |all| && x < |g| && y < |g| && x != y && Within(g0, g) && Within(g, all) && y in all[x]
              && x in all[y]
    ensures Within(g, Connected(g, x, y)) && Within(g0, Connected(g, x, y)) && Within(Connected(g, x, y), all)
    ensures y in Connected(g, x, y)[x] && x in Connected(g, x, y)[y]
  {
  }

  lemma WantedOther(code: seq<Instr>, out: seq<set<Temp>>, pc: nat, x: Temp, y: Temp)
    requires pc < |code| == |out| && Wanted(code, out, pc, x, y)
    ensures y != x
  {
  }

  lemma CoveredStep(code: seq<Instr>, out: seq<set<Temp>>, g: Graph, g': Graph, pc: nat, x: Temp, y: nat)
    requires pc < |code| == |out| && x < |g| == |g'| && y < |g| && Within(g, g') && Covered(code, out, g, pc, x, y)
    requires Wanted(code, out, pc, x, y) ==> y in g'[x] && x in g'[y]
    ensures Covered(code, out, g', pc, x, y + 1)
  {
    hide Wanted;
  }

  /** The innermost loop: the edges of one definition. */
  method AddEdges(code: seq<Instr>, n: nat, out: seq<set<Temp>>, mtx: TriMatrix, edges: array<int>, pc: nat, x: Temp,
                  ghost all: Graph)
    requires |code| == |out| && pc < |code| && x < n == |all|
    requires forall y: nat | y < n && Wanted(code, out, pc, x, y) :: y in all[x] && x in all[y]
    requires mtx.Valid() && mtx.size == n == edges.Length
    requires Within(mtx.rel, all) && Counted(mtx.rel, edges[..])
    modifies mtx, mtx.words, edges
    ensures mtx.Valid()
    ensures Within(old(mtx.rel), mtx.rel) && Within(mtx.rel, all)
    ensures Covered(code, out, mtx.rel, pc, x, n)
    ensures Counted(mtx.rel, edges[..])
  {
    hide Covered, Wanted, Within, Connected, CountedBut, Counted;
    CountedNow(mtx.rel, edges[..], x);
    ghost var g0 := mtx.rel;
    WithinSelf(g0);
    var e := 0;
    NothingCovered(code, out, mtx.rel, pc, x);
    for y := 0 to n
      invariant mtx.Valid()
      invariant Within(g0, mtx.rel) && Within(mtx.rel, all)
      invariant Covered(code, out, mtx.rel, pc, x, y)
      invariant CountedBut(mtx.rel, edges[..], x, e)
    {
      ghost var g := mtx.rel;
      if Wanted(code, out, pc, x, y) {
        WantedOther(code, out, pc, x, y);
        var added := Connect(mtx, edges, x, y, e);
        e := if added then e + 1 else e;
        ConnectWithin(g0, g, all, x, y);
      } else {
        WithinSelf(g);
      }
      CoveredStep(code, out, g, mtx.rel, pc, x, y);
    }
    CountedAfter(mtx.rel, edges[..], x, e);
    ghost var was := edges[..];
    edges[x] := edges[x] + e;
    assert edges[..] == was[x := was[x] + e];
  }

  /** coalesce, first loop nest: fills the matrix and counts iv_edges. */
  method Build(code: seq<Instr>, n: nat, out: seq<set<Temp>>, mtx: TriMatrix, edges: array<int>)
    requires WellFormed(code, n) && |code| == |out|
    requires forall pc, v | 0 <= pc < |code| :: v in out[pc] <==> LiveOut(code, pc, v)
    requires mtx.Valid() && mtx.size == n == edges.Length && mtx.rel == seq(n, _ => {})
    requires forall x | 0 <= x < n :: edges[x] == 0
    modifies mtx, mtx.words, edges
    ensures mtx.Valid() && mtx.rel == InterferenceGraph(code, n)
    ensures Counted(mtx.rel, edges[..])
  {
    ghost var all := InterferenceGraph(code, n);
    for pc := 0 to |code|
      invariant mtx.Valid()
      invariant Within(mtx.rel, all)
      invariant CoveredUpTo(code, n, out, mtx.rel, pc, 0)
      invariant Counted(mtx.rel, edges[..])
    {
      assert InstrOk(code, n, pc);
      for a := 0 to |code[pc].defs|
        invariant mtx.Valid()
        invariant Within(mtx.rel, all)
        invariant CoveredUpTo(code, n, out, mtx.rel, pc, a)
        invariant Counted(mtx.rel, edges[..])
      {
        var x := code[pc].defs[a];
        assert x in code[pc].defs;
        WantedInterferes(code, n, out, pc, x);
        ghost var g := mtx.rel;
        AddEdges(code, n, out, mtx, edges, pc, x, all);
        CoveredGrows(code, n, out, g, mtx.rel, pc, a);
      }
    }
    forall x: nat, y: nat | x < n && y < n && Interfere(code, x, y)
      ensures y in mtx.rel[x]
    {
      CoveredIsInterference(code, n, out, mtx.rel, x, y);
    }
    assert mtx.rel == all by {
      forall x | 0 <= x < n
        ensures mtx.rel[x] == all[x]
      {
      }
    }
  }
}
