/** liveness_update: iterates the data-flow equations to their least solution. */
module Liveness {
  import opened Code

  predicate Uses(code: seq<Instr>, pc: nat, v: Temp)
    requires pc < |code|
  {
    v in code[pc].uses
  }

  predicate Defines(code: seq<Instr>, pc: nat, v: Temp)
    requires pc < |code|
  {
    v in code[pc].defs
  }

  /** A control-flow path that ends in a use of v and does not define v before that. */
  ghost predicate IsLivePath(code: seq<Instr>, path: seq<nat>, v: Temp) {
    && |path| > 0
    && (forall k | 0 <= k < |path| :: path[k] < |code|)
    && (forall k | 0 <= k < |path| - 1 :: path[k + 1] in Succs(code, path[k]))
    && (forall k | 0 <= k < |path| - 1 :: !Defines(code, path[k], v))
    && Uses(code, path[|path| - 1], v)
  }

  ghost predicate LiveIn(code: seq<Instr>, pc: nat, v: Temp) {
    exists path :: IsLivePath(code, path, v) && path[0] == pc
  }

  ghost predicate LiveOut(code: seq<Instr>, pc: nat, v: Temp)
    requires pc < |code|
  {
    exists q :: q in Succs(code, pc) && LiveIn(code, q, v)
  }

  lemma LiveAtUse(code: seq<Instr>, pc: nat, v: Temp)
    requires pc < |code| && Uses(code, pc, v)
    ensures LiveIn(code, pc, v)
  {
    assert IsLivePath(code, [pc], v) && [pc][0] == pc;
  }

  lemma LiveAcross(code: seq<Instr>, pc: nat, v: Temp)
    requires pc < |code| && LiveOut(code, pc, v) && !Defines(code, pc, v)
    ensures LiveIn(code, pc, v)
  {
    var q :| q in Succs(code, pc) && LiveIn(code, q, v);
    var path :| IsLivePath(code, path, v) && path[0] == q;
    var longer := [pc] + path;
    forall k | 0 <= k < |longer| - 1
      ensures longer[k + 1] in Succs(code, longer[k]) && !Defines(code, longer[k], v)
    {
      if k > 0 {
        assert longer[k] == path[k - 1] && longer[k + 1] == path[k];
      }
    }
    assert IsLivePath(code, longer, v) && longer[0] == pc;
  }

  function GenSet(code: seq<Instr>, pc: nat): (r: set<Temp>)
    requires pc < |code|
  {
    set v | v in code[pc].uses
  }

  function DefSet(code: seq<Instr>, pc: nat): (r: set<Temp>)
    requires pc < |code|
  {
    set v | v in code[pc].defs
  }

  ghost function UnionIn(live: seq<set<Temp>>, qs: set<nat>): (r: set<Temp>) {
    set q, v | q in qs && q < |live| && v in live[q] :: v
  }

  /** The data-flow equations hold at pc. */
  ghost predicate Solved(code: seq<Instr>, n: nat, out: seq<set<Temp>>, inn: seq<set<Temp>>, pc: nat)
    requires WellFormed(code, n) && pc < |code| == |out| == |inn|
  {
    && out[pc] == UnionIn(inn, Succs(code, pc))
    && inn[pc] == out[pc] - DefSet(code, pc) + GenSet(code, pc)
  }

  /** What every round keeps: nothing is on that is not live, and the sets only grow. */
  ghost predicate Sound(code: seq<Instr>, n: nat, out: seq<set<Temp>>, inn: seq<set<Temp>>, pc: nat)
    requires WellFormed(code, n) && pc < |code| == |out| == |inn|
  {
    && (forall v | v in inn[pc] :: LiveIn(code, pc, v))
    && out[pc] <= UnionIn(inn, Succs(code, pc))
    && inn[pc] <= out[pc] - DefSet(code, pc) + GenSet(code, pc)
  }

  lemma {:induction false} SolvedIsComplete(code: seq<Instr>, n: nat, out: seq<set<Temp>>, inn: seq<set<Temp>>,
                                            path: seq<nat>, v: Temp)
    requires WellFormed(code, n) && |code| == |out| == |inn|
    requires forall pc | 0 <= pc < |code| :: Solved(code, n, out, inn, pc)
    requires IsLivePath(code, path, v)
    ensures v in inn[path[0]]
    decreases |path|
  {
    assert Solved(code, n, out, inn, path[0]);
    if |path| > 1 {
      var rest := path[1..];
      forall k | 0 <= k < |rest| - 1
        ensures rest[k + 1] in Succs(code, rest[k]) && !Defines(code, rest[k], v)
      {
        assert rest[k] == path[k + 1] && rest[k + 1] == path[k + 2];
      }
      SolvedIsComplete(code, n, out, inn, rest, v);
      SuccsInside(code, n, path[0]);
      assert path[1] in Succs(code, path[0]) && v in UnionIn(inn, Succs(code, path[0]));
    }
  }

  /** The bits not yet on. */
  ghost function Missing(n: nat, out: seq<set<Temp>>, inn: seq<set<Temp>>): (r: set<(bool, nat, Temp)>)
    requires |out| == |inn|
  {
    (set pc: nat, v: nat | pc < |out| && v < n && v !in out[pc] :: (true, pc, v)) +
    (set pc: nat, v: nat | pc < |inn| && v < n && v !in inn[pc] :: (false, pc, v))
  }

  /** What is live out of pc according to its successors. */
  method NewOut(code: seq<Instr>, n: nat, inn: array<set<Temp>>, pc: nat) returns (o: set<Temp>)
    requires WellFormed(code, n) && pc < |code| == inn.Length
    ensures o == UnionIn(inn[..], Succs(code, pc))
  {
    assert InstrOk(code, n, pc);
    match code[pc].next
    case Fall =>
      o := inn[pc + 1];
    case Goto(targets) =>
      o := {};
      assert forall k | 0 <= k < |targets| :: targets[k] in targets;
      for j := 0 to |targets|
        invariant forall v | v in o :: exists k | 0 <= k < j :: v in inn[targets[k]]
        invariant forall k | 0 <= k < j :: inn[targets[k]] <= o
      {
        o := o + inn[targets[j]];
      }
      forall v | v in UnionIn(inn[..], Succs(code, pc))
        ensures v in o
      {
        var q :| q in Succs(code, pc) && q < inn.Length && v in inn[..][q];
        var k :| 0 <= k < |targets| && targets[k] == q;
      }
  }

  /** The bits still off shrink when a set grows. */
  lemma MissingShrinks(n: nat, out: seq<set<Temp>>, inn: seq<set<Temp>>, pc: nat, o: set<Temp>, i: set<Temp>)
    requires pc < |out| == |inn|
    requires out[pc] <= o && inn[pc] <= i
    requires out[pc] != o || inn[pc] != i
    requires forall v | v in o :: v < n
    requires forall v | v in i :: v < n
    ensures Missing(n, out[pc := o], inn[pc := i]) < Missing(n, out, inn)
  {
    var before, after := Missing(n, out, inn), Missing(n, out[pc := o], inn[pc := i]);
    assert after <= before;
    if out[pc] != o {
      var v :| v in o && v !in out[pc];
      assert (true, pc, v) in before && (true, pc, v) !in after;
    } else {
      var v :| v in i && v !in inn[pc];
      assert (false, pc, v) in before && (false, pc, v) !in after;
    }
  }

  /** One recomputation only turns bits on, and only bits that are live. */
  lemma SoundStep(code: seq<Instr>, n: nat, out: seq<set<Temp>>, inn: seq<set<Temp>>, pc: nat, o: set<Temp>,
                  i: set<Temp>,
                  out': seq<set<Temp>>, inn': seq<set<Temp>>)
    requires WellFormed(code, n) && pc < |code| == |out| == |inn|
    requires forall q | 0 <= q < |code| :: Sound(code, n, out, inn, q)
    requires o == UnionIn(inn, Succs(code, pc)) && i == o - DefSet(code, pc) + GenSet(code, pc)
    requires out' == out[pc := o] && inn' == inn[pc := i]
    ensures out[pc] <= o && inn[pc] <= i
    ensures forall v | v in o :: v < n
    ensures forall v | v in i :: v < n
    ensures forall q | 0 <= q < |code| :: Sound(code, n, out', inn', q)
  {
    assert Sound(code, n, out, inn, pc);
    SuccsInside(code, n, pc);
    forall v | v in o
      ensures v < n && LiveOut(code, pc, v)
    {
      var q :| q in Succs(code, pc) && q < |inn| && v in inn[q];
      assert Sound(code, n, out, inn, q);
      LiveBelow(code, n, q, v);
    }
    assert InstrOk(code, n, pc);
    forall v | v in i
      ensures v < n && LiveIn(code, pc, v)
    {
      if v in GenSet(code, pc) {
        LiveAtUse(code, pc, v);
      } else {
        LiveAcross(code, pc, v);
      }
    }
    forall q | 0 <= q < |code|
      ensures Sound(code, n, out', inn', q)
    {
      assert Sound(code, n, out, inn, q);
      forall v | v in UnionIn(inn, Succs(code, q))
        ensures v in UnionIn(inn', Succs(code, q))
      {
        var r :| r in Succs(code, q) && r < |inn| && v in inn[r];
        assert v in inn'[r];
      }
    }
  }

  lemma LiveBelow(code: seq<Instr>, n: nat, pc: nat, v: Temp)
    requires WellFormed(code, n) && LiveIn(code, pc, v)
    ensures pc < |code| && v < n
  {
    var path :| IsLivePath(code, path, v) && path[0] == pc;
    assert InstrOk(code, n, path[|path| - 1]);
  }

  /** The equations determine the answer. */
  lemma SolvedIsLive(code: seq<Instr>, n: nat, out: seq<set<Temp>>, inn: seq<set<Temp>>, pc: nat, v: Temp)
    requires WellFormed(code, n) && pc < |code| == |out| == |inn|
    requires forall q | 0 <= q < |code| :: Sound(code, n, out, inn, q) && Solved(code, n, out, inn, q)
    ensures v in inn[pc] <==> LiveIn(code, pc, v)
    ensures v in out[pc] <==> LiveOut(code, pc, v)
  {
    forall q | 0 <= q < |code|
      ensures v in inn[q] <==> LiveIn(code, q, v)
    {
      assert Sound(code, n, out, inn, q);
      if LiveIn(code, q, v) {
        var path :| IsLivePath(code, path, v) && path[0] == q;
        SolvedIsComplete(code, n, out, inn, path, v);
      }
    }
    assert Solved(code, n, out, inn, pc);
    SuccsInside(code, n, pc);
  }

  /** liveness_update.  Rounds go backwards over the instructions until nothing changes. */
  method LivenessUpdate(code: seq<Instr>, n: nat, out: array<set<Temp>>, inn: array<set<Temp>>)
    requires WellFormed(code, n) && |code| == out.Length == inn.Length && out != inn
    requires forall pc | 0 <= pc < |code| :: out[pc] == {} && inn[pc] == {}
    modifies out, inn
    ensures forall pc, v | 0 <= pc < |code| :: v in inn[pc] <==> LiveIn(code, pc, v)
    ensures forall pc, v | 0 <= pc < |code| :: v in out[pc] <==> LiveOut(code, pc, v)
  {
    var stable := false;
    while !stable
      invariant forall pc | 0 <= pc < |code| :: Sound(code, n, out[..], inn[..], pc)
      invariant stable ==> forall pc | 0 <= pc < |code| :: Solved(code, n, out[..], inn[..], pc)
      decreases Missing(n, out[..], inn[..]), !stable
    {
      stable := true;
      ghost var before := Missing(n, out[..], inn[..]);
      var pc: nat := |code|;
      while pc > 0
        invariant pc <= |code|
        invariant forall q | 0 <= q < |code| :: Sound(code, n, out[..], inn[..], q)
        invariant stable ==> forall q | pc <= q < |code| :: Solved(code, n, out[..], inn[..], q)
        invariant stable ==> Missing(n, out[..], inn[..]) == before
        invariant !stable ==> Missing(n, out[..], inn[..]) < before
      {
        pc := pc - 1;
        var o := NewOut(code, n, inn, pc);
        var newIn := o - DefSet(code, pc) + GenSet(code, pc);
        if out[pc] != o || inn[pc] != newIn {
          stable := false;
          ghost var out0, inn0 := out[..], inn[..];
          SoundStep(code, n, out0, inn0, pc, o, newIn, out0[pc := o], inn0[pc := newIn]);
          MissingShrinks(n, out0, inn0, pc, o, newIn);
          out[pc] := o;
          inn[pc] := newIn;
          assert out[..] == out0[pc := o] && inn[..] == inn0[pc := newIn];
        }
      }
    }
    forall pc: nat, v | pc < |code|
      ensures v in inn[pc] <==> LiveIn(code, pc, v)
      ensures v in out[pc] <==> LiveOut(code, pc, v)
    {
      SolvedIsLive(code, n, out[..], inn[..], pc, v);
    }
  }
}
