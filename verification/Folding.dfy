/** Folding an instruction into one that uses its result: a compare into its branch or select, a LEA
    into its load or store.  The operands are then read where the user stands, which may be in
    another block; dominance makes that right. */
module Folding {
  import opened Basics
  import opened Code

  // ----- paths and dominance -----

  /** Instructions that may follow each other from the entry. */
  ghost predicate IsPath(code: seq<Instr>, p: seq<nat>) {
    && p != [] && p[0] == 0
    && (forall k | 0 <= k < |p| :: p[k] < |code|)
    && forall k | 0 <= k < |p| - 1 :: p[k + 1] in Succs(code, p[k])
  }

  ghost predicate Dominates(code: seq<Instr>, a: nat, b: nat) {
    forall p {:trigger IsPath(code, p)} | IsPath(code, p) && p[|p| - 1] == b :: a in p
  }

  lemma PathPrefix(code: seq<Instr>, p: seq<nat>, i: nat)
    requires IsPath(code, p) && i < |p|
    ensures IsPath(code, p[..i + 1])
  {
    var q := p[..i + 1];
    forall k | 0 <= k < |q| - 1
      ensures q[k + 1] in Succs(code, q[k])
    {
      assert p[k + 1] in Succs(code, p[k]);
    }
  }

  /** Two stretches of one path that meet at the same instruction. */
  lemma PathJoin(code: seq<Instr>, p: seq<nat>, i: nat, j: nat)
    requires IsPath(code, p) && i < |p| && j < |p| && p[i] == p[j]
    ensures IsPath(code, p[..i] + p[j..])
  {
    var q := p[..i] + p[j..];
    forall k | 0 <= k < |q| - 1
      ensures q[k + 1] in Succs(code, q[k])
    {
      if k + 1 < i {
        assert p[k + 1] in Succs(code, p[k]);
      } else if k + 1 == i {
        assert p[k + 1] in Succs(code, p[k]) && q[k + 1] == p[j] == p[i];
      } else {
        assert p[j + (k - i) + 1] in Succs(code, p[j + (k - i)]);
      }
    }
  }

  lemma FirstOf(p: seq<nat>, c: nat) returns (k: nat)
    requires c in p
    ensures k < |p| && p[k] == c && forall i | 0 <= i < k :: p[i] != c
  {
    k := 0;
    while p[k] != c
      invariant k < |p| && (forall i | 0 <= i < k :: p[i] != c) && c in p[k..]
      decreases |p| - k
    {
      assert p[k..] == [p[k]] + p[k + 1..];
      k := k + 1;
    }
  }

  lemma LastOf(p: seq<nat>, c: nat) returns (k: nat)
    requires c in p
    ensures k < |p| && p[k] == c && forall i | k < i < |p| :: p[i] != c
  {
    k := |p| - 1;
    while p[k] != c
      invariant k < |p| && (forall i | k < i < |p| :: p[i] != c) && c in p[..k + 1]
      decreases k
    {
      assert p[..k + 1] == p[..k] + [p[k]];
      k := k - 1;
    }
  }

  /** Between the last time a dominating instruction runs and its user, nothing runs that dominates
      it in turn. */
  lemma NoDominatorBetween(code: seq<Instr>, p: seq<nat>, c: nat, b: nat, d: nat, k: nat, j: nat)
    requires IsPath(code, p) && p[|p| - 1] == b && Dominates(code, c, b)
    requires k < j < |p| && p[k] == c && (forall i | k < i < |p| :: p[i] != c)
    requires Dominates(code, d, c) && d != c
    ensures p[j] != d
  {
    var first := FirstOf(p, c);
    PathPrefix(code, p, first);
    assert d in p[..first + 1];
    var i := FirstOf(p[..first + 1], d);
    JoinAvoids(p, i, j, c);
    if p[j] == d {
      PathJoin(code, p, i, j);
    }
  }

  lemma JoinAvoids(p: seq<nat>, i: nat, j: nat, c: nat)
    requires i <= |p| && j < |p| && (forall x | 0 <= x < i :: p[x] != c) && (forall x | j <= x < |p| :: p[x] != c)
    ensures var q := p[..i] + p[j..]; c !in q && q[|q| - 1] == p[|p| - 1]
  {
  }

  // ----- the path of a run -----

  ghost predicate InCode<S, W>(code: seq<Instr>, s: Outcome<S, W>) {
    s.Running? && s.pc < |code|
  }

  /** The instructions a run has come to in its first n steps. */
  function Trace<W>(m: Machine<W>, code: seq<Instr>, width: seq<nat>, s: Outcome<seq<Value>, W>, n: nat): (p: seq<nat>)
    ensures |p| == n + 1
  {
    var r := RunTemps(m, code, width, s, n);
    (if n == 0 then [] else Trace(m, code, width, s, n - 1)) + [if r.Running? then r.pc else 0]
  }

  lemma {:induction false} TraceAt<W>(m: Machine<W>, code: seq<Instr>, width: seq<nat>, s: Outcome<seq<Value>, W>,
                                      n: nat, k: nat)
    requires k <= n
    ensures var r := RunTemps(m, code, width, s, k); Trace(m, code, width, s, n)[k] == if r.Running? then r.pc else 0
  {
    hide StepTemps;
    if k < n {
      TraceAt(m, code, width, s, n - 1, k);
    }
  }

  /** A step goes to a successor, and a run that has left stays there. */
  lemma StepGoes<W>(m: Machine<W>, code: seq<Instr>, width: seq<nat>, s: Outcome<seq<Value>, W>)
    requires InCode(code, StepTemps(m, code, width, s))
    ensures s.Running?
    ensures InCode(code, s) && |s.store| == |width| ==> StepTemps(m, code, width, s).pc in Succs(code, s.pc)
  {
  }

  lemma StepFits<W>(m: Machine<W>, code: seq<Instr>, width: seq<nat>, s: Outcome<seq<Value>, W>)
    requires s.Running? ==> |s.store| == |width|
    ensures StepTemps(m, code, width, s).Running? ==> |StepTemps(m, code, width, s).store| == |width|
    ensures StepTemps(m, code, width, s).Running? && StepTemps(m, code, width, s).pc < |code| ==>
              s.Running? && s.pc < |code|
  {
  }

  lemma {:induction false} TraceIsPath<W>(m: Machine<W>, code: seq<Instr>, width: seq<nat>, s: Outcome<seq<Value>, W>,
                                          n: nat)
    requires s.Running? && s.pc == 0 && |s.store| == |width| && InCode(code, RunTemps(m, code, width, s, n))
    ensures IsPath(code, Trace(m, code, width, s, n)) && |RunTemps(m, code, width, s, n).store| == |width|
    ensures forall k | 0 <= k <= n :: InCode(code, RunTemps(m, code, width, s, k))
              && |RunTemps(m, code, width, s, k).store| == |width|
  {
    hide StepTemps, Succs;
    if n > 0 {
      var before := RunTemps(m, code, width, s, n - 1);
      FitsAlways(m, code, width, s, n - 1);
      StepFits(m, code, width, before);
      StepGoes(m, code, width, before);
      TraceIsPath(m, code, width, s, n - 1);
      var p, q := Trace(m, code, width, s, n - 1), Trace(m, code, width, s, n);
      assert q == p + [RunTemps(m, code, width, s, n).pc];
      TraceAt(m, code, width, s, n - 1, n - 1);
    }
  }

  lemma {:induction false} FitsAlways<W>(m: Machine<W>, code: seq<Instr>, width: seq<nat>, s: Outcome<seq<Value>, W>,
                                         n: nat)
    requires s.Running? ==> |s.store| == |width|
    ensures RunTemps(m, code, width, s, n).Running? ==> |RunTemps(m, code, width, s, n).store| == |width|
  {
    hide StepTemps;
    if n > 0 {
      FitsAlways(m, code, width, s, n - 1);
      StepFits(m, code, width, RunTemps(m, code, width, s, n - 1));
    }
  }

  // ----- the value is still there -----

  ghost predicate DefinedOnlyAt(code: seq<Instr>, x: Temp, d: nat) {
    forall q | 0 <= q < |code| && x in code[q].defs :: q == d
  }

  /** Single assignment as far as it matters for folding c into b: c alone defines t, and every
      operand of c has at most one definition, which dominates c. */
  ghost predicate Strict(code: seq<Instr>, c: nat, b: nat, t: Temp) {
    && c < |code| && b < |code| && c != b && code[c].defs == [t] && code[c].next.Fall? && code[c].kind.Op?
    && DefinedOnlyAt(code, t, c) && t !in code[c].uses && Dominates(code, c, b)
    && forall q | 0 <= q < |code| && Touches(code, q, c) :: Dominates(code, q, c) && q != c
  }

  predicate Touches(code: seq<Instr>, q: nat, c: nat)
    requires q < |code| && c < |code|
  {
    exists i | 0 <= i < |code[c].uses| :: code[c].uses[i] in code[q].defs
  }

  /** A computation: no effect, and it does not look at the world. */
  ghost predicate Pure<W(!new)>(m: Machine<W>, op: nat) {
    forall w, w', args :: m.exec(op, w, args) == m.exec(op, w', args) && m.effect(op, w, args) == w
  }

  /** What instruction c would compute now. */
  function Result<W>(m: Machine<W>, code: seq<Instr>, c: nat, width: seq<nat>, env: seq<Value>, w: W,
                     t: Temp): (r: Value)
    requires c < |code| && t < |width|
  {
    Fit(ResultAt(Results(m, code[c], ReadTemps(env, code[c].uses), w), 0), width[t])
  }

  lemma {:induction false} WriteMisses(env: seq<Value>, width: seq<nat>, defs: seq<Temp>, rs: seq<Value>, k: nat,
                                       x: nat)
    requires |env| == |width| && k <= |defs| && x !in defs && x < |env|
    ensures WriteTemps(env, width, defs, rs, k)[x] == env[x]
    decreases k
  {
    if k > 0 {
      WriteMisses(env, width, defs, rs, k - 1, x);
    }
  }

  lemma ReadsSame(env: seq<Value>, env': seq<Value>, ts: seq<Temp>)
    requires |env| == |env'| && forall i | 0 <= i < |ts| && ts[i] < |env| :: env'[ts[i]] == env[ts[i]]
    ensures ReadTemps(env', ts) == ReadTemps(env, ts)
  {
  }

  /** One step that is neither c nor touches its operands keeps the value. */
  lemma ValueKept<W(!new)>(m: Machine<W>, code: seq<Instr>, width: seq<nat>, s: Outcome<seq<Value>, W>, c: nat, b: nat,
                           t: Temp, w: W)
    requires Strict(code, c, b, t) && Pure(m, code[c].kind.id) && t < |width|
    requires InCode(code, s) && |s.store| == |width| && s.pc != c && !Touches(code, s.pc, c)
    requires s.store[t] == Result(m, code, c, width, s.store, w, t)
    ensures var s' := StepTemps(m, code, width, s);
            s'.Running? ==> |s'.store| == |width| && s'.store[t] == Result(m, code, c, width, s'.store, w, t)
  {
    var ins := code[s.pc];
    var rs := Results(m, ins, ReadTemps(s.store, ins.uses), s.world);
    var env' := WriteTemps(s.store, width, ins.defs, rs, |ins.defs|);
    WriteMisses(s.store, width, ins.defs, rs, |ins.defs|, t);
    forall i | 0 <= i < |code[c].uses| && code[c].uses[i] < |width|
      ensures env'[code[c].uses[i]] == s.store[code[c].uses[i]]
    {
      WriteMisses(s.store, width, ins.defs, rs, |ins.defs|, code[c].uses[i]);
    }
    ReadsSame(s.store, env', code[c].uses);
  }

  /** Running c makes the value. */
  lemma ValueMade<W(!new)>(m: Machine<W>, code: seq<Instr>, width: seq<nat>, s: Outcome<seq<Value>, W>, c: nat, b: nat,
                           t: Temp, w: W)
    requires Strict(code, c, b, t) && Pure(m, code[c].kind.id) && t < |width|
    requires InCode(code, s) && |s.store| == |width| && s.pc == c
    ensures var s' := StepTemps(m, code, width, s);
            s'.Running? && |s'.store| == |width| && s'.store[t] == Result(m, code, c, width, s'.store, w, t)
  {
    var ins := code[c];
    var rs := Results(m, ins, ReadTemps(s.store, ins.uses), s.world);
    var env' := WriteTemps(s.store, width, ins.defs, rs, 1);
    assert WriteTemps(s.store, width, ins.defs, rs, 0) == s.store;
    assert env' == s.store[t := Fit(ResultAt(rs, 0), width[t])];
    ReadsSame(s.store, env', ins.uses);
  }

  /** Whenever a run comes to the user, the value of t is what c would compute from the values its
      operands have then. */
  lemma ValueAtUser<W(!new)>(m: Machine<W>, code: seq<Instr>, width: seq<nat>, s: Outcome<seq<Value>, W>, n: nat,
                             c: nat, b: nat, t: Temp, w: W)
    requires Strict(code, c, b, t) && Pure(m, code[c].kind.id) && t < |width|
    requires s.Running? && s.pc == 0 && |s.store| == |width|
    requires var r := RunTemps(m, code, width, s, n); r.Running? && r.pc == b
    ensures var r := RunTemps(m, code, width, s, n);
            |r.store| == |width| && r.store[t] == Result(m, code, c, width, r.store, w, t)
  {
    hide StepTemps, Result;
    TraceIsPath(m, code, width, s, n);
    var p := Trace(m, code, width, s, n);
    TraceAt(m, code, width, s, n, n);
    assert c in p;
    var k := LastOf(p, c);
    TraceAt(m, code, width, s, n, k);
    assert k < n;
    ValueMade(m, code, width, RunTemps(m, code, width, s, k), c, b, t, w);
    for j := k + 1 to n
      invariant var r := RunTemps(m, code, width, s, j);
        r.Running? && |r.store| == |width| && r.store[t] == Result(m, code, c, width, r.store, w, t)
    {
      var r := RunTemps(m, code, width, s, j);
      TraceAt(m, code, width, s, n, j);
      NotTouched(code, p, c, b, t, k, j);
      ValueKept(m, code, width, r, c, b, t, w);
    }
  }

  lemma NotTouched(code: seq<Instr>, p: seq<nat>, c: nat, b: nat, t: Temp, k: nat, j: nat)
    requires Strict(code, c, b, t) && IsPath(code, p) && p[|p| - 1] == b
    requires k < j < |p| && p[k] == c && (forall i | k < i < |p| :: p[i] != c)
    ensures p[j] < |code| && p[j] != c && !Touches(code, p[j], c)
  {
    hide Touches, IsPath, Dominates;
    PathInside(code, p, j);
    if Touches(code, p[j], c) {
      NoDominatorBetween(code, p, c, b, p[j], k, j);
    }
  }

  lemma PathInside(code: seq<Instr>, p: seq<nat>, j: nat)
    requires IsPath(code, p) && j < |p|
    ensures p[j] < |code|
  {
  }

  // ----- folding -----

  /** The user reads the operands of c; c is removed if the user was the only one. */
  function Folded(code: seq<Instr>, c: nat, b: nat, user: Instr, drop: bool): (r: seq<Instr>)
    requires c < |code| && b < |code|
    ensures |r| == |code|
  {
    var r := code[b := user];
    if drop then r[c := GONE] else r
  }

  /** When t holds what c computes, the new user does what the old one did. */
  ghost predicate SameUser<W(!new)>(m: Machine<W>, code: seq<Instr>, c: nat, b: nat, t: Temp, user: Instr,
                                    width: seq<nat>)
    requires c < |code| && b < |code| && t < |width|
  {
    && user.defs == code[b].defs && user.next == code[b].next && user.kind.Op? && code[b].kind.Op?
    && (user.next.Goto? ==> user.next.targets != [])
    && forall env, w | |env| == |width| && env[t] == Result(m, code, c, width, env, w, t) ::
         var args, args' := ReadTemps(env, code[b].uses), ReadTemps(env, user.uses);
         && m.exec(user.kind.id, w, args') == m.exec(code[b].kind.id, w, args)
         && m.effect(user.kind.id, w, args') == m.effect(code[b].kind.id, w, args)
         && m.pick(user.kind.id, w, args') == m.pick(code[b].kind.id, w, args)
  }

  /** Nobody but b reads t, and the new user does not. */
  predicate OnlyUser(code: seq<Instr>, b: nat, t: Temp, user: Instr) {
    t !in user.uses && forall q | 0 <= q < |code| && q != b :: t !in code[q].uses
  }

  /** The same place, world and values, except perhaps for t. */
  ghost predicate Agree<W>(s: Outcome<seq<Value>, W>, s': Outcome<seq<Value>, W>, t: Temp, drop: bool) {
    match s
    case Left(values, world) => s' == s
    case Running(pc, store, world) =>
      s'.Running? && s'.pc == pc && s'.world == world && |s'.store| == |store| &&
      forall x | 0 <= x < |store| && !(drop && x == t) :: s'.store[x] == store[x]
  }

  lemma {:induction false} WritesAgree(env: seq<Value>, env': seq<Value>, width: seq<nat>, defs: seq<Temp>,
                                       rs: seq<Value>, k: nat, t: Temp, drop: bool)
    requires |env| == |env'| == |width| && k <= |defs|
    requires forall x | 0 <= x < |env| && !(drop && x == t) :: env'[x] == env[x]
    ensures forall x | 0 <= x < |env| && !(drop && x == t) ::
              WriteTemps(env', width, defs, rs, k)[x] == WriteTemps(env, width, defs, rs, k)[x]
    decreases k
  {
    if k > 0 {
      WritesAgree(env, env', width, defs, rs, k - 1, t, drop);
    }
  }

  /** Two instructions with the same results, effect and choice. */
  lemma SameStep<W>(m: Machine<W>, width: seq<nat>, code: seq<Instr>, code': seq<Instr>, s: Outcome<seq<Value>, W>,
                    s': Outcome<seq<Value>, W>,
                    t: Temp, drop: bool)
    requires Agree(s, s', t, drop) && InCode(code, s) && |code| == |code'| && |s.store| == |width|
    requires var i, i' := code[s.pc], code'[s.pc];
      && i'.defs == i.defs && i'.next == i.next && i.kind.Op? == i'.kind.Op?
      && var args, args' := ReadTemps(s.store, i.uses), ReadTemps(s'.store, i'.uses);
        && Results(m, i', args', s.world) == Results(m, i, args, s.world)
        && (i.next.Goto? && i.next.targets == [] ==> args == args')
        && (i.kind.Op? ==> m.effect(i'.kind.id, s.world, args') == m.effect(i.kind.id, s.world, args)
                           && m.pick(i'.kind.id, s.world, args') == m.pick(i.kind.id, s.world, args))
    ensures Agree(StepTemps(m, code, width, s), StepTemps(m, code', width, s'), t, drop)
  {
    var i := code[s.pc];
    WritesAgree(s.store, s'.store, width, i.defs, Results(m, i, ReadTemps(s.store, i.uses), s.world), |i.defs|, t,
                drop);
  }

  lemma ReadsAgree(env: seq<Value>, env': seq<Value>, ts: seq<Temp>, t: Temp, drop: bool)
    requires |env| == |env'| && (drop ==> t !in ts)
    requires forall x | 0 <= x < |env| && !(drop && x == t) :: env'[x] == env[x]
    ensures ReadTemps(env', ts) == ReadTemps(env, ts)
  {
    assert forall i | 0 <= i < |ts| :: ts[i] in ts;
  }

  lemma FoldStep<W(!new)>(m: Machine<W>, width: seq<nat>, code: seq<Instr>, c: nat, b: nat, t: Temp, user: Instr,
                          drop: bool,
                          s: Outcome<seq<Value>, W>, s': Outcome<seq<Value>, W>)
    requires c < |code| && b < |code|
    requires Strict(code, c, b, t) && Pure(m, code[c].kind.id) && t < |width| && SameUser(m, code, c, b, t, user, width)
    requires drop ==> OnlyUser(code, b, t, user)
    requires Agree(s, s', t, drop) && (s.Running? ==> |s.store| == |width|)
    requires s.Running? && s.pc == b ==> s.store[t] == Result(m, code, c, width, s.store, s.world, t)
    ensures Agree(StepTemps(m, code, width, s), StepTemps(m, Folded(code, c, b, user, drop), width, s'), t, drop)
  {
    hide Strict, Result;
    var code' := Folded(code, c, b, user, drop);
    if InCode(code, s) {
      if s.pc == b {
        UserStep(m, width, code, c, b, t, user, drop, s, s');
      } else if s.pc == c && drop {
        DroppedStep(m, width, code, c, b, t, user, s, s');
      } else {
        ReadsAgree(s.store, s'.store, code[s.pc].uses, t, drop);
        SameStep(m, width, code, code', s, s', t, drop);
      }
    }
  }

  lemma UserStep<W(!new)>(m: Machine<W>, width: seq<nat>, code: seq<Instr>, c: nat, b: nat, t: Temp, user: Instr,
                          drop: bool,
                          s: Outcome<seq<Value>, W>, s': Outcome<seq<Value>, W>)
    requires Strict(code, c, b, t) && t < |width| && SameUser(m, code, c, b, t, user, width)
    requires drop ==> OnlyUser(code, b, t, user)
    requires Agree(s, s', t, drop) && InCode(code, s) && |s.store| == |width| && s.pc == b
    requires s.store[t] == Result(m, code, c, width, s.store, s.world, t)
    ensures Agree(StepTemps(m, code, width, s), StepTemps(m, Folded(code, c, b, user, drop), width, s'), t, drop)
  {
    hide StepTemps, Result;
    ReadsAgree(s.store, s'.store, user.uses, t, drop);
    SameStep(m, width, code, Folded(code, c, b, user, drop), s, s', t, drop);
  }

  lemma DroppedStep<W(!new)>(m: Machine<W>, width: seq<nat>, code: seq<Instr>, c: nat, b: nat, t: Temp, user: Instr,
                             s: Outcome<seq<Value>, W>, s': Outcome<seq<Value>, W>)
    requires Strict(code, c, b, t) && Pure(m, code[c].kind.id) && t < |width|
    requires Agree(s, s', t, true) && InCode(code, s) && |s.store| == |width| && s.pc == c
    ensures Agree(StepTemps(m, code, width, s), StepTemps(m, Folded(code, c, b, user, true), width, s'), t, true)
  {
    var code' := Folded(code, c, b, user, true);
    assert code'[c] == GONE;
    var rs := Results(m, code[c], ReadTemps(s.store, code[c].uses), s.world);
    assert WriteTemps(s.store, width, [t], rs, 0) == s.store;
    assert WriteTemps(s.store, width, [t], rs, 1) == s.store[t := Fit(ResultAt(rs, 0), width[t])];
  }

  /** Folding keeps every run: the same branches, addresses and effects, whatever path is taken. */
  lemma {:induction false} FoldRuns<W(!new)>(m: Machine<W>, width: seq<nat>, code: seq<Instr>, c: nat, b: nat, t: Temp,
                                             user: Instr, drop: bool,
                                             s: Outcome<seq<Value>, W>, n: nat)
    requires c < |code| && b < |code|
    requires Strict(code, c, b, t) && Pure(m, code[c].kind.id) && t < |width| && SameUser(m, code, c, b, t, user, width)
    requires drop ==> OnlyUser(code, b, t, user)
    requires s.Running? && s.pc == 0 && |s.store| == |width|
    ensures Agree(RunTemps(m, code, width, s, n), RunTemps(m, Folded(code, c, b, user, drop), width, s, n), t, drop)
  {
    hide StepTemps, Folded, Strict, SameUser, Result, Pure;
    if n > 0 {
      FoldRuns(m, width, code, c, b, t, user, drop, s, n - 1);
      var r := RunTemps(m, code, width, s, n - 1);
      FitsAlways(m, code, width, s, n - 1);
      if r.Running? && r.pc == b {
        ValueAtUser(m, code, width, s, n - 1, c, b, t, r.world);
      }
      FoldStep(m, width, code, c, b, t, user, drop, r, RunTemps(m, Folded(code, c, b, user, drop), width, s, n - 1));
    }
  }

  // ----- strict single assignment -----

  /** Every value has at most one definition, and it dominates every use.  The instruction that
      stands for the phis of a block reads its operands on the incoming edges: phis is left out. */
  ghost predicate StrictSsa(code: seq<Instr>, phis: set<nat>) {
    && (forall q, q', x | 0 <= q < |code| && 0 <= q' < |code| && x in code[q].defs && x in code[q'].defs :: q == q')
    && (forall u, q, x | 0 <= u < |code| && 0 <= q < |code| && u !in phis && x in code[u].uses && x in code[q].defs ::
          q != u && Dominates(code, q, u))
  }

  lemma SsaIsStrict(code: seq<Instr>, phis: set<nat>, c: nat, b: nat, t: Temp)
    requires StrictSsa(code, phis) && c < |code| && b < |code| && c !in phis && b !in phis
    requires code[c].defs == [t] && code[c].next.Fall? && code[c].kind.Op? && t in code[b].uses
    ensures Strict(code, c, b, t)
  {
    hide Dominates;
    assert t in code[c].defs;
    forall q | 0 <= q < |code| && Touches(code, q, c)
      ensures Dominates(code, q, c) && q != c
    {
      var i :| 0 <= i < |code[c].uses| && code[c].uses[i] in code[q].defs;
      assert code[c].uses[i] in code[c].uses;
    }
  }

  // ----- the fused instructions -----

  /** The k-th operand of b is replaced by the operands of c. */
  function FusedUser(code: seq<Instr>, c: nat, b: nat, k: nat, op: nat): (r: Instr)
    requires c < |code| && b < |code| && k < |code[b].uses|
  {
    Instr(Op(op), code[b].defs, code[b].uses[..k] + code[c].uses + code[b].uses[k + 1..], code[b].next)
  }

  /** The fused instruction does with the inner operands in place what the plain one does with their
      result: CMP_BRANCH and CMP_SELECT for a compare, a load or store with offsets for a LEA.  The
      plain instruction has left operands in front of the result and right ones behind it. */
  ghost predicate Fuses<W(!new)>(m: Machine<W>, inner: nat, plain: nat, fused: nat, left: nat, arity: nat, right: nat,
                                 size: nat) {
    forall w, a, x, z {:trigger m.exec(fused, w, a + x + z)} {:trigger m.effect(fused, w, a + x + z)}
        {:trigger m.pick(fused, w, a + x + z)}
        | |a| == left && |x| == arity && |z| == right ::
      var v := Fit(ResultAt(m.exec(inner, w, x), 0), size);
      && m.exec(fused, w, a + x + z) == m.exec(plain, w, a + [v] + z)
      && m.effect(fused, w, a + x + z) == m.effect(plain, w, a + [v] + z)
      && m.pick(fused, w, a + x + z) == m.pick(plain, w, a + [v] + z)
  }

  /** fused does what instruction b does with its k-th operand computed by c. */
  ghost predicate FusesAt<W(!new)>(m: Machine<W>, code: seq<Instr>, c: nat, b: nat, k: nat, fused: nat, size: nat)
    requires c < |code| && b < |code| && k < |code[b].uses| && code[c].kind.Op? && code[b].kind.Op?
  {
    Fuses(m, code[c].kind.id, code[b].kind.id, fused, k, |code[c].uses|, |code[b].uses| - k - 1, size)
  }

  lemma ReadParts(env: seq<Value>, a: seq<Temp>, b: seq<Temp>)
    ensures ReadTemps(env, a + b) == ReadTemps(env, a) + ReadTemps(env, b)
  {
  }

  lemma FusedUserSame<W(!new)>(m: Machine<W>, code: seq<Instr>, c: nat, b: nat, t: Temp, k: nat, fused: nat,
                               width: seq<nat>)
    requires c < |code| && b < |code| && t < |width| && k < |code[b].uses| && code[b].uses[k] == t
    requires code[c].kind.Op? && code[b].kind.Op? && (code[b].next.Goto? ==> code[b].next.targets != [])
    requires FusesAt(m, code, c, b, k, fused, width[t])
    ensures SameUser(m, code, c, b, t, FusedUser(code, c, b, k, fused), width)
  {
    var user := FusedUser(code, c, b, k, fused);
    var left, right := code[b].uses[..k], code[b].uses[k + 1..];
    forall env: seq<Value>, w: W | |env| == |width| && env[t] == Result(m, code, c, width, env, w, t)
      ensures var args, args' := ReadTemps(env, code[b].uses), ReadTemps(env, user.uses);
         && m.exec(user.kind.id, w, args') == m.exec(code[b].kind.id, w, args)
         && m.effect(user.kind.id, w, args') == m.effect(code[b].kind.id, w, args)
         && m.pick(user.kind.id, w, args') == m.pick(code[b].kind.id, w, args)
    {
      var a, x, z := ReadTemps(env, left), ReadTemps(env, code[c].uses), ReadTemps(env, right);
      ReadParts(env, left + code[c].uses, right);
      ReadParts(env, left, code[c].uses);
      assert code[b].uses == left + [t] + right;
      ReadParts(env, left + [t], right);
      ReadParts(env, left, [t]);
      assert ReadTemps(env, [t]) == [env[t]];
      assert m.exec(fused, w, a + x + z) == m.exec(code[b].kind.id, w, a + [env[t]] + z);
    }
  }

  /** combine_get_upstream_instruction: the instruction that defines t, if target is the only one
      that uses it.  More than one definition is an error. */
  method Upstream(code: array<Instr>, t: Temp, target: nat) returns (found: bool, twice: bool, c: nat)
    ensures found ==> c < code.Length && t in code[c].defs && DefinedOnlyAt(code[..], t, c)
    ensures found ==> forall q | 0 <= q < code.Length && q != target :: t !in code[q].uses
    ensures twice ==> !found && exists q, q' | 0 <= q < q' < code.Length :: t in code[q].defs && t in code[q'].defs
    ensures !found && !twice ==> (forall q | 0 <= q < code.Length :: t !in code[q].defs)
                                 || exists q | 0 <= q < code.Length && q != target :: t in code[q].uses
  {
    found, twice, c := false, false, 0;
    for q := 0 to code.Length
      invariant found ==> c < q && t in code[c].defs && forall i | 0 <= i < q && t in code[i].defs :: i == c
      invariant !found ==> forall i | 0 <= i < q :: t !in code[i].defs
      invariant forall i | 0 <= i < q && i != target :: t !in code[i].uses
      invariant !twice
    {
      if t in code[q].defs {
        if found {
          return false, true, 0;
        }
        found, c := true, q;
      }
      if q != target && t in code[q].uses {
        return false, false, 0;
      }
    }
  }

  /** The k-th operand of b has one definition, no other user, and the two instructions can be fused. */
  predicate CanCombine(code: seq<Instr>, b: nat, k: nat, fuse: (Instr, Instr) -> Option<nat>, c: nat)
    requires b < |code| && k < |code[b].uses|
  {
    var t := code[b].uses[k];
    && c < |code| && t in code[c].defs && (forall q | 0 <= q < |code| && t in code[q].defs :: q == c)
    && (forall q | 0 <= q < |code| && q != b :: t !in code[q].uses)
    && fuse(code[c], code[b]).Some?
  }

  /** c is the first definition of the k-th operand of b, and the two instructions can be fused. */
  predicate CanMerge(code: seq<Instr>, b: nat, k: nat, fuse: (Instr, Instr) -> Option<nat>, c: nat)
    requires b < |code| && k < |code[b].uses|
  {
    var t := code[b].uses[k];
    && c < |code| && t in code[c].defs && (forall q | 0 <= q < c :: t !in code[q].defs)
    && fuse(code[c], code[b]).Some?
  }

  /** combine_branch_with_compare and combine_select_with_compare for the k-th operand of b.  fuse
      says whether the instruction classes and types allow it, and what the result is.  The types
      exclude that b uses the compare twice. */
  method Combine(code: array<Instr>, b: nat, k: nat, fuse: (Instr, Instr) -> Option<nat>)
    returns (done: bool, ghost c: nat)
    requires b < code.Length && k < |code[b].uses| && forall i | 0 <= i < |code[b].uses| && i != k ::
              code[b].uses[i] != code[b].uses[k]
    requires forall x, y | fuse(x, y).Some? :: x.kind.Op? && x.next.Fall? && |x.defs| == 1 && y.kind.Op?
    modifies code
    ensures !done ==> code[..] == old(code[..])
    ensures done <==> exists u :: CanCombine(old(code[..]), b, k, fuse, u)
    ensures done ==> CanCombine(old(code[..]), b, k, fuse, c)
    ensures done ==>
              c < |old(code[..])| && old(code[c].defs) == [old(code[b].uses[k])] && old(fuse(code[c], code[b])).Some?
    ensures done && c != b ==>
              var was := old(code[..]); var user := FusedUser(was, c, b, k, fuse(was[c], was[b]).value);
              code[..] == Folded(was, c, b, user, true)
              && (old(code[b].uses[k]) !in was[c].uses ==> OnlyUser(was, b, was[b].uses[k], user))
  {
    var t := code[b].uses[k];
    var found, twice, u := Upstream(code, t, b);
    c := u;
    assert found && fuse(code[u], code[b]).Some? ==> CanCombine(code[..], b, k, fuse, u);
    if !found {
      return false, 0;
    }
    var op := fuse(code[u], code[b]);
    if op.None? {
      return false, 0;
    }
    ghost var was := code[..];
    var user := Instr(Op(op.value), code[b].defs, code[b].uses[..k] + code[u].uses + code[b].uses[k + 1..],
                      code[b].next);
    code[b] := user;
    code[u] := GONE;
    done := true;
  }

  /** merge_lea_into_load and merge_lea_into_store: the LEA stays, others may use it. */
  method MergeLea(code: array<Instr>, b: nat, k: nat, fuse: (Instr, Instr) -> Option<nat>)
    returns (done: bool, ghost c: nat)
    requires b < code.Length && k < |code[b].uses|
    modifies code
    ensures !done ==> code[..] == old(code[..])
    ensures done <==> exists u :: CanMerge(old(code[..]), b, k, fuse, u)
    ensures done ==> CanMerge(old(code[..]), b, k, fuse, c)
    ensures done ==>
              c < |old(code[..])| && old(code[b].uses[k]) in old(code[c].defs) && old(fuse(code[c], code[b])).Some?
    ensures done ==> var was := old(code[..]);
              code[..] == Folded(was, c, b, FusedUser(was, c, b, k, fuse(was[c], was[b]).value), false)
  {
    var t := code[b].uses[k];
    var u := 0;
    while u < code.Length && t !in code[u].defs
      invariant u <= code.Length && forall q | 0 <= q < u :: t !in code[q].defs
    {
      u := u + 1;
    }
    c := u;
    assert forall v | CanMerge(code[..], b, k, fuse, v) :: v == u;
    if u == code.Length {
      return false, 0;
    }
    var op := fuse(code[u], code[b]);
    assert op.Some? ==> CanMerge(code[..], b, k, fuse, u);
    if op.None? {
      return false, 0;
    }
    code[b] := Instr(Op(op.value), code[b].defs, code[b].uses[..k] + code[u].uses + code[b].uses[k + 1..],
                     code[b].next);
    done := true;
  }

  /** In strict single-assignment form, fusing a computation into a user keeps every run, whether the
      computation stays (a LEA) or is removed because it had no other user (a compare). */
  lemma FusionPreservesRuns<W(!new)>(m: Machine<W>, width: seq<nat>, code: seq<Instr>, phis: set<nat>, c: nat, b: nat,
                                     k: nat,
                                     fused: nat, drop: bool, s: Outcome<seq<Value>, W>, n: nat)
    requires StrictSsa(code, phis) && c < |code| && b < |code| && c !in phis && b !in phis && k < |code[b].uses|
    requires code[c].defs == [code[b].uses[k]] && code[c].next.Fall? && code[c].kind.Op? && code[b].kind.Op?
    requires (code[b].next.Goto? ==> code[b].next.targets != []) && code[b].uses[k] < |width|
    requires Pure(m, code[c].kind.id) && FusesAt(m, code, c, b, k, fused, width[code[b].uses[k]])
    requires drop ==> OnlyUser(code, b, code[b].uses[k], FusedUser(code, c, b, k, fused))
    requires s.Running? && s.pc == 0 && |s.store| == |width|
    ensures Agree(RunTemps(m, code, width, s, n),
                  RunTemps(m, Folded(code, c, b, FusedUser(code, c, b, k, fused), drop), width, s, n),
                  code[b].uses[k], drop)
  {
    hide Pure, FusesAt, OnlyUser, Agree, FusedUser, Folded, StrictSsa;
    var t := code[b].uses[k];
    SsaIsStrict(code, phis, c, b, t);
    FusedUserSame(m, code, c, b, t, k, fused, width);
    FoldRuns(m, width, code, c, b, t, FusedUser(code, c, b, k, fused), drop, s, n);
  }
}
