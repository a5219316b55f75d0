/** The interpreter on patched byte code against the control flow graph it was emitted from. */
module ByteCodeRuns {
  import opened Arith
  import opened Switch
  import opened ByteCode

  const R8 := 0x100
  const R32 := 0x1_0000_0000
  const R64 := 0x1_0000_0000_0000_0000

  /** The instructions that are no branches, left abstract: their lengths, their effects, and the
      registers as the branches see them. */
  datatype Machine<!S> = Machine(
    length: Word -> nat,
    halts: Word -> bool,
    exec: (seq<Word>, S) -> S,
    test: (seq<Word>, S) -> bool,
    call: (seq<Word>, S) -> (S, bool),
    read: (S, Word) -> nat,
    setScratch: (S, nat) -> S)

  /** What is used of VM_NOP, VM_AND_R32C and VM_CAST_16_TRUNC_32. */
  ghost predicate MachineOk<S(!new)>(m: Machine<S>) {
    && (forall s, v: nat {:trigger m.setScratch(s, v)} :: m.read(m.setScratch(s, v), SCRATCH_REG) % R32 == v % R32)
    && (forall s, reg, width {:trigger m.exec(MaskInstr(reg, width), s)} | 0 < width < 32 ::
          m.exec(MaskInstr(reg, width), s) == m.setScratch(s, m.read(s, reg) % Pow2(width)))
    && (forall s {:trigger m.exec([VM_NOP], s)} :: m.exec([VM_NOP], s) == s)
    && m.length(VM_NOP) == 1 && m.length(VM_AND_R32C) == 5 && m.length(VM_CAST_16_TRUNC_32) == 3
    && !m.halts(VM_NOP) && !m.halts(VM_AND_R32C) && !m.halts(VM_CAST_16_TRUNC_32)
  }

  // ----- the interpreter -----

  datatype Conf<S> = At(pos: int, s: S) | Halted(s: S)

  function Wd(text: seq<Word>, i: int): (r: Word) {
    if 0 <= i < |text| then text[i] else 0
  }

  function Words(text: seq<Word>, at: int, n: nat): (r: seq<Word>) {
    if 0 <= at && at + n <= |text| then text[at..at + n] else []
  }

  /** A 16-bit distance in bytes, from behind the opcode. */
  function Jump(pos: int, w: Word): (r: int) {
    pos + 1 + (if w >= 32768 then w as int - 65536 else w as int) / 2
  }

  function KeyAt(text: seq<Word>, at: int, n: nat, range: nat, i: nat): (r: nat)
    requires range > 0
  {
    NumberOf(Words(text, at + i * n, n)) % range
  }

  function KeysAt(text: seq<Word>, at: int, p: nat, n: nat, range: nat): (r: seq<nat>)
    requires range > 0
    ensures |r| == p && forall i | 0 <= i < p :: r[i] == KeyAt(text, at, n, range, i)
  {
    seq(p, i requires 0 <= i < p => KeyAt(text, at, n, range, i))
  }

  /** Where a bisecting switch with n words per key finds its distance. */
  function SwitchSlot(text: seq<Word>, pos: int, n: nat, range: nat, v: nat): (r: int)
    requires range > 0
  {
    var p := Wd(text, pos + 2) as int;
    pos + 3 + p * n + Bisected(KeysAt(text, pos + 3, p, n, range), v % range)
  }

  /** One turn of vm_exec. */
  function Exec1<S>(m: Machine<S>, text: seq<Word>, pos: int, s: S): (r: Conf<S>) {
    var op := Wd(text, pos);
    if op == VM_B then At(Jump(pos, Wd(text, pos + 1)), s)
    else if op == VM_BCOND then
      At(Jump(pos, Wd(text, if m.read(s, Wd(text, pos + 1)) % R32 != 0 then pos + 2 else pos + 3)), s)
    else if VM_EQ8_BR <= op <= VM_SLE32_C_BR then
      At(Jump(pos, Wd(text, if m.test([op] + Words(text, pos + 3, m.length(op)), s) then pos + 1 else pos + 2)), s)
    else if VM_INVOKE <= op <= VM_INVOKE_EXT then
      var (s', unwinding) := m.call(Words(text, pos, 4), s);
      At(Jump(pos, Wd(text, if unwinding then pos + 5 else pos + 4)), s')
    else if op == VM_JUMPTABLE then
      var size := Wd(text, pos + 2);
      At(Jump(pos, Wd(text, pos + 3 + m.read(s, Wd(text, pos + 1)) % R8 % (if size > 0 then size as int else R8))), s)
    else if op == VM_SWITCH8_BS then
      At(Jump(pos, Wd(text, SwitchSlot(text, pos, 1, R8, m.read(s, Wd(text, pos + 1))))), s)
    else if op == VM_SWITCH32_BS then
      At(Jump(pos, Wd(text, SwitchSlot(text, pos, 2, R32, m.read(s, Wd(text, pos + 1))))), s)
    else if op == VM_SWITCH64_BS then
      At(Jump(pos, Wd(text, SwitchSlot(text, pos, 4, R64, m.read(s, Wd(text, pos + 1))))), s)
    else
      var s' := m.exec(Words(text, pos, m.length(op)), s);
      if m.halts(op) then Halted(s') else At(pos + m.length(op), s')
  }

  function Run<S>(m: Machine<S>, text: seq<Word>, c: Conf<S>, n: nat): (r: Conf<S>)
    decreases n
  {
    if n == 0 || c.Halted? then c else Run(m, text, Exec1(m, text, c.pos, c.s), n - 1)
  }

  lemma {:induction false} RunAdd<S>(m: Machine<S>, text: seq<Word>, c: Conf<S>, a: nat, b: nat)
    ensures Run(m, text, c, a + b) == Run(m, text, Run(m, text, c, a), b)
    decreases a
  {
    hide Exec1;
    if a > 0 && c.At? {
      RunAdd(m, text, Exec1(m, text, c.pos, c.s), a - 1, b);
    }
  }

  lemma RunOne<S>(m: Machine<S>, text: seq<Word>, pos: int, s: S)
    ensures Run(m, text, At(pos, s), 1) == Exec1(m, text, pos, s)
  {
    hide Exec1;
    assert Run(m, text, At(pos, s), 1) == Run(m, text, Exec1(m, text, pos, s), 0);
  }

  // ----- the control flow graph -----

  datatype Exit<S> = Goto(id: nat, s: S) | End(s: S) | Nowhere

  /** What the last instruction of a block means.  A value of one bit is only defined if the low
      byte of its register is 0 or 1; masking goes through the scratch register. */
  function Leave<S>(m: Machine<S>, t: Term, s: S): (r: Exit<S>) {
    match t
    case Stop(ws) => End(m.exec(ws, s))
    case Br(to) => Goto(to, s)
    case BrConst(value, yes, no) => Goto(if value != 0 then yes else no, s)
    case BrCond(reg, yes, no) => Goto(if m.read(s, reg) % R32 != 0 then yes else no, s)
    case CmpBr(op, operands, yes, no) => Goto(if m.test([op] + operands, s) then yes else no, s)
    case Invoke(op, args, normal, unwind) =>
      var (s', unwinding) := m.call([op] + args, s);
      Goto(if unwinding then unwind else normal, s')
    case Switch(reg, width, paths, default) =>
      if width == 1 && m.read(s, reg) % R8 >= 2 then Nowhere
      else
        var v := m.read(s, reg) % Pow2(width);
        Goto(Scan(paths, v, default), if Masks(width) then m.setScratch(s, v) else s)
  }

  function ExecBody<S>(m: Machine<S>, body: seq<seq<Word>>, s: S): (r: S) {
    if body == [] then s else m.exec(body[|body| - 1], ExecBody(m, body[..|body| - 1], s))
  }

  datatype Place<S> = In(k: nat, s: S) | Stopped(s: S) | Undefined

  function Step<S>(m: Machine<S>, f: seq<Block>, k: nat, s: S): (r: Place<S>)
    requires k < |f|
  {
    match Leave(m, f[k].term, ExecBody(m, f[k].body, s))
    case Goto(id, s') => In(FindBlock(f, id), s')
    case End(s') => Stopped(s')
    case Nowhere => Undefined
  }

  function RunCfg<S>(m: Machine<S>, f: seq<Block>, p: Place<S>, n: nat): (r: Place<S>)
    decreases n
  {
    if n == 0 || !p.In? || p.k >= |f| then p else RunCfg(m, f, Step(m, f, p.k, p.s), n - 1)
  }

  /** Instructions have the lengths their opcodes say, only the last one of a function halts, and
      the cases of switches are as parse_switch leaves them. */
  ghost predicate CodeOk<S>(m: Machine<S>, f: seq<Block>) {
    FunctionOk(f) && forall k | 0 <= k < |f| :: BodyOk(m, f[k].body) && LastOk(m, f[k].term)
  }

  predicate PlainOk<S>(m: Machine<S>, ws: seq<Word>) {
    ws != [] && !IsBranch(ws[0]) && |ws| == m.length(ws[0])
  }

  predicate BodyOk<S>(m: Machine<S>, body: seq<seq<Word>>) {
    forall i | 0 <= i < |body| :: PlainOk(m, body[i]) && !m.halts(body[i][0])
  }

  ghost predicate LastOk<S>(m: Machine<S>, t: Term) {
    && (t.Stop? ==> PlainOk(m, t.ws) && m.halts(t.ws[0]))
    && (t.CmpBr? ==> |t.operands| == m.length(t.op))
    && (t.Switch? ==> Sorted(t.paths) && Distinct(t.paths) && Below(t.paths, Pow2(t.width)))
  }

  // ----- one instruction -----

  /** A patched distance leads to the first word of its block. */
  lemma JumpLands(f: seq<Block>, off: nat, id: nat)
    requires Reaches(f, off, id)
    ensures Jump(off, DeltaWord(f, off, id)) == Start(f, FindBlock(f, id))
  {
    hide Start, FindBlock;
    var d, to := Distance(f, off, id), Start(f, FindBlock(f, id));
    assert d == 2 * (to - off - 1);
  }

  lemma WordAt(text: seq<Word>, at: nat, ws: seq<Word>, i: nat)
    requires Holds(text, at, ws) && i < |ws|
    ensures Wd(text, at + i) == ws[i]
  {
    HoldsRead(text, at, ws);
  }

  lemma WordsAt(text: seq<Word>, at: nat, ws: seq<Word>, i: nat, n: nat)
    requires Holds(text, at, ws) && i + n <= |ws|
    ensures Words(text, at + i, n) == ws[i..i + n]
  {
    HoldsRead(text, at, ws);
    assert text[at + i..at + i + n] == ws[i..i + n];
  }

  /** Straight-line code. */
  lemma PlainRuns<S>(m: Machine<S>, text: seq<Word>, at: nat, ws: seq<Word>, s: S)
    requires PlainOk(m, ws) && Holds(text, at, ws)
    ensures Exec1(m, text, at, s) == if m.halts(ws[0]) then Halted(m.exec(ws, s)) else At(at + |ws|, m.exec(ws, s))
  {
    WordAt(text, at, ws, 0);
    WordsAt(text, at, ws, 0, |ws|);
    hide Holds, Words, Wd;
    assert ws[0..|ws|] == ws;
  }

  lemma {:induction false} BodyRuns<S>(m: Machine<S>, text: seq<Word>, at: nat, body: seq<seq<Word>>, s: S)
    requires BodyOk(m, body) && Holds(text, at, Flat(body))
    ensures Run(m, text, At(at, s), |body|) == At(at + |Flat(body)|, ExecBody(m, body, s))
  {
    hide Exec1, PlainOk, Run;
    if body == [] {
      RunNone(m, text, At(at, s));
    } else {
      var init, last := body[..|body| - 1], body[|body| - 1];
      assert Flat(body) == Flat(init) + last;
      HoldsParts(text, at, Flat(init), last);
      BodyRuns(m, text, at, init, s);
      var mid, s' := at + |Flat(init)|, ExecBody(m, init, s);
      PlainRuns(m, text, mid, last, s');
      RunAdd(m, text, At(at, s), |init|, 1);
      RunOne(m, text, mid, s');
    }
  }

  lemma RunNone<S>(m: Machine<S>, text: seq<Word>, c: Conf<S>)
    ensures Run(m, text, c, 0) == c
  {
  }

  lemma HoldsParts(text: seq<Word>, at: nat, a: seq<Word>, b: seq<Word>)
    requires Holds(text, at, a + b)
    ensures Holds(text, at, a) && Holds(text, at + |a|, b)
  {
    HoldsRead(text, at, a + b);
    var t := text[at..at + |a + b|];
    assert t == a + b;
    assert text[at..at + |a|] == t[..|a|] == a;
    assert text[at + |a|..at + |a| + |b|] == t[|a|..] == b;
  }

  // ----- switches -----

  lemma KeyWordsSplit(paths: seq<Path>, n: nat)
    requires paths != []
    ensures var last := |paths| - 1;
      && KeyWords(paths, n) == KeyWords(paths[..last], n) + WordsOf(paths[last].value, n)
      && |KeyWords(paths[..last], n)| == last * n && |WordsOf(paths[last].value, n)| == n
  {
    hide WordsOf;
  }

  /** Each key stands where the interpreter looks for it. */
  lemma {:induction false} KeyWordsAt(paths: seq<Path>, n: nat, i: nat, lo: nat)
    requires i < |paths| && lo == i * n
    ensures lo + n <= |KeyWords(paths, n)|
    ensures KeyWords(paths, n)[lo..lo + n] == WordsOf(paths[i].value, n)
  {
    hide WordsOf, KeyWords;
    var last := |paths| - 1;
    KeyWordsSplit(paths, n);
    var init, key := KeyWords(paths[..last], n), WordsOf(paths[last].value, n);
    if i < last {
      KeyWordsAt(paths[..last], n, i, lo);
      FirstPart(init, key, lo, n);
    } else {
      SecondPart(init, key);
    }
  }

  lemma SecondPart(a: seq<Word>, b: seq<Word>)
    ensures (a + b)[|a|..|a| + |b|] == b
  {
  }

  lemma FirstPart(a: seq<Word>, b: seq<Word>, x: nat, n: nat)
    requires x + n <= |a|
    ensures (a + b)[x..x + n] == a[x..x + n]
  {
  }

  lemma KeysRead(text: seq<Word>, at: nat, paths: seq<Path>, n: nat, range: nat)
    requires Holds(text, at, KeyWords(paths, n)) && Below(paths, range) && 0 < range <= Pow2(16 * n)
    ensures KeysAt(text, at, |paths|, n, range) == Keys(paths)
  {
    hide Pow2, Holds, KeyWords, KeyAt;
    forall i | 0 <= i < |paths|
      ensures KeyAt(text, at, n, range, i) == paths[i].value
    {
      KeyRead(text, at, paths, n, range, i);
    }
  }

  lemma KeyRead(text: seq<Word>, at: nat, paths: seq<Path>, n: nat, range: nat, i: nat)
    requires Holds(text, at, KeyWords(paths, n)) && Below(paths, range) && 0 < range <= Pow2(16 * n) && i < |paths|
    ensures KeyAt(text, at, n, range, i) == paths[i].value
  {
    hide *;
    BelowAt(paths, range, i);
    var lo := i * n;
    KeyWordsAt(paths, n, i, lo);
    WordsRead(text, at, KeyWords(paths, n), lo, n, paths[i].value);
    Small(paths[i].value, range);
    KeyAtIs(text, at, n, range, i, lo);
  }

  lemma KeyAtIs(text: seq<Word>, at: int, n: nat, range: nat, i: nat, lo: nat)
    requires range > 0 && lo == i * n
    ensures KeyAt(text, at, n, range, i) == NumberOf(Words(text, at + lo, n)) % range
  {
  }

  lemma BelowAt(paths: seq<Path>, bound: nat, i: nat)
    requires Below(paths, bound) && i < |paths|
    ensures paths[i].value < bound
  {
  }

  lemma WordsRead(text: seq<Word>, at: nat, ws: seq<Word>, lo: nat, n: nat, v: nat)
    requires Holds(text, at, ws) && lo + n <= |ws| && ws[lo..lo + n] == WordsOf(v, n) && v < Pow2(16 * n)
    ensures NumberOf(Words(text, at + lo, n)) == v
  {
    hide Pow2, Holds, Words, NumberOf, WordsOf;
    WordsAt(text, at, ws, lo, n);
    WordsRoundTrip(v, n);
  }

  /** The cases are in the order that bisection needs. */
  lemma CasesBisect<S>(m: Machine<S>, t: Term, v: nat)
    requires t.Switch? && LastOk(m, t)
    ensures Bisected(Keys(t.paths), v) == Find(Keys(t.paths), v)
  {
    hide Bisected, Find;
    assert Ascending(Keys(t.paths));
    BisectionFinds(Keys(t.paths), v);
  }

  /** There are no more distinct cases than values. */
  lemma {:induction false} FewCases(paths: seq<Path>, bound: nat)
    requires Sorted(paths) && Distinct(paths) && Below(paths, bound)
    ensures |paths| <= bound
  {
    if paths != [] {
      var last := |paths| - 1;
      assert forall i | 0 <= i < last :: paths[i].value < paths[last].value;
      FewCases(paths[..last], paths[last].value);
    }
  }

  /** The register of a switch after masking. */
  lemma PrefixRuns<S(!new)>(m: Machine<S>, text: seq<Word>, at: nat, t: Term, s: S)
    requires MachineOk(m) && Holds(text, at, Prefix(t, at)) && TermOk(t)
    ensures var s' := if t.Switch? && Masks(t.width) then m.setScratch(s, m.read(s, t.reg) % Pow2(t.width)) else s;
            Run(m, text, At(at, s), if Prefix(t, at) == [] then 0 else 1) == At(at + |Prefix(t, at)|, s')
  {
    hide Exec1, Holds, Run, Pow2;
    var ws := Prefix(t, at);
    if ws == [] {
      RunNone(m, text, At(at, s));
    } else {
      PlainRuns(m, text, at, ws, s);
      RunOne(m, text, at, s);
    }
  }

  // ----- the last instruction -----

  /** The block is at its place and its distances are right. */
  ghost predicate Ready(text: seq<Word>, f: seq<Block>, k: nat) {
    k < |f| && BlockAt(text, f, k, DeltaWords(f, Core(f, k), TargetsOf(f, k))) && AllReach(f, k)
  }

  lemma HeadWord(text: seq<Word>, f: seq<Block>, k: nat, i: nat)
    requires Ready(text, f, k) && i < |HeadOf(f, k)|
    ensures Wd(text, Core(f, k) + i) == HeadOf(f, k)[i]
  {
    hide Start, Head, Targets, Flat, Prefix, Tail, DeltaWords, Reaches;
    WordAt(text, Core(f, k), HeadOf(f, k), i);
  }

  /** Taking the j-th distance leads to the first word of the j-th target. */
  lemma TargetLands(text: seq<Word>, f: seq<Block>, k: nat, j: nat)
    requires Ready(text, f, k) && j < |TargetsOf(f, k)|
    ensures Jump(Core(f, k), Wd(text, Core(f, k) + |HeadOf(f, k)| + j)) == Start(f, FindBlock(f, TargetsOf(f, k)[j]))
  {
    hide Start, Head, Targets, Flat, Prefix, Tail, Reaches, Jump, DeltaWord;
    var core := Core(f, k);
    WordAt(text, core + |HeadOf(f, k)|, DeltaWords(f, core, TargetsOf(f, k)), j);
    JumpLands(f, core, TargetsOf(f, k)[j]);
  }

  /** Where the program goes from an exit, and where the interpreter is then. */
  function PlaceOf<S>(f: seq<Block>, e: Exit<S>): (r: Place<S>) {
    match e
    case Goto(id, s) => In(FindBlock(f, id), s)
    case End(s) => Stopped(s)
    case Nowhere => Undefined
  }

  ghost predicate Shows<S>(f: seq<Block>, c: Conf<S>, p: Place<S>) {
    match p
    case In(k, s) => k <= |f| && c == At(Start(f, k), s)
    case Stopped(s) => c == Halted(s)
    case Undefined => true
  }

  lemma BranchRuns<S>(m: Machine<S>, text: seq<Word>, f: seq<Block>, k: nat, s: S)
    requires Ready(text, f, k) && LastOk(m, f[k].term) && TermOk(f[k].term)
    requires !f[k].term.Switch? && !(f[k].term.Br? && f[k].term.to == NextId(f, k))
    ensures Shows(f, Exec1(m, text, Core(f, k), s), PlaceOf(f, Leave(m, f[k].term, s)))
  {
    hide Start, FindBlock, Jump, Wd, BlockAt, AllReach, Flat, Prefix, DeltaWords, Reaches, Words, MaskInstr;
    var t, core := f[k].term, Core(f, k);
    match t {
      case Stop(ws) =>
        StopHolds(text, f, k);
        PlainRuns(m, text, core, ws, s);
      case Br(to) =>
        HeadWord(text, f, k, 0);
        TargetLands(text, f, k, 0);
      case BrConst(value, yes, no) =>
        HeadWord(text, f, k, 0);
        TargetLands(text, f, k, 0);
      case BrCond(reg, yes, no) =>
        HeadWord(text, f, k, 0);
        HeadWord(text, f, k, 1);
        TargetLands(text, f, k, 0);
        TargetLands(text, f, k, 1);
      case CmpBr(op, operands, yes, no) =>
        HeadWord(text, f, k, 0);
        OperandsRead(text, f, k);
        TargetLands(text, f, k, 0);
        TargetLands(text, f, k, 1);
      case Invoke(op, args, normal, unwind) =>
        HeadWord(text, f, k, 0);
        HeadsRead(text, f, k);
        TargetLands(text, f, k, 0);
        TargetLands(text, f, k, 1);
    }
  }

  lemma StopHolds(text: seq<Word>, f: seq<Block>, k: nat)
    requires Ready(text, f, k) && f[k].term.Stop?
    ensures Holds(text, Core(f, k), f[k].term.ws)
  {
  }

  lemma OperandsRead(text: seq<Word>, f: seq<Block>, k: nat)
    requires Ready(text, f, k) && f[k].term.CmpBr?
    ensures Words(text, Core(f, k) + 3, |f[k].term.operands|) == f[k].term.operands
  {
    hide Start, Flat, Prefix, Reaches, DeltaWord, Words, Holds;
    var ws := f[k].term.operands;
    WordsAt(text, Core(f, k) + 3, ws, 0, |ws|);
    assert ws[0..|ws|] == ws;
  }

  lemma HeadsRead(text: seq<Word>, f: seq<Block>, k: nat)
    requires Ready(text, f, k)
    ensures Words(text, Core(f, k), |HeadOf(f, k)|) == HeadOf(f, k)
  {
    hide Start, Flat, Prefix, Reaches, DeltaWord, Words, Holds, Head, Targets, Tail;
    var ws := HeadOf(f, k);
    WordsAt(text, Core(f, k), ws, 0, |ws|);
    assert ws[0..|ws|] == ws;
  }

  function RangeOf(n: nat): (r: nat)
    ensures r > 0
  {
    if n == 1 then R8 else if n == 2 then R32 else R64
  }

  /** How the interpreter reduces the register of a switch. */
  function Reduce(l: Lowering, r: nat): (res: nat) {
    match l
    case JumpTable(size) => if size > 0 then r % R8 % size else 0
    case Bisect(n) => r % RangeOf(n)
  }

  /** The reduced register is the value of the switch. */
  lemma Reduced<S(!new)>(m: Machine<S>, t: Term, s: S)
    requires MachineOk(m) && t.Switch? && TermOk(t) && LastOk(m, t) && Leave(m, t, s) != Nowhere
    ensures var v := m.read(s, t.reg) % Pow2(t.width);
            var s' := if Masks(t.width) then m.setScratch(s, v) else s;
            Reduce(Lower(t.width, |t.paths|), m.read(s', if Masks(t.width) then SCRATCH_REG else t.reg)) == v
  {
    PowersOfTwo();
    hide Pow2, Scan;
    var r, v := m.read(s, t.reg), m.read(s, t.reg) % Pow2(t.width);
    if Masks(t.width) {
      WidthBelow32(t.width);
      Small(v, R32);
    } else if t.width == 1 {
      FewCases(t.paths, 2);
      LowBit(r);
    } else if t.width <= 4 {
      LowBits(r, t.width);
    } else if t.width == 8 {
      Small(r % R8, R8);
    }
  }

  lemma WidthBelow32(width: nat)
    requires 0 < width < 32
    ensures Pow2(width) <= R32
  {
    Pow2Monotone(width, 32);
    PowersOfTwo();
  }

  lemma LowBit(r: nat)
    requires r % R8 < 2
    ensures r % R8 == r % 2
  {
  }

  lemma LowBits(r: nat, width: nat)
    requires 2 <= width <= 4
    ensures r % R8 % Pow2(width) == r % Pow2(width)
  {
    PowersOfTwo();
    hide Pow2;
    var q, x := r / 256, r % 256;
    if width == 2 {
      DivModUnique(r, 4, 64 * q + x / 4, x % 4);
    } else if width == 3 {
      DivModUnique(r, 8, 32 * q + x / 8, x % 8);
    } else {
      DivModUnique(r, 16, 16 * q + x / 16, x % 16);
    }
  }

  /** The place in the target list that belongs to a value. */
  function Slot(l: Lowering, paths: seq<Path>, v: nat): (r: nat) {
    match l
    case JumpTable(_) => v
    case Bisect(_) => Find(Keys(paths), v)
  }

  /** The target in that place is the one a scan of the cases finds. */
  lemma SlotIsScan(t: Term, next: nat, v: nat)
    requires t.Switch? && Distinct(t.paths) && Below(t.paths, Pow2(t.width)) && v < Pow2(t.width) && TermOk(t)
    requires Lower(t.width, |t.paths|).JumpTable? ==> t.width != 1
    ensures var j := Slot(Lower(t.width, |t.paths|), t.paths, v);
            j < |Targets(t, next)| && Targets(t, next)[j] == Scan(t.paths, v, t.default)
  {
    PowersOfTwo();
    hide Pow2, Scan, Table;
    match Lower(t.width, |t.paths|) {
      case JumpTable(size) => TableScan(t.paths, size, t.default, v);
      case Bisect(n) => FindScan(t.paths, v, t.default);
    }
  }

  lemma SwitchRuns<S(!new)>(m: Machine<S>, text: seq<Word>, f: seq<Block>, k: nat, s: S, s': S)
    requires k < |f| && MachineOk(m) && Ready(text, f, k) && LastOk(m, f[k].term) && TermOk(f[k].term)
              && f[k].term.Switch?
    requires Leave(m, f[k].term, s) != Nowhere
    requires s' == if Masks(f[k].term.width) then m.setScratch(s, m.read(s, f[k].term.reg) % Pow2(f[k].term.width))
              else s
    ensures Shows(f, Exec1(m, text, Core(f, k), s'), PlaceOf(f, Leave(m, f[k].term, s)))
  {
    hide Start, FindBlock, Jump, BlockAt, AllReach, Flat, Prefix, DeltaWords, Reaches, Pow2, Scan, Targets, KeysAt,
        Find, Bisected, Exec1, Ready;
    var t := f[k].term;
    var v := m.read(s, t.reg) % Pow2(t.width);
    var l := Lower(t.width, |t.paths|);
    Reduced(m, t, s);
    NoTableForOneBit(m, t);
    SlotIsScan(t, NextId(f, k), v);
    TargetLands(text, f, k, Slot(l, t.paths, v));
    SwitchReads(m, text, f, k, s', v);
  }

  lemma NoTableForOneBit<S>(m: Machine<S>, t: Term)
    requires t.Switch? && LastOk(m, t)
    ensures Lower(t.width, |t.paths|).JumpTable? ==> t.width != 1
    ensures Pow2(t.width) > 0
  {
    if t.width == 1 {
      assert Pow2(1) == 2;
      FewCases(t.paths, 2);
    }
  }

  /** The interpreter reads the distance in the slot of the reduced value. */
  lemma SwitchReads<S(!new)>(m: Machine<S>, text: seq<Word>, f: seq<Block>, k: nat, s: S, v: nat)
    requires k < |f| && Ready(text, f, k) && LastOk(m, f[k].term) && TermOk(f[k].term) && f[k].term.Switch?
    requires var t := f[k].term;
              v == Reduce(Lower(t.width, |t.paths|), m.read(s, if Masks(t.width) then SCRATCH_REG else t.reg))
    ensures var j := Slot(Lower(f[k].term.width, |f[k].term.paths|), f[k].term.paths, v);
            Exec1(m, text, Core(f, k), s) == At(Jump(Core(f, k), Wd(text, Core(f, k) + |HeadOf(f, k)| + j)), s)
  {
    hide Ready, Wd, Exec1, Lower, Find, Bisected, LastOk, Head, Reduce, Core, Jump, Start, Pow2;
    var t := f[k].term;
    if Lower(t.width, |t.paths|).JumpTable? {
      TableReads(m, text, f, k, s, v);
    } else {
      KeyedReads(m, text, f, k, s, v, Lower(t.width, |t.paths|).keyWords);
      CasesBisect(m, t, v);
    }
  }

  lemma TableReads<S(!new)>(m: Machine<S>, text: seq<Word>, f: seq<Block>, k: nat, s: S, v: nat)
    requires k < |f| && Ready(text, f, k) && TermOk(f[k].term) && f[k].term.Switch?
    requires Lower(f[k].term.width, |f[k].term.paths|).JumpTable?
    requires var t := f[k].term;
              v == Reduce(Lower(t.width, |t.paths|), m.read(s, if Masks(t.width) then SCRATCH_REG else t.reg))
    ensures Exec1(m, text, Core(f, k), s) == At(Jump(Core(f, k), Wd(text, Core(f, k) + |HeadOf(f, k)| + v)), s)
  {
    hide Ready, Wd, Exec1, Lower, Head, Core, Jump, Start, Pow2;
    SwitchHead(f[k].term, NextId(f, k));
    HeadWord(text, f, k, 0);
    HeadWord(text, f, k, 1);
    HeadWord(text, f, k, 2);
    ExecTable(m, text, Core(f, k), s);
  }

  lemma KeyedReads<S(!new)>(m: Machine<S>, text: seq<Word>, f: seq<Block>, k: nat, s: S, v: nat, n: nat)
    requires k < |f| && Ready(text, f, k) && LastOk(m, f[k].term) && TermOk(f[k].term) && f[k].term.Switch?
    requires Lower(f[k].term.width, |f[k].term.paths|) == Bisect(n)
    requires var t := f[k].term;
              v == Reduce(Lower(t.width, |t.paths|), m.read(s, if Masks(t.width) then SCRATCH_REG else t.reg))
    ensures var j := Bisected(Keys(f[k].term.paths), v);
            Exec1(m, text, Core(f, k), s) == At(Jump(Core(f, k), Wd(text, Core(f, k) + |HeadOf(f, k)| + j)), s)
  {
    hide *;
    KeyedHead(text, f, k, n);
    SwitchKeys(m, text, f, k, n);
    var t := f[k].term;
    ExecKeyed(m, text, Core(f, k), s, n, if Masks(t.width) then SCRATCH_REG else t.reg,
              |t.paths|, Keys(t.paths), |HeadOf(f, k)|);
  }

  lemma KeyedHead(text: seq<Word>, f: seq<Block>, k: nat, n: nat)
    requires k < |f| && Ready(text, f, k) && TermOk(f[k].term) && f[k].term.Switch?
    requires Lower(f[k].term.width, |f[k].term.paths|) == Bisect(n)
    ensures var t, core := f[k].term, Core(f, k);
      && (n == 1 || n == 2 || n == 4) && Wd(text, core) == SwitchOp(Bisect(n))
      && Wd(text, core + 1) == (if Masks(t.width) then SCRATCH_REG else t.reg)
      && Wd(text, core + 2) as int == |t.paths|
  {
    hide Ready, Wd, Lower, Head, Core, Start, KeyWords, TermOk, Masks, SwitchOp, Pow2;
    SwitchHead(f[k].term, NextId(f, k));
    HeadWord(text, f, k, 0);
    HeadWord(text, f, k, 1);
    HeadWord(text, f, k, 2);
  }

  lemma ExecTable<S>(m: Machine<S>, text: seq<Word>, pos: int, s: S)
    requires Wd(text, pos) == VM_JUMPTABLE && Wd(text, pos + 2) > 0
    ensures var j := Reduce(JumpTable(Wd(text, pos + 2)), m.read(s, Wd(text, pos + 1)));
            Exec1(m, text, pos, s) == At(Jump(pos, Wd(text, pos + 3 + j)), s)
  {
  }

  lemma ExecKeyed<S>(m: Machine<S>, text: seq<Word>, pos: int, s: S, n: nat, reg: Word, p: nat, keys: seq<nat>,
                     head: nat)
    requires (n == 1 || n == 2 || n == 4) && Wd(text, pos) == SwitchOp(Bisect(n)) && Wd(text, pos + 1) == reg
              && Wd(text, pos + 2) as int == p
    requires KeysAt(text, pos + 3, p, n, RangeOf(n)) == keys && head == 3 + p * n
    ensures var v := Reduce(Bisect(n), m.read(s, reg));
            Exec1(m, text, pos, s) == At(Jump(pos, Wd(text, pos + head + Bisected(keys, v))), s)
  {
    hide KeysAt, Bisected, Jump;
  }

  lemma SwitchHead(t: Term, next: nat)
    requires t.Switch? && TermOk(t)
    ensures var h := Head(t, next);
            var reg := if Masks(t.width) then SCRATCH_REG else t.reg;
            match Lower(t.width, |t.paths|)
            case JumpTable(size) => 0 < size < 65536 && h == [VM_JUMPTABLE, reg, size]
            case Bisect(n) => n in {1, 2, 4} && h == [SwitchOp(Bisect(n)), reg, |t.paths|] + KeyWords(t.paths, n)
  {
    PowersOfTwo();
    hide Pow2, KeyWords;
  }

  lemma SwitchKeys<S>(m: Machine<S>, text: seq<Word>, f: seq<Block>, k: nat, n: nat)
    requires k < |f| && Ready(text, f, k) && LastOk(m, f[k].term) && TermOk(f[k].term) && f[k].term.Switch?
    requires Lower(f[k].term.width, |f[k].term.paths|) == Bisect(n)
    ensures KeysAt(text, Core(f, k) + 3, |f[k].term.paths|, n, RangeOf(n)) == Keys(f[k].term.paths)
    ensures |HeadOf(f, k)| == 3 + |f[k].term.paths| * n
  {
    PowersOfTwo();
    hide Start, FindBlock, AllReach, Flat, Prefix, DeltaWords, Reaches, Pow2, Targets, KeysAt, Head, KeyWords;
    var t := f[k].term;
    SwitchHead(t, NextId(f, k));
    WidthInRange(t.width, n, |t.paths|);
    var three := HeadOf(f, k)[..3];
    assert HeadOf(f, k) == three + KeyWords(t.paths, n);
    HoldsParts(text, Core(f, k), three, KeyWords(t.paths, n));
    KeysRead(text, Core(f, k) + 3, t.paths, n, RangeOf(n));
  }

  lemma WidthInRange(width: nat, n: nat, cases: nat)
    requires Lower(width, cases) == Bisect(n) && 1 <= width && (width <= 32 || width == 64)
    ensures Pow2(width) <= RangeOf(n) <= Pow2(16 * n)
  {
    hide Pow2;
    PowersOfTwo();
    if width < 32 {
      Pow2Monotone(width, 32);
    }
  }

  // ----- whole blocks and whole runs -----

  /** From the first word of a block the interpreter gets to where the program goes next. */
  lemma BlockRuns<S(!new)>(m: Machine<S>, text: seq<Word>, f: seq<Block>, k: nat, s: S) returns (steps: nat)
    requires MachineOk(m) && CodeOk(m, f) && k < |f| && Ready(text, f, k)
    ensures Shows(f, Run(m, text, At(Start(f, k), s), steps), Step(m, f, k, s))
  {
    hide Exec1, FindBlock, Run, DeltaWords, AllReach, LastOk, BodyOk, Leave, Head, Targets, Tail, Prefix;
    var b, start := f[k], Start(f, k);
    var at, t := start + |Flat(b.body)|, b.term;
    var s1 := ExecBody(m, b.body, s);
    BodyRuns(m, text, start, b.body, s);
    PrefixRuns(m, text, at, t, s1);
    var more := if Prefix(t, at) == [] then 0 else 1;
    RunAdd(m, text, At(start, s), |b.body|, more);
    steps := |b.body| + more;
    var s2 := if t.Switch? && Masks(t.width) then m.setScratch(s1, m.read(s1, t.reg) % Pow2(t.width)) else s1;
    assert Run(m, text, At(start, s), steps) == At(Core(f, k), s2);
    if t.Br? && t.to == NextId(f, k) {
      FallThrough(m, f, k, s1);
    } else {
      RunAdd(m, text, At(start, s), steps, 1);
      RunOne(m, text, Core(f, k), s2);
      LastRuns(m, text, f, k, s1, s2);
      steps := steps + 1;
    }
  }

  lemma LastRuns<S(!new)>(m: Machine<S>, text: seq<Word>, f: seq<Block>, k: nat, s: S, s': S)
    requires MachineOk(m) && k < |f| && Ready(text, f, k) && LastOk(m, f[k].term) && TermOk(f[k].term)
    requires !(f[k].term.Br? && f[k].term.to == NextId(f, k))
    requires var t := f[k].term;
             s' == if t.Switch? && Masks(t.width) then m.setScratch(s, m.read(s, t.reg) % Pow2(t.width)) else s
    ensures Shows(f, Exec1(m, text, Core(f, k), s'), PlaceOf(f, Leave(m, f[k].term, s)))
  {
    hide Start, FindBlock, Ready, Exec1, Core, LastOk, Pow2, TermOk;
    if !f[k].term.Switch? {
      BranchRuns(m, text, f, k, s');
    } else if Leave(m, f[k].term, s) != Nowhere {
      SwitchRuns(m, text, f, k, s, s');
    }
  }

  /** A jump to the next block is not written. */
  lemma FallThrough<S>(m: Machine<S>, f: seq<Block>, k: nat, s: S)
    requires FunctionOk(f) && k < |f| && f[k].term.Br? && f[k].term.to == NextId(f, k)
    ensures PlaceOf(f, Leave(m, f[k].term, s)) == In(k + 1, s)
    ensures Start(f, k + 1) == Core(f, k)
  {
    assert IdsBelow(f[k].term);
    assert k + 1 < |f| && f[k + 1].id == f[k].term.to;
    assert forall j | 0 <= j < k + 1 :: f[j].id != f[k + 1].id;
  }

  /** Byte-code runs follow runs of the control flow graph: after n blocks of the program the
      interpreter, some steps later, is at the first word of the same block in the same state, or
      both have stopped in the same state. */
  lemma {:induction false} CodeFollowsGraph<S(!new)>(m: Machine<S>, text: seq<Word>, f: seq<Block>, k: nat, s: S,
                                                     n: nat)
    returns (steps: nat)
    requires MachineOk(m) && CodeOk(m, f) && k < |f| && Fixed(text, f) && forall j | 0 <= j < |f| :: AllReach(f, j)
    ensures Shows(f, Run(m, text, At(Start(f, k), s), steps), RunCfg(m, f, In(k, s), n))
    decreases n
  {
    hide Exec1, Start, FindBlock, CodeOk, Step, Run, BlockAt, MachineOk;
    if n == 0 {
      RunNone(m, text, At(Start(f, k), s));
      steps := 0;
    } else {
      steps := BlockRuns(m, text, f, k, s);
      var p := Step(m, f, k, s);
      if p.In? && p.k < |f| {
        var more := CodeFollowsGraph(m, text, f, p.k, p.s, n - 1);
        RunAdd(m, text, At(Start(f, k), s), steps, more);
        steps := steps + more;
      }
    }
  }

  // ----- a machine -----

  /** Bitwise and. */
  function BitAnd(x: nat, y: nat): (r: nat) {
    if x == 0 || y == 0 then 0 else x % 2 * (y % 2) + 2 * BitAnd(x / 2, y / 2)
  }

  lemma BitAndOdd(x: nat, m: nat)
    requires m > 0
    ensures BitAnd(x, 2 * m - 1) == x % 2 + 2 * BitAnd(x / 2, m - 1)
  {
    assert (2 * m - 1) / 2 == m - 1 && (2 * m - 1) % 2 == 1;
  }

  /** Masking with the lowest bits is a remainder. */
  lemma {:induction false} MaskIsRemainder(x: nat, k: nat)
    ensures Pow2(k) > 0 && BitAnd(x, Pow2(k) - 1) == x % Pow2(k)
    decreases k
  {
    hide BitAnd, Pow2;
    Doubling(k);
    if k == 0 {
      NoBits(x);
    } else {
      var m := Pow2(k - 1);
      MaskIsRemainder(x / 2, k - 1);
      BitAndOdd(x, m);
      ModStep(x, m);
    }
  }

  lemma Doubling(k: nat)
    ensures if k == 0 then Pow2(k) == 1 else Pow2(k) == 2 * Pow2(k - 1)
  {
  }

  lemma NoBits(x: nat)
    ensures BitAnd(x, 0) == 0 == x % 1
  {
  }

  type Registers = map<Word, nat>

  function Register(s: Registers, reg: Word): (r: nat) {
    if reg in s then s[reg] else 0
  }

  function ToyLength(op: Word): (r: nat) {
    if op == VM_AND_R32C then 5 else if op == VM_CAST_16_TRUNC_32 then 3 else 1
  }

  /** VM_NOP, VM_AND_R32C and VM_CAST_16_TRUNC_32; everything else returns. */
  function ToyExec(ws: seq<Word>, s: Registers): (r: Registers) {
    if |ws| == 5 && ws[0] == VM_AND_R32C then s[ws[1] := BitAnd(Register(s, ws[2]), NumberOf(ws[3..]))]
    else if |ws| == 3 && ws[0] == VM_CAST_16_TRUNC_32 then s[ws[1] := Register(s, ws[2]) % 0x1_0000]
    else s
  }

  function Toy(): (m: Machine<Registers>) {
    Machine(ToyLength, op => op != VM_NOP && op != VM_AND_R32C && op != VM_CAST_16_TRUNC_32, ToyExec,
            (ws, s) => false, (ws, s) => (s, false), Register, (s, v) => s[SCRATCH_REG := v])
  }

  lemma ToyMasks(s: Registers, reg: Word, width: nat)
    requires 0 < width < 32
    ensures ToyExec(MaskInstr(reg, width), s) == s[SCRATCH_REG := Register(s, reg) % Pow2(width)]
  {
    hide Pow2, BitAnd, WordsOf, NumberOf;
    PowersOfTwo();
    if width != 16 {
      Pow2Monotone(width, 32);
      MaskIsRemainder(Register(s, reg), width);
      WordsRoundTrip(Pow2(width) - 1, 2);
      assert MaskInstr(reg, width)[3..] == WordsOf(Pow2(width) - 1, 2);
    }
  }

  /** The hypotheses about the masking instructions hold of a machine that executes them. */
  lemma ToyMachineOk()
    ensures MachineOk(Toy())
  {
    hide ToyExec, MaskInstr, Pow2;
    forall s: Registers, reg: Word, width: nat | 0 < width < 32
      ensures ToyExec(MaskInstr(reg, width), s) == s[SCRATCH_REG := Register(s, reg) % Pow2(width)]
    {
      ToyMasks(s, reg, width);
    }
    forall s: Registers
      ensures ToyExec([VM_NOP], s) == s
    {
      ToyNop(s);
    }
  }

  lemma ToyNop(s: Registers)
    ensures ToyExec([VM_NOP], s) == s
  {
  }
}
