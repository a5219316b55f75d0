/** The byte code of a function: what the emitters write for each block, and how branch_fixup turns
    block ids into distances.  Positions count 16-bit words. */
module ByteCode {
  import opened Arith
  import opened Switch

  type Word = w: int | 0 <= w < 65536 witness 0

  const VM_AND_R32C: Word := 53
  const VM_EQ8_BR: Word := 275
  const VM_SLE32_C_BR: Word := 314
  const VM_B: Word := 343
  const VM_BCOND: Word := 344
  const VM_INVOKE: Word := 349
  const VM_INVOKE_EXT: Word := 352
  const VM_JUMPTABLE: Word := 355
  const VM_SWITCH8_BS: Word := 356
  const VM_SWITCH32_BS: Word := 357
  const VM_SWITCH64_BS: Word := 358
  const VM_CAST_16_TRUNC_32: Word := 379
  const VM_NOP: Word := 488

  const SCRATCH_REG: Word := 0

  /** Opcodes with block ids among their operands. */
  predicate IsBranch(op: Word) {
    VM_EQ8_BR <= op <= VM_SLE32_C_BR || op == VM_B || op == VM_BCOND || VM_INVOKE <= op <= VM_INVOKE_EXT
    || VM_JUMPTABLE <= op <= VM_SWITCH64_BS
  }

  datatype Term =
    | Stop(ws: seq<Word>)
    | Br(to: nat)
    | BrConst(value: nat, yes: nat, no: nat)
    | BrCond(reg: Word, yes: nat, no: nat)
    | CmpBr(op: Word, operands: seq<Word>, yes: nat, no: nat)
    | Invoke(op: Word, args: seq<Word>, normal: nat, unwind: nat)
    | Switch(reg: Word, width: nat, paths: seq<Path>, default: nat)

  /** body holds the instructions before the last one, encoded. */
  datatype Block = Block(id: nat, body: seq<seq<Word>>, term: Term)

  // ----- switches -----

  datatype Lowering = JumpTable(size: nat) | Bisect(keyWords: nat)

  /** Which form emit_switch chooses. */
  function Lower(width: nat, cases: nat): (l: Lowering)
    ensures l.JumpTable? ==> l.size > 0
  {
    if width == 1 || width == 8 then if cases > 64 then JumpTable(256) else Bisect(1)
    else if width == 16 || width == 32 then Bisect(2)
    else if width == 64 then Bisect(4)
    else if width <= 4 then JumpTable(Pow2(width))
    else Bisect(2)
  }

  /** A table has an entry for every value of the bits that are looked at, and is used for up to four bits, and
      for a byte with more than 64 cases; otherwise keys are stored in the narrowest form that holds the value. */
  lemma SwitchForms(width: nat, cases: nat)
    requires 1 <= width && (width <= 32 || width == 64)
    ensures Lower(width, cases).JumpTable? <==> 2 <= width <= 4 || ((width == 1 || width == 8) && cases > 64)
    ensures Lower(width, cases).JumpTable? ==>
              Lower(width, cases).size == Pow2(if width <= 4 && width != 1 then width else 8)
    ensures Lower(width, cases).Bisect? ==>
              var n := Lower(width, cases).keyWords;
              (n == 1 <==> width <= 8 && !Masks(width)) && (n == 4 <==> width > 32) && (n == 1 || n == 2 || n == 4)
    ensures Masks(width) ==> Lower(width, cases) == Bisect(2)
  {
    PowersOfTwo();
  }

  /** Whether the value is first masked into the scratch register. */
  predicate Masks(width: nat) {
    width == 16 || (width > 4 && width != 8 && width != 32 && width != 64)
  }

  function MaskInstr(reg: Word, width: nat): (r: seq<Word>) {
    if width == 16 then [VM_CAST_16_TRUNC_32, SCRATCH_REG, reg]
    else [VM_AND_R32C, SCRATCH_REG, reg] + WordsOf(Pow2(width) - 1, 2)
  }

  /** The first n words of a number, low word first. */
  function WordsOf(v: nat, n: nat): (r: seq<Word>)
    ensures |r| == n
  {
    if n == 0 then [] else [v % 65536] + WordsOf(v / 65536, n - 1)
  }

  /** What the words mean. */
  function NumberOf(ws: seq<Word>): (r: nat) {
    if ws == [] then 0 else ws[0] + 65536 * NumberOf(ws[1..])
  }

  lemma {:induction false} WordsRoundTrip(v: nat, n: nat)
    requires v < Pow2(16 * n)
    ensures NumberOf(WordsOf(v, n)) == v
  {
    if n > 0 {
      Pow2Add(16, 16 * (n - 1));
      Pow2Add(8, 8);
      assert Pow2(8) == 256;
      assert WordsOf(v, n)[1..] == WordsOf(v / 65536, n - 1);
      WordsRoundTrip(v / 65536, n - 1);
    }
  }

  function KeyWords(paths: seq<Path>, n: nat): (r: seq<Word>)
    ensures |r| == |paths| * n
  {
    if paths == [] then []
    else
      assert |paths| * n == (|paths| - 1) * n + n;
      KeyWords(paths[..|paths| - 1], n) + WordsOf(paths[|paths| - 1].value, n)
  }

  function Blocks(paths: seq<Path>): (r: seq<nat>)
    ensures |r| == |paths| && forall i | 0 <= i < |paths| :: r[i] == paths[i].block
  {
    seq(|paths|, i requires 0 <= i < |paths| => paths[i].block)
  }

  // ----- the words of a block -----

  /** What is written in front of a switch: it masks the value, or aligns 64-bit keys. */
  function Prefix(t: Term, at: nat): (r: seq<Word>) {
    if !t.Switch? then []
    else if Masks(t.width) then MaskInstr(t.reg, t.width)
    else if t.width == 64 && at % 2 == 0 then [VM_NOP]
    else []
  }

  function SwitchOp(l: Lowering): (r: Word) {
    match l
    case JumpTable(_) => VM_JUMPTABLE
    case Bisect(n) => if n == 1 then VM_SWITCH8_BS else if n == 2 then VM_SWITCH32_BS else VM_SWITCH64_BS
  }

  /** The last instruction up to its block ids. */
  function Head(t: Term, next: nat): (r: seq<Word>) {
    match t
    case Stop(ws) => ws
    case Br(to) => if to == next then [] else [VM_B]
    case BrConst(_, _, _) => [VM_B]
    case BrCond(reg, _, _) => [VM_BCOND, reg]
    case CmpBr(op, _, _, _) => [op]
    case Invoke(op, args, _, _) => [op] + args
    case Switch(reg, width, paths, _) =>
      var l := Lower(width, |paths|);
      match l
      case JumpTable(size) => [VM_JUMPTABLE, if Masks(width) then SCRATCH_REG else reg, size % 65536]
      case Bisect(n) =>
        [SwitchOp(l), if Masks(width) then SCRATCH_REG else reg] + ([|paths| % 65536] + KeyWords(paths, n))
  }

  /** The ids of the blocks it may go to, in the order in which they are written. */
  function Targets(t: Term, next: nat): (r: seq<nat>) {
    match t
    case Stop(_) => []
    case Br(to) => if to == next then [] else [to]
    case BrConst(value, yes, no) => [if value != 0 then yes else no]
    case BrCond(_, yes, no) => [yes, no]
    case CmpBr(_, _, yes, no) => [yes, no]
    case Invoke(_, _, normal, unwind) => [normal, unwind]
    case Switch(_, width, paths, default) =>
      var l := Lower(width, |paths|);
      match l
      case JumpTable(size) => Table(paths, size, default)
      case Bisect(n) => Blocks(paths) + [default]
  }

  function Tail(t: Term): (r: seq<Word>) {
    if t.CmpBr? then t.operands else []
  }

  function Flat(body: seq<seq<Word>>): (r: seq<Word>) {
    if body == [] then [] else Flat(body[..|body| - 1]) + body[|body| - 1]
  }

  // ----- the layout of a function -----

  /** No block has this id. */
  const NO_BLOCK := 65536

  function NextId(f: seq<Block>, k: nat): (r: nat) {
    if k + 1 < |f| then f[k + 1].id else NO_BLOCK
  }

  function CoreAt(b: Block, start: nat): (at: nat)
    ensures at >= start
  {
    var at := start + |Flat(b.body)|;
    at + |Prefix(b.term, at)|
  }

  /** Where block k begins, in words. */
  function Start(f: seq<Block>, k: nat): (r: nat)
    requires k <= |f|
  {
    if k == 0 then 0
    else
      var t, next := f[k - 1].term, NextId(f, k - 1);
      CoreAt(f[k - 1], Start(f, k - 1)) + |Head(t, next)| + |Targets(t, next)| + |Tail(t)|
  }

  /** Where the last instruction of block k begins. */
  function Core(f: seq<Block>, k: nat): (at: nat)
    requires k < |f|
    ensures at >= Start(f, k)
  {
    CoreAt(f[k], Start(f, k))
  }

  predicate Holds(text: seq<Word>, at: nat, ws: seq<Word>) {
    at + |ws| <= |text| && text[at..at + |ws|] == ws
  }

  /** The block has been written at its place with its targets as given. */
  ghost predicate BlockAt(text: seq<Word>, f: seq<Block>, k: nat, targets: seq<Word>)
    requires k < |f|
  {
    var b, start, next := f[k], Start(f, k), NextId(f, k);
    var at, core := start + |Flat(b.body)|, Core(f, k);
    && |targets| == |Targets(b.term, next)|
    && Holds(text, start, Flat(b.body))
    && Holds(text, at, Prefix(b.term, at))
    && Holds(text, core, Head(b.term, next))
    && Holds(text, core + |Head(b.term, next)|, targets)
    && Holds(text, core + |Head(b.term, next)| + |targets|, Tail(b.term))
  }

  function IdWords(ids: seq<nat>): (r: seq<Word>)
    ensures |r| == |ids| && forall i | 0 <= i < |ids| :: r[i] == ids[i] % 65536
  {
    seq(|ids|, i requires 0 <= i < |ids| => ids[i] % 65536)
  }

  /** bb_find: the position of the block with an id, or the number of blocks. */
  function FindBlock(f: seq<Block>, id: nat): (k: nat)
    ensures k <= |f| && (k < |f| ==> f[k].id == id)
    ensures forall j | 0 <= j < k :: f[j].id != id
  {
    if f == [] || f[0].id == id then 0 else FindBlock(f[1..], id) + 1
  }

  /** The distance in bytes from behind the opcode at off to a block. */
  function Distance(f: seq<Block>, off: nat, id: nat): (r: int)
    requires FindBlock(f, id) < |f|
  {
    2 * Start(f, FindBlock(f, id)) - (2 * off + 2)
  }

  /** bb_to_offset_delta succeeds. */
  predicate Reaches(f: seq<Block>, off: nat, id: nat) {
    FindBlock(f, id) < |f| && -32768 <= Distance(f, off, id) <= 32767
  }

  function DeltaWord(f: seq<Block>, off: nat, id: nat): (r: Word) {
    if Reaches(f, off, id) then Distance(f, off, id) % 65536 else 0
  }

  function DeltaWords(f: seq<Block>, off: nat, ids: seq<nat>): (r: seq<Word>)
    ensures |r| == |ids| && forall i | 0 <= i < |ids| :: r[i] == DeltaWord(f, off, ids[i])
  {
    seq(|ids|, i requires 0 <= i < |ids| => DeltaWord(f, off, ids[i]))
  }

  /** What the emitters are given. */
  predicate TermOk(t: Term) {
    match t
    case Stop(ws) => ws != [] && !IsBranch(ws[0])
    case Br(to) => true
    case BrConst(_, _, _) => true
    case BrCond(_, _, _) => true
    case CmpBr(op, _, _, _) => VM_EQ8_BR <= op <= VM_SLE32_C_BR
    case Invoke(op, args, _, _) => VM_INVOKE <= op <= VM_INVOKE_EXT && |args| == 3
    case Switch(_, width, paths, _) => |paths| < 65536 && 1 <= width && (width <= 32 || width == 64)
  }

  predicate FunctionOk(f: seq<Block>) {
    && (forall k | 0 <= k < |f| :: f[k].id < NO_BLOCK && TermOk(f[k].term) && IdsBelow(f[k].term))
    && (forall i, j | 0 <= i < j < |f| :: f[i].id != f[j].id)
  }

  predicate IdsBelow(t: Term) {
    && (t.Br? ==> t.to < NO_BLOCK)
    && forall i | 0 <= i < |Targets(t, NO_BLOCK)| :: Targets(t, NO_BLOCK)[i] < NO_BLOCK
  }

  // ----- what the fix-ups do -----

  function HeadOf(f: seq<Block>, k: nat): (r: seq<Word>)
    requires k < |f|
  {
    Head(f[k].term, NextId(f, k))
  }

  function TargetsOf(f: seq<Block>, k: nat): (r: seq<nat>)
    requires k < |f|
  {
    Targets(f[k].term, NextId(f, k))
  }

  /** Every target of block k is within the reach of 16 bits. */
  predicate AllReach(f: seq<Block>, k: nat)
    requires k < |f|
  {
    forall j | 0 <= j < |TargetsOf(f, k)| :: Reaches(f, Core(f, k), TargetsOf(f, k)[j])
  }

  /** The finished byte code: every block at its place, with distances for its targets. */
  ghost predicate Fixed(text: seq<Word>, f: seq<Block>) {
    && |text| == Start(f, |f|)
    && forall k | 0 <= k < |f| :: BlockAt(text, f, k, DeltaWords(f, Core(f, k), TargetsOf(f, k)))
  }

  function Patched(text: seq<Word>, at: nat, ws: seq<Word>): (r: seq<Word>)
    requires at + |ws| <= |text|
    ensures |r| == |text|
    ensures forall x | 0 <= x < |text| :: r[x] == if at <= x < at + |ws| then ws[x - at] else text[x]
  {
    text[..at] + ws + text[at + |ws|..]
  }

  /** The fix-ups of the first n blocks. */
  function FixupsOf(f: seq<Block>, n: nat): (r: seq<nat>)
    requires n <= |f|
  {
    if n == 0 then []
    else FixupsOf(f, n - 1) + if TargetsOf(f, n - 1) == [] then [] else [Core(f, n - 1)]
  }

  lemma NothingYet(f: seq<Block>)
    ensures Start(f, 0) == 0 && FixupsOf(f, 0) == []
  {
  }

  lemma FixupsStep(f: seq<Block>, n: nat)
    requires n < |f|
    ensures FixupsOf(f, n + 1) == FixupsOf(f, n) + if TargetsOf(f, n) == [] then [] else [Core(f, n)]
  {
  }

  lemma {:induction false} FixupsGrow(f: seq<Block>, m: nat, n: nat)
    requires m <= n <= |f|
    ensures FixupsOf(f, m) <= FixupsOf(f, n)
  {
    hide FixupsOf, Core, TargetsOf;
    if m < n {
      FixupsGrow(f, m, n - 1);
      FixupsStep(f, n - 1);
    }
  }

  lemma {:induction false} OwnerOf(f: seq<Block>, n: nat, i: nat) returns (k: nat)
    requires 0 < n <= |f| && i < |FixupsOf(f, n)|
    ensures k < n && |FixupsOf(f, k)| == i && TargetsOf(f, k) != [] && FixupsOf(f, n)[i] == Core(f, k)
  {
    hide *;
    NothingYet(f);
    FixupsStep(f, n - 1);
    if i < |FixupsOf(f, n - 1)| {
      k := OwnerOf(f, n - 1, i);
    } else {
      k := n - 1;
    }
  }

  /** The blocks whose fix-up is among the first i have their distances, the others their ids. */
  ghost predicate PatchedUpTo(text: seq<Word>, f: seq<Block>, i: nat) {
    && |text| == Start(f, |f|)
    && forall k | 0 <= k < |f| ::
      BlockAt(text, f, k, if |FixupsOf(f, k)| < i then DeltaWords(f, Core(f, k), TargetsOf(f, k))
                                                     else IdWords(TargetsOf(f, k)))
  }

  lemma StartStep(f: seq<Block>, k: nat)
    requires k < |f|
    ensures Start(f, k + 1) == Core(f, k) + |HeadOf(f, k)| + |TargetsOf(f, k)| + |Tail(f[k].term)|
  {
  }

  lemma {:induction false} StartMonotone(f: seq<Block>, j: nat, k: nat)
    requires j <= k <= |f|
    ensures Start(f, j) <= Start(f, k)
  {
    hide Start, HeadOf, TargetsOf, Tail;
    if j < k {
      StartMonotone(f, j, k - 1);
      StartStep(f, k - 1);
    }
  }

  predicate SameOn(text: seq<Word>, text': seq<Word>, lo: nat, hi: nat) {
    hi <= |text| && hi <= |text'| && forall x | lo <= x < hi :: text[x] == text'[x]
  }

  /** A block only depends on its own words. */
  lemma BlockAtSame(text: seq<Word>, text': seq<Word>, f: seq<Block>, k: nat, targets: seq<Word>)
    requires k < |f| && BlockAt(text, f, k, targets) && SameOn(text, text', Start(f, k), Start(f, k + 1))
    ensures BlockAt(text', f, k, targets)
  {
    hide SameOn, Holds, Start, Flat, Prefix, Head, Targets, Tail;
    var b, start, end, next := f[k], Start(f, k), Start(f, k + 1), NextId(f, k);
    var at, core := start + |Flat(b.body)|, Core(f, k);
    StartStep(f, k);
    SameHolds(text, text', start, end, start, Flat(b.body));
    SameHolds(text, text', start, end, at, Prefix(b.term, at));
    SameHolds(text, text', start, end, core, Head(b.term, next));
    SameHolds(text, text', start, end, core + |Head(b.term, next)|, targets);
    SameHolds(text, text', start, end, core + |Head(b.term, next)| + |targets|, Tail(b.term));
  }

  lemma SameHolds(text: seq<Word>, text': seq<Word>, lo: nat, hi: nat, at: nat, ws: seq<Word>)
    requires SameOn(text, text', lo, hi) && lo <= at && at + |ws| <= hi && Holds(text, at, ws)
    ensures Holds(text', at, ws)
  {
  }

  /** The next block behind what has been written. */
  lemma NewBlock(was: seq<Word>, text: seq<Word>, f: seq<Block>, k: nat)
    requires k < |f| && |was| == Start(f, k)
    requires forall j | 0 <= j < k :: BlockAt(was, f, j, IdWords(TargetsOf(f, j)))
    requires text == was + Flat(f[k].body) + Prefix(f[k].term, |was| + |Flat(f[k].body)|) + HeadOf(f, k)
                     + IdWords(TargetsOf(f, k)) + Tail(f[k].term)
    ensures |text| == Start(f, k + 1)
    ensures forall j | 0 <= j <= k :: BlockAt(text, f, j, IdWords(TargetsOf(f, j)))
  {
    hide Start, Flat, Prefix, HeadOf, TargetsOf, Tail, BlockAt, IdWords;
    StartStep(f, k);
    LastBlock(was, text, f, k);
    forall j | 0 <= j < k
      ensures BlockAt(text, f, j, IdWords(TargetsOf(f, j)))
    {
      StartMonotone(f, j + 1, k);
      BlockAtSame(was, text, f, j, IdWords(TargetsOf(f, j)));
    }
  }

  lemma LastBlock(was: seq<Word>, text: seq<Word>, f: seq<Block>, k: nat)
    requires k < |f| && |was| == Start(f, k)
    requires text == was + Flat(f[k].body) + Prefix(f[k].term, |was| + |Flat(f[k].body)|) + HeadOf(f, k)
                     + IdWords(TargetsOf(f, k)) + Tail(f[k].term)
    ensures BlockAt(text, f, k, IdWords(TargetsOf(f, k)))
  {
    hide Start, Flat, Prefix, Head, Targets, Tail, IdWords, Holds;
    var b, at := f[k], |was| + |Flat(f[k].body)|;
    FiveParts(was, Flat(b.body), Prefix(b.term, at), HeadOf(f, k), IdWords(TargetsOf(f, k)), Tail(b.term));
  }

  lemma FiveParts(was: seq<Word>, a: seq<Word>, b: seq<Word>, c: seq<Word>, d: seq<Word>, e: seq<Word>)
    ensures var text := was + a + b + c + d + e;
      && Holds(text, |was|, a) && Holds(text, |was| + |a|, b) && Holds(text, |was| + |a| + |b|, c)
      && Holds(text, |was| + |a| + |b| + |c|, d) && Holds(text, |was| + |a| + |b| + |c| + |d|, e)
  {
    hide Holds;
    var t1 := was + a;
    var t2 := t1 + b;
    var t3 := t2 + c;
    var t4 := t3 + d;
    HoldsEnd(was, a);
    HoldsEnd(t1, b);
    HoldsEnd(t2, c);
    HoldsEnd(t3, d);
    HoldsEnd(t4, e);
    HoldsLonger(t3, |t2|, c, d);
    HoldsLonger(t4, |t2|, c, e);
    HoldsLonger(t4, |t3|, d, e);
    HoldsThrice(t2, |t1|, b, c, d, e);
    HoldsLonger(t1, |was|, a, b);
    HoldsThrice(t2, |was|, a, c, d, e);
  }

  lemma OneTarget(was: seq<Word>, h: seq<Word>, to: nat)
    ensures was + h + [to % 65536] == was + h + IdWords([to]) + []
  {
  }

  lemma TwoTargets(was: seq<Word>, h: seq<Word>, more: seq<Word>, a: nat, b: nat, tail: seq<Word>)
    ensures was + h + more + [a % 65536] + [b % 65536] + tail == was + (h + more) + IdWords([a, b]) + tail
    ensures more == [] ==> was + h + more == was + h && h + more == h
    ensures tail == [] ==>
              was + h + more + [a % 65536] + [b % 65536] + tail == was + h + more + [a % 65536] + [b % 65536]
  {
    assert IdWords([a, b]) == [a % 65536] + [b % 65536];
    var t := was + h + more;
    assert t == was + (h + more);
    assert t + [a % 65536] + [b % 65536] == t + ([a % 65536] + [b % 65536]);
  }

  lemma FlatStart(body: seq<seq<Word>>)
    ensures Flat(body[..0]) == []
  {
  }

  lemma FlatPush(body: seq<seq<Word>>, i: nat)
    requires i < |body|
    ensures Flat(body[..i + 1]) == Flat(body[..i]) + body[i]
  {
    assert body[..i + 1][..i] == body[..i];
  }

  lemma KeyWordsStart(paths: seq<Path>, n: nat)
    ensures KeyWords(paths[..0], n) == []
  {
  }

  lemma KeyWordsPush(paths: seq<Path>, i: nat, n: nat)
    requires i < |paths|
    ensures KeyWords(paths[..i + 1], n) == KeyWords(paths[..i], n) + WordsOf(paths[i].value, n)
  {
    hide WordsOf;
    assert paths[..i + 1][..i] == paths[..i];
  }

  lemma Reassociate(a: seq<Word>, b: seq<Word>, c: seq<Word>)
    ensures a + b + c == a + (b + c)
  {
  }

  lemma HoldsEnd(text: seq<Word>, ws: seq<Word>)
    ensures Holds(text + ws, |text|, ws)
  {
  }

  lemma HoldsLonger(text: seq<Word>, at: nat, ws: seq<Word>, more: seq<Word>)
    requires Holds(text, at, ws)
    ensures Holds(text + more, at, ws)
  {
  }

  lemma HoldsThrice(text: seq<Word>, at: nat, ws: seq<Word>, c: seq<Word>, d: seq<Word>, e: seq<Word>)
    requires Holds(text, at, ws)
    ensures Holds(text + c + d + e, at, ws)
  {
    hide Holds;
    HoldsLonger(text, at, ws, c);
    HoldsLonger(text + c, at, ws, d);
    HoldsLonger(text + c + d, at, ws, e);
  }

  /** Only a jump to the next block is left out; every other last instruction begins with one word for its class
      and has one id for each block it names. */
  lemma WordsAreNeeded(t: Term, next: nat)
    requires TermOk(t)
    ensures Head(t, next) + IdWords(Targets(t, next)) + Tail(t) == [] <==> t.Br? && t.to == next
    ensures t.Br? && t.to != next ==> Head(t, next) + IdWords(Targets(t, next)) + Tail(t) == [VM_B, t.to % 65536]
    ensures t.BrConst? ==>
              |Targets(t, next)| == 1 && (t.yes != t.no ==> (Targets(t, next) == [t.yes] <==> t.value != 0))
    ensures t.BrCond? || t.CmpBr? ==> Targets(t, next) == [t.yes, t.no]
    ensures t.Invoke? ==> Targets(t, next) == [t.normal, t.unwind]
  {
    hide Lower, KeyWords, Table, Blocks;
  }

  /** The keys of a 64-bit switch follow three words behind the instruction's first and are 32-bit aligned, with
      at most one word in front for that. */
  lemma KeysAligned(f: seq<Block>, k: nat)
    requires k < |f| && f[k].term.Switch? && f[k].term.width == 64
    ensures (Core(f, k) + 3) % 2 == 0 && Core(f, k) <= Start(f, k) + |Flat(f[k].body)| + 1
    ensures |HeadOf(f, k)| == 3 + 4 * |f[k].term.paths| && HeadOf(f, k)[3..] == KeyWords(f[k].term.paths, 4)
  {
    hide Start, Flat, KeyWords;
  }

  /** The first words of an instruction with n block ids, h, tell how many there are. */
  predicate HeadCounts(h: seq<Word>, n: nat) {
    && h != [] && IsBranch(h[0])
    && (h[0] == VM_B ==> |h| == 1 && n == 1)
    && (h[0] == VM_BCOND ==> |h| == 2 && n == 2)
    && (VM_INVOKE <= h[0] <= VM_INVOKE_EXT ==> |h| == 4 && n == 2)
    && (VM_EQ8_BR <= h[0] <= VM_SLE32_C_BR ==> |h| == 1 && n == 2)
    && (h[0] == VM_JUMPTABLE ==> |h| == 3 && n == h[2])
    && (h[0] == VM_SWITCH8_BS ==> |h| >= 3 && |h| == 3 + h[2] as int && n == h[2] as int + 1)
    && (h[0] == VM_SWITCH32_BS ==> |h| >= 3 && |h| == 3 + (h[2] as int) * 2 && n == h[2] as int + 1)
    && (h[0] == VM_SWITCH64_BS ==> |h| >= 3 && |h| == 3 + (h[2] as int) * 4 && n == h[2] as int + 1)
  }

  /** What branch_fixup can tell from the first words of an instruction. */
  lemma HeadShape(t: Term, next: nat)
    requires TermOk(t) && Targets(t, next) != []
    ensures HeadCounts(Head(t, next), |Targets(t, next)|)
  {
    hide KeyWords, Table, Blocks, WordsOf, Pow2, Lower, Masks, SwitchOp;
    if t.Switch? {
      SwitchShape(t.width, t.reg, t.paths, t.default);
    }
  }

  lemma SwitchShape(width: nat, reg: Word, paths: seq<Path>, default: nat)
    requires |paths| < 65536 && 1 <= width && (width <= 32 || width == 64)
    ensures var t := Switch(reg, width, paths, default); HeadCounts(Head(t, 0), |Targets(t, 0)|)
  {
    hide KeyWords, Table, Blocks, WordsOf, Pow2, Masks;
    LoweringIs(width, |paths|);
    match Lower(width, |paths|) {
      case JumpTable(size) => assert |Table(paths, size, default)| == size;
      case Bisect(n) => assert |Blocks(paths)| == |paths| && |KeyWords(paths, n)| == |paths| * n;
    }
  }

  lemma LoweringIs(width: nat, cases: nat)
    requires 1 <= width && (width <= 32 || width == 64)
    ensures match Lower(width, cases)
            case JumpTable(size) => 0 < size <= 256
            case Bisect(n) => n == 1 || n == 2 || n == 4
  {
    if width <= 4 {
      TableSizes(width);
    }
  }

  lemma TableSizes(width: nat)
    requires 1 <= width <= 4
    ensures Pow2(width) <= 16
  {
    assert Pow2(1) == 2 && Pow2(2) == 4 && Pow2(3) == 8 && Pow2(4) == 16;
  }

  lemma HoldsRead(text: seq<Word>, at: nat, ws: seq<Word>)
    requires Holds(text, at, ws)
    ensures at + |ws| <= |text| && forall i | 0 <= i < |ws| :: text[at + i] == ws[i]
  {
    forall i | 0 <= i < |ws|
      ensures text[at + i] == ws[i]
    {
      assert text[at + i] == text[at..at + |ws|][i];
    }
  }

  lemma HeadRead(text: seq<Word>, f: seq<Block>, k: nat)
    requires k < |f| && BlockAt(text, f, k, IdWords(TargetsOf(f, k)))
    ensures Core(f, k) + |HeadOf(f, k)| + |TargetsOf(f, k)| <= |text|
    ensures forall i | 0 <= i < |HeadOf(f, k)| :: text[Core(f, k) + i] == HeadOf(f, k)[i]
    ensures Holds(text, Core(f, k) + |HeadOf(f, k)|, IdWords(TargetsOf(f, k)))
  {
    hide Start, Flat, Prefix, Head, Targets, Tail, IdWords;
    var at, h := Core(f, k), HeadOf(f, k);
    HoldsRead(text, at, h);
    HoldsInside(text, at + |h|, IdWords(TargetsOf(f, k)));
  }

  lemma TargetsBelow(f: seq<Block>, k: nat)
    requires FunctionOk(f) && k < |f|
    ensures TermOk(f[k].term)
    ensures forall j | 0 <= j < |TargetsOf(f, k)| :: TargetsOf(f, k)[j] < NO_BLOCK
  {
    hide Table, Blocks, Lower;
    var t := f[k].term;
    assert IdsBelow(t);
    forall j | 0 <= j < |TargetsOf(f, k)|
      ensures TargetsOf(f, k)[j] < NO_BLOCK
    {
      if !t.Br? {
        assert TargetsOf(f, k)[j] == Targets(t, NO_BLOCK)[j];
      }
    }
  }

  /** One fix-up finishes one block. */
  lemma OneMore(text: seq<Word>, text': seq<Word>, f: seq<Block>, i: nat, k: nat)
    requires PatchedUpTo(text, f, i) && k < |f| && |FixupsOf(f, k)| == i && TargetsOf(f, k) != []
    requires Core(f, k) + |HeadOf(f, k)| + |TargetsOf(f, k)| <= |text|
    requires text' == Patched(text, Core(f, k) + |HeadOf(f, k)|, DeltaWords(f, Core(f, k), TargetsOf(f, k)))
    requires AllReach(f, k) && ReachedUpTo(f, i)
    ensures PatchedUpTo(text', f, i + 1) && ReachedUpTo(f, i + 1)
  {
    hide BlockAt, Patched, Core, HeadOf, TargetsOf, DeltaWords, IdWords, AllReach, FixupsOf, Start;
    forall j | 0 <= j < |f|
      ensures |FixupsOf(f, j)| < i + 1 ==> AllReach(f, j)
      ensures BlockAt(text', f, j, if |FixupsOf(f, j)| < i + 1 then DeltaWords(f, Core(f, j), TargetsOf(f, j))
                                   else IdWords(TargetsOf(f, j)))
    {
      var ws := if |FixupsOf(f, j)| < i then DeltaWords(f, Core(f, j), TargetsOf(f, j)) else IdWords(TargetsOf(f, j));
      assert BlockAt(text, f, j, ws);
      if j == k {
        PatchBlock(text, text', f, k, ws);
      } else {
        Untouched(text, text', f, j, k, ws);
        OtherOwner(f, j, k);
        if TargetsOf(f, j) == [] {
          NoTargetsNoWords(f, j);
        }
      }
    }
  }

  lemma Untouched(text: seq<Word>, text': seq<Word>, f: seq<Block>, j: nat, k: nat, ws: seq<Word>)
    requires j < |f| && k < |f| && j != k && BlockAt(text, f, j, ws) && |text| == |text'| == Start(f, |f|)
    requires Core(f, k) + |HeadOf(f, k)| + |TargetsOf(f, k)| <= |text|
    requires text' == Patched(text, Core(f, k) + |HeadOf(f, k)|, DeltaWords(f, Core(f, k), TargetsOf(f, k)))
    ensures BlockAt(text', f, j, ws)
  {
    hide Start, BlockAt, Core, HeadOf, TargetsOf, DeltaWords;
    StartMonotone(f, j + 1, |f|);
    StartStep(f, k);
    if j < k {
      StartMonotone(f, j + 1, k);
    } else {
      StartMonotone(f, k + 1, j);
    }
    BlockAtSame(text, text', f, j, ws);
  }

  lemma PatchBlock(text: seq<Word>, text': seq<Word>, f: seq<Block>, k: nat, ws: seq<Word>)
    requires k < |f| && BlockAt(text, f, k, ws)
    requires text' == Patched(text, Core(f, k) + |HeadOf(f, k)|, DeltaWords(f, Core(f, k), TargetsOf(f, k)))
    ensures BlockAt(text', f, k, DeltaWords(f, Core(f, k), TargetsOf(f, k)))
  {
    hide Start, Flat, Prefix, Head, Targets, Tail, Holds, DeltaWords;
    var b, start, next := f[k], Start(f, k), NextId(f, k);
    var at, core := start + |Flat(b.body)|, Core(f, k);
    var h, n := |HeadOf(f, k)|, |TargetsOf(f, k)|;
    var deltas := DeltaWords(f, Core(f, k), TargetsOf(f, k));
    HoldsInside(text, core + h, ws);
    PatchSame(text, core + h, deltas);
    SameHolds(text, text', start, core + h, start, Flat(b.body));
    SameHolds(text, text', start, core + h, at, Prefix(b.term, at));
    SameHolds(text, text', start, core + h, core, Head(b.term, next));
    HoldsInside(text, core + h + n, Tail(b.term));
    SameHolds(text, text', core + h + n, |text|, core + h + n, Tail(b.term));
  }

  lemma HoldsInside(text: seq<Word>, at: nat, ws: seq<Word>)
    requires Holds(text, at, ws)
    ensures at + |ws| <= |text|
  {
  }

  lemma PatchSame(text: seq<Word>, at: nat, ws: seq<Word>)
    requires at + |ws| <= |text|
    ensures var r := Patched(text, at, ws);
      Holds(r, at, ws) && SameOn(text, r, 0, at) && SameOn(text, r, at + |ws|, |text|)
  {
  }

  /** Two blocks with targets have different fix-ups. */
  lemma OtherOwner(f: seq<Block>, j: nat, k: nat)
    requires j < |f| && k < |f| && j != k && TargetsOf(f, k) != []
    ensures |FixupsOf(f, j)| == |FixupsOf(f, k)| ==> TargetsOf(f, j) == []
  {
    hide FixupsOf, Core, TargetsOf;
    FixupsStep(f, j);
    FixupsStep(f, k);
    if j < k {
      FixupsGrow(f, j + 1, k);
    } else {
      FixupsGrow(f, k + 1, j);
    }
  }

  /** The blocks of the first i fix-ups reach their targets. */
  ghost predicate ReachedUpTo(f: seq<Block>, i: nat) {
    forall k | 0 <= k < |f| && |FixupsOf(f, k)| < i :: AllReach(f, k)
  }

  lemma NothingPatched(text: seq<Word>, f: seq<Block>)
    requires |text| == Start(f, |f|) && forall k | 0 <= k < |f| :: BlockAt(text, f, k, IdWords(TargetsOf(f, k)))
    ensures PatchedUpTo(text, f, 0) && ReachedUpTo(f, 0)
  {
    hide BlockAt, IdWords, TargetsOf, DeltaWords, FixupsOf, Start;
  }

  /** The block of the i-th fix-up, which has not been patched. */
  lemma NextFixup(text: seq<Word>, f: seq<Block>, i: nat) returns (k: nat)
    requires PatchedUpTo(text, f, i) && i < |FixupsOf(f, |f|)|
    ensures k < |f| && |FixupsOf(f, k)| == i && TargetsOf(f, k) != [] && FixupsOf(f, |f|)[i] == Core(f, k)
    ensures BlockAt(text, f, k, IdWords(TargetsOf(f, k)))
    ensures Core(f, k) + |HeadOf(f, k)| + |TargetsOf(f, k)| <= |text|
  {
    hide BlockAt, IdWords, TargetsOf, DeltaWords, FixupsOf, Start, Core, HeadOf;
    NothingYet(f);
    k := OwnerOf(f, |f|, i);
    HeadRead(text, f, k);
  }

  /** What is behind the last fix-up has no targets. */
  lemma NoTargetsLeft(f: seq<Block>, k: nat)
    requires k < |f|
    ensures |FixupsOf(f, k)| >= |FixupsOf(f, |f|)| ==> TargetsOf(f, k) == []
  {
    hide TargetsOf, Core, FixupsOf;
    FixupsGrow(f, k + 1, |f|);
    FixupsStep(f, k);
  }

  lemma NoTargetsNoWords(f: seq<Block>, k: nat)
    requires k < |f| && TargetsOf(f, k) == []
    ensures DeltaWords(f, Core(f, k), TargetsOf(f, k)) == IdWords(TargetsOf(f, k)) && AllReach(f, k)
  {
    hide TargetsOf, Core;
  }

  lemma AllPatched(text: seq<Word>, f: seq<Block>)
    requires PatchedUpTo(text, f, |FixupsOf(f, |f|)|)
    ensures Fixed(text, f)
  {
    hide BlockAt, IdWords, TargetsOf, DeltaWords, FixupsOf, Start, Core;
    forall k | 0 <= k < |f|
      ensures BlockAt(text, f, k, DeltaWords(f, Core(f, k), TargetsOf(f, k)))
    {
      NoTargetsLeft(f, k);
      if TargetsOf(f, k) == [] {
        NoTargetsNoWords(f, k);
      }
    }
  }

  lemma EveryoneReaches(f: seq<Block>)
    requires ReachedUpTo(f, |FixupsOf(f, |f|)|)
    ensures forall k | 0 <= k < |f| :: AllReach(f, k)
  {
    hide TargetsOf, FixupsOf, Core, AllReach;
    forall k | 0 <= k < |f|
      ensures AllReach(f, k)
    {
      NoTargetsLeft(f, k);
      if TargetsOf(f, k) == [] {
        NoTargetsNoWords(f, k);
      }
    }
  }

  // ----- emission -----

  class Emitter {
    var text: seq<Word>
    var fixups: seq<nat>
    var starts: seq<nat>

    constructor ()
      ensures text == [] && fixups == [] && starts == []
    {
      text, fixups, starts := [], [], [];
    }

    /** emit_i16 */
    method EmitI16(w: nat)
      modifies this`text
      ensures text == old(text) + [w % 65536]
    {
      text := text + [w % 65536];
    }

    /** emit_i8, emit_i32 and emit_i64, which all write whole words. */
    method EmitNumber(v: nat, n: nat)
      modifies this`text
      ensures text == old(text) + WordsOf(v, n)
    {
      if n > 0 {
        EmitI16(v);
        EmitNumber(v / 65536, n - 1);
      }
    }

    /** Instructions that are no branches. */
    method EmitAll(ws: seq<Word>)
      modifies this`text
      ensures text == old(text) + ws
    {
      text := text + ws;
    }

    method EmitIds(ids: seq<nat>)
      modifies this`text
      ensures text == old(text) + IdWords(ids)
    {
      ghost var was := text;
      for i := 0 to |ids|
        invariant text == was + IdWords(ids)[..i]
      {
        EmitI16(ids[i]);
        assert IdWords(ids)[..i + 1] == IdWords(ids)[..i] + [ids[i] % 65536];
      }
    }

    /** emit_switch */
    method EmitSwitch(t: Term)
      requires t.Switch? && TermOk(t)
      modifies this`text, this`fixups
      ensures var prefix := Prefix(t, |old(text)|);
        && fixups == old(fixups) + [|old(text)| + |prefix|]
        && text == old(text) + prefix + Head(t, NO_BLOCK) + IdWords(Targets(t, NO_BLOCK))
    {
      if Masks(t.width) {
        EmitAll(MaskInstr(t.reg, t.width));
      } else if t.width == 64 && |text| % 2 == 0 {
        EmitI16(VM_NOP);
      }
      hide Prefix, Head, Targets, IdWords;
      fixups := fixups + [|text|];
      EmitCases(t);
    }

    /** The switch instruction itself. */
    method EmitCases(t: Term)
      requires t.Switch?
      modifies this`text
      ensures text == old(text) + Head(t, NO_BLOCK) + IdWords(Targets(t, NO_BLOCK))
    {
      var l := Lower(t.width, |t.paths|);
      var reg := if Masks(t.width) then SCRATCH_REG else t.reg;
      match l {
        case JumpTable(size) => EmitTable(reg, size, t.paths, t.default);
        case Bisect(n) => EmitKeyed(reg, n, t.paths, t.default);
      }
    }

    method EmitTable(reg: Word, size: nat, paths: seq<Path>, default: nat)
      requires size > 0
      modifies this`text
      ensures text == old(text) + [VM_JUMPTABLE, reg, size % 65536] + IdWords(Table(paths, size, default))
    {
      EmitI16(VM_JUMPTABLE);
      EmitI16(reg);
      EmitI16(size);
      var table := FillTable(paths, size, default);
      EmitIds(table);
    }

    method EmitKeyed(reg: Word, n: nat, paths: seq<Path>, default: nat)
      modifies this`text
      ensures text == old(text) + ([SwitchOp(Bisect(n)), reg] + ([|paths| % 65536] + KeyWords(paths, n)))
                      + IdWords(Blocks(paths) + [default])
    {
      hide KeyWords, IdWords;
      EmitI16(SwitchOp(Bisect(n)));
      EmitI16(reg);
      EmitKeys(paths, n);
      EmitIds(Blocks(paths) + [default]);
    }

    /** The number of cases and their values. */
    method EmitKeys(paths: seq<Path>, n: nat)
      modifies this`text
      ensures text == old(text) + ([|paths| % 65536] + KeyWords(paths, n))
    {
      hide KeyWords, WordsOf;
      KeyWordsStart(paths, n);
      ghost var before := text;
      EmitI16(|paths|);
      ghost var was := text;
      for i := 0 to |paths|
        invariant text == was + KeyWords(paths[..i], n)
      {
        KeyWordsPush(paths, i, n);
        Reassociate(was, KeyWords(paths[..i], n), WordsOf(paths[i].value, n));
        EmitNumber(paths[i].value, n);
      }
      assert paths[..|paths|] == paths;
      Reassociate(before, [|paths| % 65536], KeyWords(paths, n));
    }

    /** emit_br, emit_cmp_branch, emit_invoke and the instructions that end a function. */
    method EmitTerm(t: Term, next: nat)
      requires TermOk(t)
      modifies this`text, this`fixups
      ensures var prefix := Prefix(t, |old(text)|);
        && fixups == old(fixups) + (if Targets(t, next) == [] then [] else [|old(text)| + |prefix|])
        && text == old(text) + prefix + Head(t, next) + IdWords(Targets(t, next)) + Tail(t)
    {
      if t.Switch? {
        EmitSwitch(t);
        assert Targets(t, next) != [];
      } else if t.Stop? {
        EmitAll(t.ws);
      } else {
        fixups := fixups + [|text|];
        if t.Br? && t.to == next {
          fixups := fixups[..|fixups| - 1];
        } else {
          EmitBranch(t, next);
        }
      }
    }

    /** A branch that is written. */
    method EmitBranch(t: Term, next: nat)
      requires TermOk(t) && !t.Switch? && !t.Stop? && !(t.Br? && t.to == next)
      modifies this`text
      ensures text == old(text) + Head(t, next) + IdWords(Targets(t, next)) + Tail(t)
    {
      if t.Br? || t.BrConst? {
        EmitJump(t, next);
      } else if t.BrCond? {
        EmitCondition(t, next);
      } else if t.CmpBr? {
        EmitCompare(t, next);
      } else {
        EmitInvoke(t, next);
      }
    }

    method EmitJump(t: Term, next: nat)
      requires t.BrConst? || (t.Br? && t.to != next)
      modifies this`text
      ensures text == old(text) + Head(t, next) + IdWords(Targets(t, next)) + Tail(t)
    {
      hide IdWords;
      var to := if t.Br? then t.to else if t.value != 0 then t.yes else t.no;
      OneTarget(text, [VM_B], to);
      EmitI16(VM_B);
      EmitI16(to);
    }

    method EmitCondition(t: Term, next: nat)
      requires t.BrCond?
      modifies this`text
      ensures text == old(text) + Head(t, next) + IdWords(Targets(t, next)) + Tail(t)
    {
      hide IdWords;
      TwoTargets(text, [VM_BCOND], [t.reg], t.yes, t.no, []);
      EmitI16(VM_BCOND);
      EmitI16(t.reg);
      EmitI16(t.yes);
      EmitI16(t.no);
    }

    method EmitCompare(t: Term, next: nat)
      requires t.CmpBr?
      modifies this`text
      ensures text == old(text) + Head(t, next) + IdWords(Targets(t, next)) + Tail(t)
    {
      hide IdWords;
      TwoTargets(text, [t.op], [], t.yes, t.no, t.operands);
      EmitI16(t.op);
      EmitI16(t.yes);
      EmitI16(t.no);
      EmitAll(t.operands);
    }

    method EmitInvoke(t: Term, next: nat)
      requires t.Invoke?
      modifies this`text
      ensures text == old(text) + Head(t, next) + IdWords(Targets(t, next)) + Tail(t)
    {
      hide IdWords;
      TwoTargets(text, [t.op], t.args, t.normal, t.unwind, []);
      EmitI16(t.op);
      EmitAll(t.args);
      EmitI16(t.normal);
      EmitI16(t.unwind);
    }

    /** One turn of the loop of vm_emit_function. */
    method EmitBlock(b: Block, next: nat)
      requires TermOk(b.term)
      modifies this`text, this`fixups
      ensures var flat := Flat(b.body);
              var prefix := Prefix(b.term, |old(text)| + |flat|);
        && fixups == old(fixups) + (if Targets(b.term, next) == [] then [] else [|old(text)| + |flat| + |prefix|])
        && text == old(text) + flat + prefix + Head(b.term, next) + IdWords(Targets(b.term, next)) + Tail(b.term)
    {
      hide Prefix, Head, Targets, Tail, IdWords, Flat;
      ghost var was := text;
      FlatStart(b.body);
      for i := 0 to |b.body|
        invariant text == was + Flat(b.body[..i]) && fixups == old(fixups)
      {
        FlatPush(b.body, i);
        Reassociate(was, Flat(b.body[..i]), b.body[i]);
        EmitAll(b.body[i]);
      }
      assert b.body[..|b.body|] == b.body;
      EmitTerm(b.term, next);
    }

    /** The state of the emitter behind the first n blocks. */
    ghost predicate Written(f: seq<Block>, n: nat)
      requires n <= |f|
      reads this
    {
      && |text| == Start(f, n) && |starts| == n && fixups == FixupsOf(f, n)
      && (forall k | 0 <= k < n :: starts[k] == Start(f, k))
      && (forall k | 0 <= k < n :: BlockAt(text, f, k, IdWords(TargetsOf(f, k))))
    }

    /** vm_emit_function up to the fix-ups. */
    method EmitFunction(f: seq<Block>)
      requires FunctionOk(f) && text == [] && fixups == [] && starts == []
      modifies this
      ensures Written(f, |f|)
    {
      hide Start, Flat, Prefix, Head, Targets, Tail, BlockAt, IdWords, FixupsOf, TermOk;
      NothingYet(f);
      for k := 0 to |f|
        invariant Written(f, k)
      {
        ghost var was := text;
        starts := starts + [|text|];
        var next := if k + 1 < |f| then f[k + 1].id else NO_BLOCK;
        EmitBlock(f[k], next);
        NewBlock(was, text, f, k);
        FixupsStep(f, k);
      }
    }

    /** branch_fixup; false stands for abort. */
    method BranchFixup(f: seq<Block>) returns (ok: bool)
      requires FunctionOk(f) && Written(f, |f|)
      modifies this`text
      ensures ok <==> forall k | 0 <= k < |f| :: AllReach(f, k)
      ensures ok ==> Fixed(text, f)
    {
      hide Start, BlockAt, FunctionOk, AllReach, HeadOf, TargetsOf, FixupsOf, PatchedUpTo, ReachedUpTo, Fixed, Core,
          DeltaWords, IdWords;
      ok := true;
      NothingPatched(text, f);
      for i := 0 to |fixups|
        invariant PatchedUpTo(text, f, i) && ReachedUpTo(f, i)
      {
        ghost var was := text;
        ghost var k := NextFixup(text, f, i);
        ok := FixOne(f, fixups[i], k);
        if !ok {
          return;
        }
        OneMore(was, text, f, i, k);
      }
      AllPatched(text, f);
      EveryoneReaches(f);
    }

    /** One turn of the loop of branch_fixup. */
    method FixOne(f: seq<Block>, off: nat, ghost k: nat) returns (ok: bool)
      requires FunctionOk(f) && k < |f| && off == Core(f, k) && TargetsOf(f, k) != []
      requires BlockAt(text, f, k, IdWords(TargetsOf(f, k)))
      requires |starts| == |f| && forall j | 0 <= j < |f| :: starts[j] == Start(f, j)
      modifies this`text
      ensures ok <==> AllReach(f, k)
      ensures ok ==> text == Patched(old(text), off + |HeadOf(f, k)|, DeltaWords(f, off, TargetsOf(f, k)))
    {
      hide BlockAt, FunctionOk, Head, Targets, Start, Reaches, DeltaWords, Core, TermOk, IdWords, HeadCounts;
      TargetsBelow(f, k);
      HeadShape(f[k].term, NextId(f, k));
      HeadRead(text, f, k);
      var first, count := WhereIds(off, HeadOf(f, k), |TargetsOf(f, k)|);
      ok := PatchIds(f, off, off + first, count, TargetsOf(f, k));
    }

    /** The switch statement of branch_fixup: where the ids of the instruction are. */
    method WhereIds(off: nat, ghost h: seq<Word>, ghost n: nat) returns (first: nat, count: nat)
      requires HeadCounts(h, n) && off + |h| <= |text| && forall i | 0 <= i < |h| :: text[off + i] == h[i]
      ensures first == |h| && count == n
    {
      var op := text[off];
      assert text[off + 0] == h[0] && (|h| >= 3 ==> text[off + 2] == h[2]);
      if op == VM_B {
        return 1, 1;
      } else if op == VM_BCOND {
        return 2, 2;
      } else if VM_INVOKE <= op <= VM_INVOKE_EXT {
        return 4, 2;
      } else if VM_EQ8_BR <= op <= VM_SLE32_C_BR {
        return 1, 2;
      }
      var p := text[off + 2] as int;
      if op == VM_JUMPTABLE {
        return 3, p;
      } else if op == VM_SWITCH8_BS {
        return 3 + p, p + 1;
      } else if op == VM_SWITCH32_BS {
        return 3 + p * 2, p + 1;
      } else {
        return 3 + p * 4, p + 1;
      }
    }

    /** The loops of branch_fixup. */
    method PatchIds(f: seq<Block>, off: nat, at: nat, count: nat, ghost ids: seq<nat>) returns (ok: bool)
      requires |starts| == |f| && forall j | 0 <= j < |f| :: starts[j] == Start(f, j)
      requires |ids| == count && (forall j | 0 <= j < count :: ids[j] < NO_BLOCK) && Holds(text, at, IdWords(ids))
      modifies this`text
      ensures ok <==> forall j | 0 <= j < count :: Reaches(f, off, ids[j])
      ensures ok ==> text == Patched(old(text), at, DeltaWords(f, off, ids))
    {
      hide Reaches, DeltaWord, Start;
      ghost var was := text;
      ok := true;
      for j := 0 to count
        invariant |text| == |was| && forall x | 0 <= x < |was| && !(at <= x < at + j) :: text[x] == was[x]
        invariant forall x | at <= x < at + j ::
                    text[x] == DeltaWord(f, off, ids[x - at]) && Reaches(f, off, ids[x - at])
      {
        assert text[at + j] == was[at..at + count][j] == ids[j];
        var w;
        ok, w := BbToOffsetDelta(f, off, text[at + j]);
        if !ok {
          return;
        }
        text := text[at + j := w];
      }
      forall j | 0 <= j < count
        ensures Reaches(f, off, ids[j])
      {
        assert text[at + j] == DeltaWord(f, off, ids[at + j - at]);
      }
    }

    /** bb_to_offset_delta; offsets in bytes are twice those in words. */
    method BbToOffsetDelta(f: seq<Block>, off: nat, id: nat) returns (ok: bool, w: Word)
      requires |starts| == |f| && forall j | 0 <= j < |f| :: starts[j] == Start(f, j)
      ensures ok == Reaches(f, off, id)
      ensures ok ==> w == DeltaWord(f, off, id)
    {
      var k := FindBlock(f, id);
      ok, w := false, 0;
      if k < |f| {
        var o := 2 * starts[k] - (2 * off + 2);
        if -32768 <= o <= 32767 {
          ok, w := true, o % 65536;
        }
      }
    }
  }
}
