/** Switches: how parse_switch prepares the cases, and the two ways in which the interpreter finds
    the case of a value, against a linear scan of the cases as the program lists them. */
module Switch {
  import opened Arith

  datatype Path = Path(value: nat, block: nat)

  /** The meaning of a switch: the first case with the value, else the default. */
  function Scan(paths: seq<Path>, v: nat, default: nat): (r: nat) {
    if paths == [] then default
    else if paths[0].value == v then paths[0].block
    else Scan(paths[1..], v, default)
  }

  ghost predicate Distinct(paths: seq<Path>) {
    forall i, j | 0 <= i < j < |paths| :: paths[i].value != paths[j].value
  }

  ghost predicate Sorted(paths: seq<Path>) {
    forall i, j | 0 <= i < j < |paths| :: paths[i].value <= paths[j].value
  }

  ghost predicate Below(paths: seq<Path>, bound: nat) {
    forall i | 0 <= i < |paths| :: paths[i].value < bound
  }

  lemma {:induction false} ScanAt(paths: seq<Path>, k: nat, default: nat)
    requires Distinct(paths) && k < |paths|
    ensures Scan(paths, paths[k].value, default) == paths[k].block
  {
    if k > 0 {
      assert paths[1..][k - 1] == paths[k];
      ScanAt(paths[1..], k - 1, default);
    }
  }

  lemma {:induction false} ScanMissing(paths: seq<Path>, v: nat, default: nat)
    requires forall i | 0 <= i < |paths| :: paths[i].value != v
    ensures Scan(paths, v, default) == default
  {
    if paths != [] {
      assert forall i | 0 <= i < |paths[1..]| :: paths[1..][i] == paths[i + 1];
      ScanMissing(paths[1..], v, default);
    }
  }

  /** The order of distinct cases does not matter. */
  lemma ScanPermutation(a: seq<Path>, b: seq<Path>, v: nat, default: nat)
    requires Distinct(a) && Distinct(b) && multiset(a) == multiset(b)
    ensures Scan(a, v, default) == Scan(b, v, default)
  {
    if k :| 0 <= k < |a| && a[k].value == v {
      assert a[k] in multiset(b);
      var j :| 0 <= j < |b| && b[j] == a[k];
      ScanAt(a, k, default);
      ScanAt(b, j, default);
    } else {
      forall j | 0 <= j < |b|
        ensures b[j].value != v
      {
        assert b[j] in multiset(a);
      }
      ScanMissing(a, v, default);
      ScanMissing(b, v, default);
    }
  }

  lemma {:induction false} DistinctPermutation(a: seq<Path>, b: seq<Path>)
    requires Distinct(a) && multiset(a) == multiset(b)
    ensures Distinct(b)
  {
    forall i, j | 0 <= i < j < |b|
      ensures b[i].value != b[j].value
    {
      assert b == b[..i] + [b[i]] + b[i + 1..j] + [b[j]] + b[j + 1..];
      assert b[i] in multiset(a) && b[j] in multiset(a);
      if b[i] == b[j] {
        assert multiset(b)[b[i]] >= 2;
        Once(a, b[i]);
      } else {
        var x :| 0 <= x < |a| && a[x] == b[i];
        var y :| 0 <= y < |a| && a[y] == b[j];
        assert x < y || y < x;
      }
    }
  }

  lemma {:induction false} Once(a: seq<Path>, p: Path)
    requires Distinct(a)
    ensures multiset(a)[p] <= 1
  {
    if a != [] {
      var last := |a| - 1;
      assert a == a[..last] + [a[last]];
      Once(a[..last], p);
      if p == a[last] {
        assert forall i | 0 <= i < last :: a[..last][i] != p;
        assert p !in a[..last];
      }
    }
  }

  // ----- parse_switch -----

  /** The case constant as it is stored.  For 64 bits the mask has its lowest bit clear. */
  function MaskCase(width: nat, v: nat): (r: nat) {
    if width == 64 then v % Pow2(64) / 2 * 2 else v % Pow2(width)
  }

  function MaskAll(width: nat, raw: seq<Path>): (r: seq<Path>)
    ensures |r| == |raw| && forall i | 0 <= i < |raw| :: r[i] == Path(MaskCase(width, raw[i].value), raw[i].block)
  {
    seq(|raw|, i requires 0 <= i < |raw| => Path(MaskCase(width, raw[i].value), raw[i].block))
  }

  /** One step of an insertion sort, which stands for qsort. */
  function InsertPath(paths: seq<Path>, p: Path): (r: seq<Path>)
    ensures multiset(r) == multiset(paths) + multiset{p}
  {
    if paths == [] then [p]
    else if p.value <= paths[0].value then [p] + paths
    else
      assert paths == [paths[0]] + paths[1..];
      [paths[0]] + InsertPath(paths[1..], p)
  }

  lemma {:induction false} InsertSorted(paths: seq<Path>, p: Path)
    requires Sorted(paths)
    ensures Sorted(InsertPath(paths, p))
  {
    if paths != [] && p.value > paths[0].value {
      InsertSorted(paths[1..], p);
      var r := InsertPath(paths[1..], p);
      forall i | 0 <= i < |r|
        ensures paths[0].value <= r[i].value
      {
        assert r[i] in multiset(paths[1..]) + multiset{p};
      }
    }
  }

  /** parse_switch: the masked cases, sorted. */
  method ParseSwitch(width: nat, raw: seq<Path>) returns (paths: seq<Path>)
    ensures Sorted(paths) && multiset(paths) == multiset(MaskAll(width, raw))
  {
    paths := [];
    ghost var masked := MaskAll(width, raw);
    for n := 0 to |raw|
      invariant Sorted(paths) && multiset(paths) == multiset(masked[..n])
    {
      InsertSorted(paths, masked[n]);
      assert masked[..n + 1] == masked[..n] + [masked[n]];
      paths := InsertPath(paths, Path(MaskCase(width, raw[n].value), raw[n].block));
    }
    assert masked[..|raw|] == masked;
  }

  /** The program's cases: constants of width bits, however they were stored. */
  function Residues(width: nat, raw: seq<Path>): (r: seq<Path>)
    ensures |r| == |raw| && forall i | 0 <= i < |raw| :: r[i] == Path(raw[i].value % Pow2(width), raw[i].block)
  {
    seq(|raw|, i requires 0 <= i < |raw| => Path(raw[i].value % Pow2(width), raw[i].block))
  }

  /** Below 64 bits the parsed cases mean what the program's cases mean. */
  lemma ParsedMeansTheSame(width: nat, raw: seq<Path>, paths: seq<Path>, v: nat, default: nat)
    requires width < 64 && Distinct(Residues(width, raw))
    requires multiset(paths) == multiset(MaskAll(width, raw))
    ensures Distinct(paths) && Below(paths, Pow2(width))
    ensures Scan(paths, v, default) == Scan(Residues(width, raw), v, default)
  {
    var program := Residues(width, raw);
    assert MaskAll(width, raw) == program;
    DistinctPermutation(program, paths);
    ScanPermutation(program, paths, v, default);
    forall i | 0 <= i < |paths|
      ensures paths[i].value < Pow2(width)
    {
      assert paths[i] in multiset(program);
    }
  }

  lemma EvenMask(v: nat)
    ensures MaskCase(64, v) % 2 == 0
  {
    hide Pow2;
    var n := v % Pow2(64);
    assert MaskCase(64, v) == n / 2 * 2;
  }

  /** With 64 bits an odd value never finds its case, whatever the cases are. */
  lemma OddCasesAreLost(raw: seq<Path>, paths: seq<Path>, v: nat, default: nat)
    requires v % 2 == 1 && multiset(paths) == multiset(MaskAll(64, raw))
    ensures Scan(paths, v, default) == default
  {
    forall i | 0 <= i < |paths|
      ensures paths[i].value != v
    {
      assert paths[i] in multiset(MaskAll(64, raw));
      var j :| 0 <= j < |raw| && MaskAll(64, raw)[j] == paths[i];
      EvenMask(raw[j].value);
    }
    ScanMissing(paths, v, default);
  }

  /** The value of an odd case is sent to the default, and so is that of its even neighbour. */
  ghost predicate OddCasesDefault(cases: seq<Path>, default: nat) {
    forall i | 0 <= i < |cases| && cases[i].value % 2 == 1 ::
      && cases[i].block == default
      && forall j | 0 <= j < |cases| && cases[j].value == cases[i].value - 1 :: cases[j].block == default
  }

  /** paths is what qsort may make of the masked cases: any order of equal keys. */
  ghost predicate Parsed(width: nat, raw: seq<Path>, paths: seq<Path>) {
    Sorted(paths) && multiset(paths) == multiset(MaskAll(width, raw))
  }

  ghost predicate RightFor(width: nat, raw: seq<Path>, paths: seq<Path>, default: nat) {
    forall v: nat | v < Pow2(width) :: Scan(paths, v, default) == Scan(Residues(width, raw), v, default)
  }

  /** A 64-bit switch is right for every value, in whatever order qsort leaves equal keys, exactly if
      no case is odd, apart from cases that do what the default does. */
  lemma Parsed64(raw: seq<Path>, default: nat)
    requires Distinct(Residues(64, raw))
    ensures (forall paths | Parsed(64, raw, paths) :: RightFor(64, raw, paths, default))
            <==> OddCasesDefault(Residues(64, raw), default)
  {
    hide Pow2, Scan;
    if OddCasesDefault(Residues(64, raw), default) {
      forall paths, v: nat | Parsed(64, raw, paths)
        ensures Scan(paths, v, default) == Scan(Residues(64, raw), v, default)
      {
        EvenCasesFound(raw, paths, v, default);
      }
    }
    if forall paths | Parsed(64, raw, paths) :: RightFor(64, raw, paths, default) {
      AllOrdersRight(raw, default);
    }
  }

  lemma ScanFinds(paths: seq<Path>, v: nat, default: nat) returns (k: nat)
    ensures k <= |paths| && (k == |paths| ==> forall i | 0 <= i < |paths| :: paths[i].value != v)
    ensures Scan(paths, v, default) == if k < |paths| then paths[k].block else default
    ensures k < |paths| ==> paths[k].value == v
  {
    FindScan(paths, v, default);
    k := Find(Keys(paths), v);
    assert k == |paths| ==> forall i | 0 <= i < |paths| :: Keys(paths)[i] != v;
  }

  lemma Halves(raw: seq<Path>, i: nat)
    requires i < |raw|
    ensures var n, m := Residues(64, raw)[i].value, MaskAll(64, raw)[i].value;
            m % 2 == 0 && (n == m || n == m + 1) && n < Pow2(64)
  {
    hide Pow2;
    var n := raw[i].value % Pow2(64);
    assert MaskCase(64, raw[i].value) == n / 2 * 2;
  }

  lemma EvenCasesFound(raw: seq<Path>, paths: seq<Path>, v: nat, default: nat)
    requires Distinct(Residues(64, raw)) && OddCasesDefault(Residues(64, raw), default) && Parsed(64, raw, paths)
    ensures Scan(paths, v, default) == Scan(Residues(64, raw), v, default)
  {
    hide Pow2, Scan, Sorted;
    var cases, masked := Residues(64, raw), MaskAll(64, raw);
    var p := ScanFinds(paths, v, default);
    var c := ScanFinds(cases, v, default);
    if p < |paths| {
      assert paths[p] in multiset(masked);
      var i :| 0 <= i < |masked| && masked[i] == paths[p];
      Halves(raw, i);
      if c < |cases| && cases[i].value == v {
        assert i == c;
      }
    } else if c < |cases| {
      Halves(raw, c);
      assert masked[c] in multiset(paths);
    }
  }

  function SortAll(ps: seq<Path>): (r: seq<Path>)
    ensures multiset(r) == multiset(ps)
  {
    if ps == [] then []
    else
      var n := |ps| - 1;
      assert ps == ps[..n] + [ps[n]];
      InsertPath(SortAll(ps[..n]), ps[n])
  }

  lemma {:induction false} SortAllSorted(ps: seq<Path>)
    ensures Sorted(SortAll(ps))
  {
    if ps != [] {
      SortAllSorted(ps[..|ps| - 1]);
      InsertSorted(SortAll(ps[..|ps| - 1]), ps[|ps| - 1]);
    }
  }

  lemma {:induction false} InsertedFirst(paths: seq<Path>, p: Path, default: nat)
    ensures Scan(InsertPath(paths, p), p.value, default) == p.block
  {
    if paths != [] && p.value > paths[0].value {
      InsertedFirst(paths[1..], p, default);
    }
  }

  /** A possible order in which case i is the first with its key. */
  lemma OrderWithFirst(raw: seq<Path>, i: nat, default: nat) returns (paths: seq<Path>)
    requires i < |raw|
    ensures Parsed(64, raw, paths) && Scan(paths, MaskAll(64, raw)[i].value, default) == raw[i].block
  {
    hide Pow2, MaskCase, Scan;
    var masked := MaskAll(64, raw);
    var rest := masked[..i] + masked[i + 1..];
    assert masked == masked[..i] + [masked[i]] + masked[i + 1..];
    SortAllSorted(rest);
    InsertSorted(SortAll(rest), masked[i]);
    InsertedFirst(SortAll(rest), masked[i], default);
    paths := InsertPath(SortAll(rest), masked[i]);
  }

  lemma AllOrdersRight(raw: seq<Path>, default: nat)
    requires Distinct(Residues(64, raw)) && forall paths | Parsed(64, raw, paths) :: RightFor(64, raw, paths, default)
    ensures OddCasesDefault(Residues(64, raw), default)
  {
    hide Pow2, Scan, Sorted;
    var cases := Residues(64, raw);
    forall i | 0 <= i < |cases| && cases[i].value % 2 == 1
      ensures cases[i].block == default
      ensures forall j | 0 <= j < |cases| && cases[j].value == cases[i].value - 1 :: cases[j].block == default
    {
      var paths := OrderWithFirst(raw, i, default);
      Halves(raw, i);
      assert RightFor(64, raw, paths, default);
      OddCasesAreLost(raw, paths, cases[i].value, default);
      ScanAt(cases, i, default);
      forall j | 0 <= j < |cases| && cases[j].value == cases[i].value - 1
        ensures cases[j].block == default
      {
        ScanAt(cases, j, default);
      }
    }
  }

  /** An odd case that is lost, an even value that finds it, and two cases with one key. */
  lemma Parsed64IsWrong()
    ensures MaskAll(64, [Path(3, 7)]) == [Path(2, 7)] && Residues(64, [Path(3, 7)]) == [Path(3, 7)]
    ensures Scan([Path(2, 7)], 3, 9) == 9 != Scan([Path(3, 7)], 3, 9)
    ensures Scan([Path(2, 7)], 2, 9) == 7 != Scan([Path(3, 7)], 2, 9)
    ensures Parsed(64, [Path(2, 5), Path(3, 7)], [Path(2, 5), Path(2, 7)])
    ensures Parsed(64, [Path(2, 5), Path(3, 7)], [Path(2, 7), Path(2, 5)])
    ensures Scan([Path(2, 5), Path(2, 7)], 2, 9) != Scan([Path(2, 7), Path(2, 5)], 2, 9)
  {
    hide Pow2;
    PowersOfTwo();
    Small(3, Pow2(64));
    Small(2, Pow2(64));
    assert MaskCase(64, 3) == 2 && MaskCase(64, 2) == 2;
    var masked := MaskAll(64, [Path(2, 5), Path(3, 7)]);
    assert masked == [Path(2, 5), Path(2, 7)];
  }

  // ----- VM_SWITCH8_BS, VM_SWITCH32_BS and VM_SWITCH64_BS -----

  /** The position of the first case with the key, or the number of cases. */
  function Find(keys: seq<nat>, key: nat): (r: nat)
    ensures r <= |keys| && (r < |keys| ==> keys[r] == key)
    ensures forall i | 0 <= i < r :: keys[i] != key
  {
    if keys == [] || keys[0] == key then 0 else Find(keys[1..], key) + 1
  }

  ghost predicate Ascending(keys: seq<nat>) {
    forall i, j | 0 <= i < j < |keys| :: keys[i] <= keys[j]
  }

  /** The loop of the interpreter, from imin and imax to where it ends. */
  function Narrow(keys: seq<nat>, key: nat, imin: int, imax: int): (r: (int, int))
    requires 0 <= imin && imax < |keys|
    ensures imin <= r.0 && r.1 <= imax && r.0 >= r.1
    decreases imax - imin
  {
    if imin < imax then
      var imid := (imin + imax) / 2;
      if keys[imid] < key then Narrow(keys, key, imid + 1, imax) else Narrow(keys, key, imin, imid)
    else (imin, imax)
  }

  /** What the interpreter takes for the position of the key, whatever the order of the keys. */
  function Bisected(keys: seq<nat>, key: nat): (r: nat)
    ensures r <= |keys| && (r < |keys| ==> keys[r] == key)
  {
    var (imin, imax) := Narrow(keys, key, 0, |keys| - 1);
    if imax == imin && keys[imin] == key then imin else |keys|
  }

  /** Everything before the interval is smaller than the key, and what ends it is not. */
  ghost predicate Narrowed(keys: seq<nat>, key: nat, imin: int, imax: int) {
    && 0 <= imin <= imax < |keys|
    && (forall i | 0 <= i < imin :: keys[i] < key)
    && (imax < |keys| - 1 ==> keys[imax] >= key)
  }

  lemma {:induction false} NarrowKeeps(keys: seq<nat>, key: nat, imin: int, imax: int)
    requires Ascending(keys) && Narrowed(keys, key, imin, imax)
    ensures var (lo, hi) := Narrow(keys, key, imin, imax); lo == hi && Narrowed(keys, key, lo, hi)
    decreases imax - imin
  {
    if imin < imax {
      var imid := (imin + imax) / 2;
      if keys[imid] < key {
        NarrowKeeps(keys, key, imid + 1, imax);
      } else {
        NarrowKeeps(keys, key, imin, imid);
      }
    }
  }

  /** With ascending keys bisection finds what a search from the front finds. */
  lemma BisectionFinds(keys: seq<nat>, key: nat)
    requires Ascending(keys)
    ensures Bisected(keys, key) == Find(keys, key)
  {
    hide Narrow, Find;
    if keys != [] {
      NarrowKeeps(keys, key, 0, |keys| - 1);
      var (lo, _) := Narrow(keys, key, 0, |keys| - 1);
      var f := Find(keys, key);
      assert f < |keys| ==> keys[lo] <= keys[f] || f < lo;
    }
  }

  /** The bisection of the interpreter. */
  method Bisect(keys: seq<nat>, key: nat) returns (r: nat)
    ensures r == Bisected(keys, key)
    ensures Ascending(keys) ==> r == Find(keys, key)
  {
    var p := |keys|;
    var imin, imax := 0, p - 1;
    while imin < imax
      invariant 0 <= imin && imax < p
      invariant Narrow(keys, key, imin, imax) == Narrow(keys, key, 0, p - 1)
      decreases imax - imin
    {
      var imid := (imin + imax) / 2;
      if keys[imid] < key {
        imin := imid + 1;
      } else {
        imax := imid;
      }
    }
    if !(imax == imin && keys[imin] == key) {
      imin := p;
    }
    r := imin;
    if Ascending(keys) {
      BisectionFinds(keys, key);
    }
  }

  /** A one-bit value is looked up by the whole low byte of its register: that is right exactly if
      the byte is 0 or 1, or the value goes to the default anyway. */
  lemma DirtyBit(paths: seq<Path>, r: nat, default: nat)
    requires Below(paths, 2)
    ensures Scan(paths, r % 256, default) == Scan(paths, r % 2, default) <==>
            r % 256 < 2 || Scan(paths, r % 2, default) == default
  {
    hide Scan;
    if r % 256 < 2 {
      assert r % 256 == r % 2;
    } else {
      ScanMissing(paths, r % 256, default);
    }
  }

  function Keys(paths: seq<Path>): (r: seq<nat>)
    ensures |r| == |paths| && forall i | 0 <= i < |paths| :: r[i] == paths[i].value
  {
    seq(|paths|, i requires 0 <= i < |paths| => paths[i].value)
  }

  /** Taking the target behind the key that was found is scanning the cases, distinct or not. */
  lemma {:induction false} FindScan(paths: seq<Path>, v: nat, default: nat)
    ensures var f := Find(Keys(paths), v);
            Scan(paths, v, default) == if f < |paths| then paths[f].block else default
  {
    if paths != [] {
      FindScan(paths[1..], v, default);
      assert Keys(paths)[1..] == Keys(paths[1..]);
    }
  }

  // ----- VM_JUMPTABLE -----

  /** The table of emit_switch: the last case with an index wins. */
  function Table(paths: seq<Path>, size: nat, default: nat): (r: seq<nat>)
    requires size > 0
    ensures |r| == size
  {
    if paths == [] then seq(size, _ => default)
    else
      var last := paths[|paths| - 1];
      Table(paths[..|paths| - 1], size, default)[last.value % size := last.block]
  }

  /** Filling the table. */
  method FillTable(paths: seq<Path>, size: nat, default: nat) returns (table: seq<nat>)
    requires size > 0
    ensures table == Table(paths, size, default)
  {
    table := seq(size, _ => default);
    for n := 0 to |paths|
      invariant table == Table(paths[..n], size, default)
    {
      assert paths[..n + 1][..n] == paths[..n];
      table := table[paths[n].value % size := paths[n].block];
    }
    assert paths[..|paths|] == paths;
  }

  /** Looking a value up in the table is scanning the cases. */
  lemma {:induction false} TableScan(paths: seq<Path>, size: nat, default: nat, v: nat)
    requires Distinct(paths) && Below(paths, size) && v < size
    ensures Table(paths, size, default)[v] == Scan(paths, v, default)
  {
    if paths == [] {
    } else {
      var n := |paths| - 1;
      Small(paths[n].value, size);
      TableScan(paths[..n], size, default, v);
      if paths[n].value == v {
        ScanAt(paths, n, default);
      } else if k :| 0 <= k < n && paths[k].value == v {
        ScanAt(paths, k, default);
        ScanAt(paths[..n], k, default);
      } else {
        ScanMissing(paths, v, default);
        ScanMissing(paths[..n], v, default);
      }
    }
  }
}
