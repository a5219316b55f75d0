/** reg_alloc and finalize_call_args: greedy colouring of what is left of the interference
    graph, and the place of every value in the register frame. */
module Colour {
  import opened Arith
  import opened Basics
  import opened Code
  import opened Bits
  import opened Interference
  import opened Frame


  const SCRATCH := 8
  const NO_COLOUR := -1

  // ----- counting -----

  function Below(k: nat): (r: set<int>)
    ensures |r| == k
    ensures forall c :: c in r <==> 0 <= c < k
  {
    if k == 0 then {} else Below(k - 1) + {k - 1}
  }

  ghost function ColoursOf(colours: seq<int>, vs: set<nat>): (r: set<int>)
    ensures forall v | v in vs && v < |colours| :: colours[v] in r
    ensures forall c | c in r :: exists v | v in vs && v < |colours| :: colours[v] == c
  {
    set v | v in vs && v < |colours| :: colours[v]
  }

  lemma {:induction false} ColoursAreFew(colours: seq<int>, vs: set<nat>)
    ensures |ColoursOf(colours, vs)| <= |vs|
    decreases |vs|
  {
    if vs == {} {
      assert ColoursOf(colours, vs) == {};
    } else {
      var v :| v in vs;
      ColoursAreFew(colours, vs - {v});
      var rest := ColoursOf(colours, vs - {v});
      if v < |colours| {
        assert ColoursOf(colours, vs) == rest + {colours[v]};
      } else {
        assert ColoursOf(colours, vs) == rest;
      }
    }
  }

  /** The neighbours of a node cannot use up one colour more than there are neighbours. */
  lemma SomeColourFree(colours: seq<int>, vs: set<nat>) returns (c: nat)
    ensures c <= |vs| && c !in ColoursOf(colours, vs)
  {
    var used := ColoursOf(colours, vs);
    var all := Below(|vs| + 1);
    if all <= used {
      ColoursAreFew(colours, vs);
      SubsetSize(all, used);
    }
    var d :| d in all && d !in used;
    c := d;
  }

  // ----- the vertices -----

  predicate Sorted(vi: seq<nat>, score: seq<int>) {
    && (forall k | 0 <= k < |vi| :: vi[k] < |score|)
    && forall j, k | 0 <= j < k < |vi| :: score[vi[j]] <= score[vi[k]]
  }

  function Insert(vi: seq<nat>, v: nat, score: seq<int>): (r: seq<nat>)
    requires Sorted(vi, score) && v < |score|
    ensures |r| == |vi| + 1
    ensures forall u :: u in r <==> u == v || u in vi
  {
    if vi == [] || score[v] <= score[vi[0]] then [v] + vi
    else
      assert vi == [vi[0]] + vi[1..];
      [vi[0]] + Insert(vi[1..], v, score)
  }

  lemma {:induction false} InsertSorted(vi: seq<nat>, v: nat, score: seq<int>)
    requires Sorted(vi, score) && v < |score|
    ensures Sorted(Insert(vi, v, score), score)
    ensures Unique(vi) && v !in vi ==> Unique(Insert(vi, v, score))
  {
    hide Sorted, Unique;
    if vi == [] {
      FirstSorted(vi, v, score);
    } else {
      TailSorted(vi, score);
      if score[v] <= score[vi[0]] {
        FirstSorted(vi, v, score);
      } else {
        InsertSorted(vi[1..], v, score);
        var rest := Insert(vi[1..], v, score);
        forall k | 0 <= k < |rest|
          ensures rest[k] < |score| && score[vi[0]] <= score[rest[k]]
          ensures Unique(vi) && v !in vi ==> vi[0] != rest[k]
        {
          InsertedBehind(vi, v, score, k);
        }
        FrontSorted(vi[0], rest, score);
      }
    }
  }

  lemma TailSorted(vi: seq<nat>, score: seq<int>)
    requires Sorted(vi, score) && vi != []
    ensures Sorted(vi[1..], score) && vi[0] < |score| && (Unique(vi) ==> Unique(vi[1..]))
    ensures forall u | u in vi[1..] :: u in vi
  {
  }

  lemma FrontSorted(x: nat, rest: seq<nat>, score: seq<int>)
    requires Sorted(rest, score) && x < |score|
    requires forall k | 0 <= k < |rest| :: rest[k] < |score| && score[x] <= score[rest[k]]
    ensures Sorted([x] + rest, score)
    ensures Unique(rest) && (forall k | 0 <= k < |rest| :: x != rest[k]) ==> Unique([x] + rest)
  {
  }

  lemma FirstSorted(vi: seq<nat>, v: nat, score: seq<int>)
    requires Sorted(vi, score) && v < |score| && (vi != [] ==> vi[0] < |score| && score[v] <= score[vi[0]])
    ensures Sorted([v] + vi, score) && (Unique(vi) && v !in vi ==> Unique([v] + vi))
  {
  }

  lemma InsertedBehind(vi: seq<nat>, v: nat, score: seq<int>, k: nat)
    requires Sorted(vi, score) && v < |score| && vi != [] && score[vi[0]] < score[v] && k < |Insert(vi[1..], v, score)|
    ensures var u := Insert(vi[1..], v, score)[k];
            u < |score| && score[vi[0]] <= score[u] && (Unique(vi) && v !in vi ==> vi[0] != u)
  {
    var rest := Insert(vi[1..], v, score);
    assert rest[k] in rest;
    if rest[k] != v {
      var j :| 0 <= j < |vi[1..]| && vi[1..][j] == rest[k];
      assert vi[j + 1] == rest[k];
    }
  }

  /** qsort with value_info_cmp. */
  function SortByScore(vi: seq<nat>, score: seq<int>): (r: seq<nat>)
    requires forall k | 0 <= k < |vi| :: vi[k] < |score|
    requires Unique(vi)
    ensures Sorted(r, score) && Unique(r) && |r| == |vi|
    ensures forall u :: u in r <==> u in vi
  {
    if vi == [] then [] else
      assert vi == [vi[0]] + vi[1..];
      InsertSorted(SortByScore(vi[1..], score), vi[0], score);
      Insert(SortByScore(vi[1..], score), vi[0], score)
  }

  /** Collects the values that need a colour and the largest degree among them. */
  method CollectVertices(n: nat, edges: array<int>, dead: array<bool>, precolored: seq<bool>)
    returns (vi: seq<nat>, maxDegree: nat)
    requires edges.Length == dead.Length == |precolored| == n
    requires forall x | 0 <= x < n :: edges[x] >= 0
    ensures Unique(vi)
    ensures forall v :: v in vi <==> 0 <= v < n && !dead[v] && !precolored[v]
    ensures forall v | v in vi :: v < n && edges[v] <= maxDegree
  {
    vi, maxDegree := [], 0;
    for i := 0 to n
      invariant Unique(vi)
      invariant forall v :: v in vi <==> 0 <= v < i && !dead[v] && !precolored[v]
      invariant forall v | v in vi :: v < n && edges[v] <= maxDegree
    {
      if !dead[i] && !precolored[i] {
        vi := vi + [i];
        maxDegree := if edges[i] > maxDegree then edges[i] else maxDegree;
      }
    }
  }

  // ----- colouring -----

  /** The values in done have a colour no larger than their degree, neighbours have different
      ones, and nothing else has a colour. */
  ghost predicate Coloured(g: Graph, colours: seq<int>, done: set<nat>) {
    && |g| == |colours|
    && (forall v | 0 <= v < |g| :: colours[v] >= 0 <==> v in done)
    && (forall v | 0 <= v < |g| && v !in done :: colours[v] == NO_COLOUR)
    && (forall v | 0 <= v < |g| && v in done :: colours[v] <= |g[v]|)
    && (forall v, w {:trigger w in g[v]} | 0 <= v < |g| && w in g[v] && w < |g| && v in done && w in done ::
          colours[v] != colours[w])
  }

  /** A neighbour that has no more neighbours than v has this colour. */
  ghost predicate TakenBefore(g: Graph, colours: seq<int>, v: nat, c: int)
    requires |g| == |colours|
  {
    exists w :: 0 <= w < |g| && v < |g| && w in g[v] && colours[w] == c && |g[w]| <= |g[v]|
  }

  /** Colours are the lowest possible when they are given out in the order of degrees. */
  ghost predicate Greedy(g: Graph, colours: seq<int>, done: set<nat>) {
    |g| == |colours| && forall v, c | v in done && v < |g| && 0 <= c < colours[v] :: TakenBefore(g, colours, v, c)
  }

  lemma GreedyStep(g: Graph, colours: seq<int>, done: set<nat>, v: nat, c: nat)
    requires Greedy(g, colours, done) && v < |g| && v !in done && colours[v] == NO_COLOUR
    requires forall k | 0 <= k < c :: TakenBefore(g, colours, v, k)
    ensures Greedy(g, colours[v := c], done + {v})
  {
    var after := colours[v := c];
    forall u, k | u in done + {v} && u < |g| && 0 <= k < after[u]
      ensures TakenBefore(g, after, u, k)
    {
      assert TakenBefore(g, colours, u, k);
      var w :| 0 <= w < |g| && w in g[u] && colours[w] == k && |g[w]| <= |g[u]|;
      assert after[w] == k;
    }
  }

  lemma LowerTaken(g: Graph, colours: seq<int>, done: set<nat>, v: nat, table: seq<BitWord>, k: nat)
    requires Coloured(g, colours, done) && v < |g| && TableFor(table, g, colours, v, |g|)
    requires k < 32 * |table| && !Bit(table, k) && forall w | w in done && w < |g| :: |g[w]| <= |g[v]|
    ensures TakenBefore(g, colours, v, k)
  {
    var y :| 0 <= y < |g| && y in g[v] && colours[y] == k;
  }

  /** Bit c of the table says that no neighbour below x has colour c. */
  ghost predicate TableFor(table: seq<BitWord>, g: Graph, colours: seq<int>, v: nat, x: nat)
    requires v < |g| == |colours|
  {
    forall c: nat | c < 32 * |table| :: Bit(table, c) <==>
        !(exists y :: 0 <= y < x && y < |g| && y in g[v] && colours[y] == c)
  }

  /** Clears the bits of the colours that the neighbours of v already have. */
  method MarkUsed(mtx: TriMatrix, colours: array<int>, v: nat, table: array<BitWord>, ghost done: set<nat>)
    requires mtx.Valid() && mtx.size == colours.Length && v < mtx.size && mtx.words != table
    requires forall j | 0 <= j < table.Length :: table[j] == ALL_ONES
    requires Coloured(mtx.rel, colours[..], done)
    requires forall y | 0 <= y < mtx.size :: colours[y] < 32 * table.Length
    modifies table
    ensures TableFor(table[..], mtx.rel, colours[..], v, mtx.size)
  {
    assert TableFor(table[..], mtx.rel, colours[..], v, 0);
    for x := 0 to mtx.size
      invariant TableFor(table[..], mtx.rel, colours[..], v, x)
    {
      var b := mtx.Get(v, x);
      if b {
        var c := colours[x];
        if c >= 0 {
          BitClr(table, c);
        }
      }
    }
  }

  /** The lowest one bit of the table. */
  method FirstFree(table: array<BitWord>) returns (c: int)
    ensures c == NO_COLOUR ==> forall k | 0 <= k < 32 * table.Length :: !Bit(table[..], k)
    ensures c != NO_COLOUR ==> 0 <= c < 32 * table.Length && Bit(table[..], c)
    ensures c != NO_COLOUR ==> forall k | 0 <= k < c :: !Bit(table[..], k)
  {
    for j := 0 to table.Length
      invariant forall k | 0 <= k < 32 * j :: !Bit(table[..], k)
    {
      var f := Ffs(table[j]);
      if f != 0 {
        c := f - 1 + j * 32;
        assert c / 32 == j && c % 32 == f - 1;
        return;
      }
      assert forall k | 32 * j <= k < 32 * (j + 1) :: k / 32 == j;
    }
    c := NO_COLOUR;
  }

  /** Gives v the lowest colour no neighbour has; there always is one. */
  method ColourOne(mtx: TriMatrix, colours: array<int>, v: nat, degreeWords: nat, ghost done: set<nat>)
    requires mtx.Valid() && mtx.size == colours.Length && v < mtx.size && v !in done
    requires Irreflexive(mtx.rel) && |mtx.rel[v]| < 32 * degreeWords
    requires Coloured(mtx.rel, colours[..], done)
    requires forall y | 0 <= y < mtx.size :: colours[y] < 32 * degreeWords
    requires Greedy(mtx.rel, colours[..], done) && forall w | w in done && w < mtx.size :: |mtx.rel[w]| <= |mtx.rel[v]|
    modifies colours
    ensures Coloured(mtx.rel, colours[..], done + {v}) && Greedy(mtx.rel, colours[..], done + {v})
    ensures forall y | 0 <= y < mtx.size :: colours[y] < 32 * degreeWords
  {
    var table := new BitWord[degreeWords](_ => ALL_ONES);
    MarkUsed(mtx, colours, v, table, done);
    var c := FirstFree(table);
    ghost var was := colours[..];
    var free := SomeColourFree(was, mtx.rel[v]);
    assert Bit(table[..], free);
    assert 0 <= c <= free;
    forall k | 0 <= k < c
      ensures TakenBefore(mtx.rel, was, v, k)
    {
      LowerTaken(mtx.rel, was, done, v, table[..], k);
    }
    colours[v] := c;
    assert colours[..] == was[v := c];
    ColouredStep(mtx.rel, was, done, v, c);
    GreedyStep(mtx.rel, was, done, v, c);
  }

  lemma ColouredStep(g: Graph, colours: seq<int>, done: set<nat>, v: nat, c: nat)
    requires Coloured(g, colours, done) && Symmetric(g) && Irreflexive(g)
    requires v < |g| && v !in done && c <= |g[v]|
    requires forall y | 0 <= y < |g| && y in g[v] :: colours[y] != c
    ensures Coloured(g, colours[v := c], done + {v})
  {
  }

  /** The colouring loop over the sorted vertices. */
  method ColourAll(mtx: TriMatrix, colours: array<int>, vi: seq<nat>, maxDegree: nat)
    requires mtx.Valid() && mtx.size == colours.Length && Irreflexive(mtx.rel) && Unique(vi)
    requires forall v | v in vi :: v < mtx.size && |mtx.rel[v]| <= maxDegree
    requires ByDegree(mtx.rel, vi)
    requires forall y | 0 <= y < mtx.size :: colours[y] == NO_COLOUR
    modifies colours
    ensures Coloured(mtx.rel, colours[..], Elems(vi)) && Greedy(mtx.rel, colours[..], Elems(vi))
  {
    hide Coloured, Greedy, Counted, Symmetric, Irreflexive, ByDegree;
    var degreeWords := (maxDegree + 32) / 32;
    NothingColoured(mtx.rel, colours[..]);
    assert Elems(vi[..0]) == {};
    for i := 0 to |vi|
      invariant Coloured(mtx.rel, colours[..], Elems(vi[..i])) && Greedy(mtx.rel, colours[..], Elems(vi[..i]))
      invariant forall y | 0 <= y < mtx.size :: colours[y] < 32 * degreeWords
    {
      NextVertex(mtx.rel, vi, i);
      ColourOne(mtx, colours, vi[i], degreeWords, Elems(vi[..i]));
    }
    assert vi[..|vi|] == vi;
  }

  /** In the order of degrees. */
  ghost predicate ByDegree(g: Graph, vi: seq<nat>) {
    forall j, k | 0 <= j < k < |vi| :: vi[j] < |g| && vi[k] < |g| && |g[vi[j]]| <= |g[vi[k]]|
  }

  lemma NothingColoured(g: Graph, colours: seq<int>)
    requires |g| == |colours| && forall y | 0 <= y < |g| :: colours[y] == NO_COLOUR
    ensures Coloured(g, colours, {}) && Greedy(g, colours, {})
  {
  }

  lemma NextVertex(g: Graph, vi: seq<nat>, i: nat)
    requires Unique(vi) && i < |vi| && (forall v | v in vi :: v < |g|)
    requires ByDegree(g, vi)
    ensures vi[i] in vi && vi[i] !in Elems(vi[..i]) && Elems(vi[..i + 1]) == Elems(vi[..i]) + {vi[i]}
    ensures forall w | w in Elems(vi[..i]) && w < |g| :: |g[w]| <= |g[vi[i]]|
  {
    forall w | w in Elems(vi[..i]) && w < |g|
      ensures |g[w]| <= |g[vi[i]]|
    {
      var j :| 0 <= j < i && vi[j] == w;
    }
  }

  // ----- slots -----

  /** count is one more than the highest colour of the class, zero if the class is empty. */
  ghost predicate IsCount(vs: set<nat>, slots: seq<nat>, colours: seq<int>, c: nat, count: nat)
    requires |slots| == |colours|
  {
    && (forall v | v in vs && v < |slots| && slots[v] == c :: colours[v] < count)
    && (count == 0 || exists v | v in vs && v < |slots| && slots[v] == c :: count == colours[v] + 1)
  }

  /** The frame is laid out without waste: the places of the 4-byte values behind what was there, one for each
      colour, those of the 8-byte values behind them, and the arguments at the end. */
  ghost predicate Packed(vs: set<nat>, slots: seq<nat>, colours: seq<int>, reg: seq<nat>, frameSize: nat,
                         numCallArgs: nat,
                         newSize: nat, count1: nat, count2: nat)
    requires |slots| == |colours| == |reg|
  {
    var base1 := AlignTo(frameSize, 4);
    var base2 := AlignTo(base1 + 4 * count1, 8);
    && IsCount(vs, slots, colours, 1, count1) && IsCount(vs, slots, colours, 2, count2)
    && newSize == base2 + 8 * count2 + 4 * numCallArgs
    && (forall v | v in vs && v < |slots| && slots[v] == 1 :: colours[v] >= 0 && reg[v] == base1 + 4 * colours[v])
    && (forall v | v in vs && v < |slots| && slots[v] == 2 :: colours[v] >= 0 && reg[v] == base2 + 8 * colours[v])
  }

  /** The register frame after reg_alloc: a value of c slots with colour k lives in the k-th
      place of the area of its class. */
  ghost predicate Placed(vi: seq<nat>, colours: seq<int>, slots: seq<nat>, reg: seq<nat>, c: nat, base: nat, count: nat)
    requires |colours| == |slots| == |reg|
  {
    forall v | v in vi && v < |slots| && slots[v] == c ::
      0 <= colours[v] < count && reg[v] == base + colours[v] * (4 * c)
  }

  /** Lays out one class of values behind what the frame already holds. */
  method PlaceClass(vi: seq<nat>, colours: array<int>, slots: seq<nat>, c: nat, reg: array<nat>, frameSize: nat)
    returns (base: nat, count: nat, newSize: nat)
    requires colours.Length == |slots| == reg.Length && (c == 1 || c == 2)
    requires forall v | v in vi :: v < |slots| && colours[v] >= 0
    modifies reg
    ensures base == AlignTo(frameSize, 4 * c) && newSize == base + count * (4 * c)
    ensures Placed(vi, colours[..], slots, reg[..], c, base, count)
    ensures forall v | 0 <= v < |slots| && !(v in vi && slots[v] == c) :: reg[v] == old(reg[v])
    ensures count == 0 || exists v | v in vi && slots[v] == c :: count == colours[v] + 1
  {
    var rsize := 4 * c;
    base := AlignTo(frameSize, rsize);
    count := 0;
    for i := 0 to |vi|
      invariant Placed(vi[..i], colours[..], slots, reg[..], c, base, count)
      invariant forall v | 0 <= v < |slots| && !(v in vi && slots[v] == c) :: reg[v] == old(reg[v])
      invariant count == 0 || exists v | v in vi && slots[v] == c :: count == colours[v] + 1
    {
      assert vi[i] in vi;
      if slots[vi[i]] == c {
        reg[vi[i]] := base + colours[vi[i]] * rsize;
        count := if colours[vi[i]] + 1 > count then colours[vi[i]] + 1 else count;
      }
      assert forall v :: v in vi[..i + 1] <==> v in vi[..i] || v == vi[i];
    }
    assert vi[..|vi|] == vi;
    newSize := base + count * rsize;
  }

  ghost function Alive(dead: seq<bool>): (r: set<nat>)
    ensures forall v :: v in r <==> 0 <= v < |dead| && !dead[v]
  {
    set v: nat | v < |dead| && !dead[v]
  }

  function SlotOf(reg: seq<nat>, slots: seq<nat>, v: nat): (r: Slot)
    requires v < |reg| == |slots|
  {
    Slot(reg[v], 4 * slots[v])
  }

  /** The frame invariant: every value lies between the scratch bytes and the end of the frame,
      two values have the same place or disjoint places, and neighbours have disjoint ones. */
  ghost predicate FrameOk(g: Graph, reg: seq<nat>, slots: seq<nat>, alive: set<nat>, frameSize: nat)
    requires |g| == |reg| == |slots|
  {
    && (forall v | v in alive :: v < |reg| && SCRATCH <= reg[v] && reg[v] + 4 * slots[v] <= frameSize)
    && (forall v, w | v in alive && w in alive :: v < |reg| && w < |reg| &&
          (SlotOf(reg, slots, v) == SlotOf(reg, slots, w) || Disjoint(SlotOf(reg, slots, v), SlotOf(reg, slots, w))))
    && (forall v, w {:trigger w in g[v]} | v in alive && w in alive && v < |reg| && w < |reg| && w in g[v] ::
          Disjoint(SlotOf(reg, slots, v), SlotOf(reg, slots, w)))
  }

  /** Two places of one class: the same colour is the same place, other colours are disjoint. */
  lemma SameClass(base: nat, size: nat, c: nat, d: nat)
    requires size == 4 || size == 8
    ensures c == d ==> base + c * size == base + d * size
    ensures c != d ==> Disjoint(Slot(base + c * size, size), Slot(base + d * size, size))
  {
  }

  /** The three areas of the frame. */
  ghost predicate Areas(slots: seq<nat>, reg: seq<nat>, colours: seq<int>, vi: seq<nat>, callArgBase: nat,
                        numCallArgs: nat,
                        base1: nat, count1: nat, base2: nat, count2: nat, frameSize: nat)
    requires |slots| == |reg| == |colours|
  {
    && SCRATCH <= base1 && base1 + 4 * count1 <= base2 && frameSize == base2 + 8 * count2 + 4 * numCallArgs
    && Placed(vi, colours, slots, reg, 1, base1, count1)
    && Placed(vi, colours, slots, reg, 2, base2, count2)
    && callArgBase + numCallArgs <= |slots|
    && (forall v | callArgBase <= v < callArgBase + numCallArgs ::
          slots[v] == 1 && reg[v] == frameSize - (v - callArgBase + 1) * 4)
  }

  lemma AreasAreOk(g: Graph, slots: seq<nat>, reg: seq<nat>, colours: seq<int>, vi: seq<nat>, callArgBase: nat,
                   numCallArgs: nat,
                   base1: nat, count1: nat, base2: nat, count2: nat, frameSize: nat, alive: set<nat>)
    requires |slots| == |reg| == |colours| == |g| && Irreflexive(g)
    requires forall v | v in vi :: v < |slots| && (slots[v] == 1 || slots[v] == 2)
    requires Areas(slots, reg, colours, vi, callArgBase, numCallArgs, base1, count1, base2, count2, frameSize)
    requires Coloured(g, colours, Elems(vi))
    requires forall v | v in alive :: v in vi || callArgBase <= v < callArgBase + numCallArgs
    requires forall v | v in vi :: !(callArgBase <= v < callArgBase + numCallArgs)
    ensures FrameOk(g, reg, slots, alive, frameSize)
  {
    forall v, w | v in alive && w in alive
      ensures v < |reg| && SCRATCH <= reg[v] && reg[v] + 4 * slots[v] <= frameSize
      ensures w < |reg|
      ensures SlotOf(reg, slots, v) == SlotOf(reg, slots, w) || Disjoint(SlotOf(reg, slots, v), SlotOf(reg, slots, w))
      ensures w in g[v] ==> Disjoint(SlotOf(reg, slots, v), SlotOf(reg, slots, w))
    {
      assert v < |reg| && w < |reg|;
      assert v in vi && w in vi && w in g[v] ==> colours[v] != colours[w] by {
        assert v in vi ==> v in Elems(vi);
        assert w in vi ==> w in Elems(vi);
      }
      assert w in g[v] ==> v != w;
      hide Areas, Coloured, Irreflexive, Elems;
      PairOk(slots, reg, colours, vi, callArgBase, numCallArgs, base1, count1, base2, count2, frameSize, v, w);
    }
  }

  /** Where two values lie with respect to each other. */
  lemma PairOk(slots: seq<nat>, reg: seq<nat>, colours: seq<int>, vi: seq<nat>, callArgBase: nat, numCallArgs: nat,
               base1: nat, count1: nat, base2: nat, count2: nat, frameSize: nat, v: nat, w: nat)
    requires |slots| == |reg| == |colours| && v < |slots| && w < |slots|
    requires Areas(slots, reg, colours, vi, callArgBase, numCallArgs, base1, count1, base2, count2, frameSize)
    requires forall u | u in vi :: u < |slots| && (slots[u] == 1 || slots[u] == 2)
    requires v in vi || callArgBase <= v < callArgBase + numCallArgs
    requires w in vi || callArgBase <= w < callArgBase + numCallArgs
    ensures SCRATCH <= reg[v] && reg[v] + 4 * slots[v] <= frameSize
    ensures v in vi && w in vi && slots[v] == slots[w] && colours[v] == colours[w] ==>
              SlotOf(reg, slots, v) == SlotOf(reg, slots, w)
    ensures v in vi && w in vi && slots[v] == slots[w] && colours[v] != colours[w] ==>
              Disjoint(SlotOf(reg, slots, v), SlotOf(reg, slots, w))
    ensures v in vi && w in vi && slots[v] != slots[w] ==> Disjoint(SlotOf(reg, slots, v), SlotOf(reg, slots, w))
    ensures !(v in vi && w in vi) && v != w ==> Disjoint(SlotOf(reg, slots, v), SlotOf(reg, slots, w))
  {
    InArea(slots, reg, colours, vi, callArgBase, numCallArgs, base1, count1, base2, count2, frameSize, v);
    InArea(slots, reg, colours, vi, callArgBase, numCallArgs, base1, count1, base2, count2, frameSize, w);
    hide Areas;
    if v in vi && w in vi && slots[v] == slots[w] {
      if slots[v] == 1 {
        SameClass(base1, 4, colours[v], colours[w]);
      } else {
        SameClass(base2, 8, colours[v], colours[w]);
      }
    }
  }

  lemma InArea(slots: seq<nat>, reg: seq<nat>, colours: seq<int>, vi: seq<nat>, callArgBase: nat, numCallArgs: nat,
               base1: nat, count1: nat, base2: nat, count2: nat, frameSize: nat, v: nat)
    requires |slots| == |reg| == |colours| && v < |slots|
    requires Areas(slots, reg, colours, vi, callArgBase, numCallArgs, base1, count1, base2, count2, frameSize)
    requires v in vi ==> slots[v] == 1 || slots[v] == 2
    requires v in vi || callArgBase <= v < callArgBase + numCallArgs
    ensures v in vi && slots[v] == 1 ==> base1 <= reg[v] && reg[v] + 4 <= base2
    ensures v in vi && slots[v] == 2 ==> base2 <= reg[v] && reg[v] + 8 <= base2 + 8 * count2
    ensures v in vi ==>
              colours[v] >= 0 && reg[v] == if slots[v] == 1 then base1 + colours[v] * 4 else base2 + colours[v] * 8
    ensures v !in vi ==> slots[v] == 1 && base2 + 8 * count2 <= reg[v] && reg[v] + 4 <= frameSize
    ensures v !in vi ==> reg[v] == frameSize - (v - callArgBase + 1) * 4
    ensures SCRATCH <= base1 && base1 + 4 * count1 <= base2 && frameSize == base2 + 8 * count2 + 4 * numCallArgs
  {
  }

  /** finalize_call_args: the outgoing arguments take the end of the frame, first argument last. */
  method FinalizeCallArgs(reg: array<nat>, callArgBase: nat, numCallArgs: nat, frameSize: nat) returns (newSize: nat)
    requires callArgBase + numCallArgs <= reg.Length
    modifies reg
    ensures newSize == frameSize + 4 * numCallArgs
    ensures forall v | callArgBase <= v < callArgBase + numCallArgs :: reg[v] == newSize - (v - callArgBase + 1) * 4
    ensures forall v | 0 <= v < reg.Length && !(callArgBase <= v < callArgBase + numCallArgs) :: reg[v] == old(reg[v])
  {
    newSize := frameSize + numCallArgs * 4;
    for i := 0 to numCallArgs
      invariant forall v | callArgBase <= v < callArgBase + i :: reg[v] == newSize - (v - callArgBase + 1) * 4
      invariant forall v | 0 <= v < reg.Length && !(callArgBase <= v < callArgBase + i) :: reg[v] == old(reg[v])
    {
      reg[callArgBase + i] := newSize - (i + 1) * 4;
    }
  }

  /** reg_alloc followed by finalize_call_args. */
  method AllocateFrame(mtx: TriMatrix, edges: array<int>, dead: array<bool>, precolored: seq<bool>, slots: seq<nat>,
                       callArgBase: nat, numCallArgs: nat, reg: array<nat>, frameSize: nat)
    returns (newSize: nat, ghost colours: seq<int>)
    requires mtx.Valid() && mtx.size == edges.Length == dead.Length == |precolored| == |slots| == reg.Length
    requires Counted(mtx.rel, edges[..]) && Irreflexive(mtx.rel)
    requires forall v | 0 <= v < mtx.size :: slots[v] == 1 || slots[v] == 2
    requires callArgBase + numCallArgs <= mtx.size
    requires forall v | 0 <= v < mtx.size :: precolored[v] <==> callArgBase <= v < callArgBase + numCallArgs
    requires forall v | 0 <= v < mtx.size && precolored[v] :: slots[v] == 1
    requires frameSize >= SCRATCH
    modifies reg
    ensures |colours| == mtx.size && Coloured(mtx.rel, colours, Free(dead[..], precolored))
    ensures Greedy(mtx.rel, colours, Free(dead[..], precolored))
    ensures exists count1, count2 ::
              Packed(Free(dead[..], precolored), slots, colours, reg[..], frameSize, numCallArgs, newSize, count1,
                     count2)
    ensures FrameOk(mtx.rel, reg[..], slots, Alive(dead[..]), newSize)
    ensures forall v | callArgBase <= v < callArgBase + numCallArgs :: reg[v] == newSize - (v - callArgBase + 1) * 4
  {
    hide Coloured, Greedy, Packed, Areas, FrameOk, Counted, Symmetric, Irreflexive, ByDegree, Unique;
    var vi, maxDegree := SortedVertices(mtx, edges, dead, precolored);
    var colors := new int[mtx.size](_ => NO_COLOUR);
    ColourAll(mtx, colors, vi, maxDegree);
    colours := colors[..];
    HaveColours(mtx.rel, colours, vi);
    ghost var base1, count1, base2, count2;
    base1, count1, base2, count2, newSize := LayOut(vi, colors, slots, callArgBase, numCallArgs, reg, frameSize);
    AreasAreOk(mtx.rel, slots, reg[..], colours, vi, callArgBase, numCallArgs,
               base1, count1, base2, count2, newSize, Alive(dead[..]));
  }

  /** The first part of reg_alloc: the vertices in the order of their degrees. */
  method SortedVertices(mtx: TriMatrix, edges: array<int>, dead: array<bool>, precolored: seq<bool>)
    returns (vi: seq<nat>, maxDegree: nat)
    requires mtx.Valid() && mtx.size == edges.Length == dead.Length == |precolored| && Counted(mtx.rel, edges[..])
    ensures Unique(vi) && ByDegree(mtx.rel, vi) && Elems(vi) == Free(dead[..], precolored)
    ensures forall v :: v in vi <==> 0 <= v < mtx.size && !dead[v] && !precolored[v]
    ensures forall v | v in vi :: v < mtx.size && |mtx.rel[v]| <= maxDegree
  {
    hide Counted, Symmetric, ByDegree;
    CountsAreDegrees(mtx.rel, edges[..]);
    vi, maxDegree := CollectVertices(mtx.size, edges, dead, precolored);
    assert forall k | 0 <= k < |vi| :: vi[k] in vi;
    vi := SortByScore(vi, edges[..]);
    DegreesSorted(mtx.rel, vi, edges[..]);
  }

  lemma CountsAreDegrees(g: Graph, edges: seq<int>)
    requires Counted(g, edges)
    ensures |g| == |edges| && forall x | 0 <= x < |g| :: edges[x] == |g[x]|
  {
  }

  lemma HaveColours(g: Graph, colours: seq<int>, vi: seq<nat>)
    requires Coloured(g, colours, Elems(vi)) && forall v | v in vi :: v < |g|
    ensures |colours| == |g| && forall v | v in vi :: colours[v] >= 0
  {
  }

  /** The values that are to be coloured. */
  ghost function Free(dead: seq<bool>, precolored: seq<bool>): (r: set<nat>)
    requires |dead| == |precolored|
    ensures forall v :: v in r <==> 0 <= v < |dead| && !dead[v] && !precolored[v]
  {
    set v: nat | v < |dead| && !dead[v] && !precolored[v]
  }

  lemma DegreesSorted(g: Graph, vi: seq<nat>, edges: seq<int>)
    requires Counted(g, edges) && Sorted(vi, edges)
    ensures ByDegree(g, vi)
  {
  }

  /** The end of reg_alloc and finalize_call_args: the area of the 4-byte values, the area of the
      8-byte values and the outgoing arguments. */
  method LayOut(vi: seq<nat>, colours: array<int>, slots: seq<nat>, callArgBase: nat, numCallArgs: nat, reg: array<nat>,
                frameSize: nat)
    returns (ghost base1: nat, ghost count1: nat, ghost base2: nat, ghost count2: nat, newSize: nat)
    requires colours.Length == |slots| == reg.Length && frameSize >= SCRATCH && callArgBase + numCallArgs <= |slots|
    requires forall v | v in vi :: v < |slots| && colours[v] >= 0 && !(callArgBase <= v < callArgBase + numCallArgs)
    requires forall v | callArgBase <= v < callArgBase + numCallArgs :: slots[v] == 1
    modifies reg
    ensures Areas(slots, reg[..], colours[..], vi, callArgBase, numCallArgs, base1, count1, base2, count2, newSize)
    ensures forall v | callArgBase <= v < callArgBase + numCallArgs :: reg[v] == newSize - (v - callArgBase + 1) * 4
    ensures Packed(Elems(vi), slots, colours[..], reg[..], frameSize, numCallArgs, newSize, count1, count2)
  {
    var b1, c1, size1 := PlaceClass(vi, colours, slots, 1, reg, frameSize);
    var b2, c2, size2 := PlaceClass(vi, colours, slots, 2, reg, size1);
    newSize := FinalizeCallArgs(reg, callArgBase, numCallArgs, size2);
    base1, count1, base2, count2 := b1, c1, b2, c2;
  }
}
