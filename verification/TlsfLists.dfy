/** The segregated free lists of the TLSF allocator and their two levels of bitmaps. */
module TlsfLists {
  import opened Basics
  import opened Bits
  import opened TlsfMapping

  type Addr = nat

  /** The links of the k-th block of l; nil ends the list on both sides. */
  ghost predicate NodeOk(l: seq<Addr>, k: nat, next: map<Addr, Addr>, prev: map<Addr, Addr>, nil: Addr)
    requires k < |l|
  {
    && l[k] in next && l[k] in prev
    && next[l[k]] == (if k + 1 < |l| then l[k + 1] else nil)
    && prev[l[k]] == (if k > 0 then l[k - 1] else nil)
  }

  /** head, next and prev link exactly the blocks of l. */
  ghost predicate Linked(l: seq<Addr>, head: Addr, next: map<Addr, Addr>, prev: map<Addr, Addr>, nil: Addr) {
    && Unique(l) && nil !in l
    && head == (if l == [] then nil else l[0])
    && (forall k | 0 <= k < |l| :: NodeOk(l, k, next, prev, nil))
  }

  lemma LinkFront(l: seq<Addr>, head: Addr, next: map<Addr, Addr>, prev: map<Addr, Addr>, nil: Addr, b: Addr)
    requires Linked(l, head, next, prev, nil) && b !in l && b != nil
    ensures Linked([b] + l, b, next[b := head], prev[b := nil][head := b], nil)
  {
    var l', next', prev' := [b] + l, next[b := head], prev[b := nil][head := b];
    forall k | 0 <= k < |l'|
      ensures NodeOk(l', k, next', prev', nil)
    {
      if k > 0 {
        assert NodeOk(l, k - 1, next, prev, nil) && l[k - 1] in l;
        assert k > 1 ==> l[k - 1] != l[0];
      }
    }
  }

  lemma LinkOther(l: seq<Addr>, head: Addr, next: map<Addr, Addr>, prev: map<Addr, Addr>, nil: Addr,
                  next': map<Addr, Addr>, prev': map<Addr, Addr>)
    requires Linked(l, head, next, prev, nil)
    requires forall a | a in l && a in next :: a in next' && next'[a] == next[a]
    requires forall a | a in l && a in prev :: a in prev' && prev'[a] == prev[a]
    ensures Linked(l, head, next', prev', nil)
  {
    forall k | 0 <= k < |l|
      ensures NodeOk(l, k, next', prev', nil)
    {
      assert NodeOk(l, k, next, prev, nil) && l[k] in l;
    }
  }

  /** Unlinking the k-th block. */
  lemma LinkCut(l: seq<Addr>, head: Addr, next: map<Addr, Addr>, prev: map<Addr, Addr>, nil: Addr, k: nat)
    requires Linked(l, head, next, prev, nil) && k < |l|
    ensures NodeOk(l, k, next, prev, nil)
    ensures var b := l[k];
            var p, n := prev[b], next[b];
            Linked(Removed(l, k), if head == b then n else head, next[p := n], prev[n := p], nil)
  {
    var b := l[k];
    assert NodeOk(l, k, next, prev, nil);
    var p, n := prev[b], next[b];
    var l', next', prev' := Removed(l, k), next[p := n], prev[n := p];
    assert forall i | 0 <= i < |l'| :: l'[i] == l[if i < k then i else i + 1];
    assert k > 0 ==> l[0] != b;
    forall i | 0 <= i < |l'|
      ensures NodeOk(l', i, next', prev', nil)
    {
      CutNode(l, head, next, prev, nil, k, i);
    }
  }

  lemma CutNode(l: seq<Addr>, head: Addr, next: map<Addr, Addr>, prev: map<Addr, Addr>, nil: Addr, k: nat, i: nat)
    requires Linked(l, head, next, prev, nil) && k < |l| && i < |l| - 1
    ensures l[k] in next && l[k] in prev
    ensures var p, n := prev[l[k]], next[l[k]];
            NodeOk(Removed(l, k), i, next[p := n], prev[n := p], nil)
  {
    assert NodeOk(l, k, next, prev, nil);
    var p, n := prev[l[k]], next[l[k]];
    var j := if i < k then i else i + 1;
    assert NodeOk(l, j, next, prev, nil) && l[j] in l;
    assert j != k + 1 ==> l[j] != n;
    assert j + 1 != k ==> l[j] != p;
  }

  lemma CutMembers(l: seq<Addr>, k: nat)
    requires Unique(l) && k < |l|
    ensures forall a :: a in Removed(l, k) <==> a in l && a != l[k]
    ensures Removed(l, k) == [] <==> |l| == 1
  {
    var r := Removed(l, k);
    assert forall i | 0 <= i < |r| :: r[i] == l[if i < k then i else i + 1];
    assert forall i | 0 <= i < |l| && i != k :: r[if i < k then i else i - 1] == l[i];
  }

  /** How remove_free_block sees that a list becomes empty. */
  lemma CutEmpty(l: seq<Addr>, head: Addr, next: map<Addr, Addr>, prev: map<Addr, Addr>, nil: Addr, k: nat)
    requires Linked(l, head, next, prev, nil) && k < |l|
    ensures l[k] in next && l[k] in prev
    ensures Removed(l, k) == [] <==> head == l[k] && next[l[k]] == nil
  {
    assert NodeOk(l, k, next, prev, nil);
    CutMembers(l, k);
    if k + 1 < |l| {
      assert l[k + 1] in l;
    }
  }

  type Lists = ls: seq<seq<Addr>> | |ls| == CLASS_COUNT witness seq(CLASS_COUNT, _ => [])

  /** Bit sl of the fl-th second-level word, and bit fl of the first level, say which lists are not empty. */
  ghost predicate BitmapsOk(lists: Lists, flMap: BitWord, slMap: seq<BitWord>) {
    && |slMap| == FL_INDEX_COUNT
    && (forall fl, sl | 0 <= fl < FL_INDEX_COUNT && 0 <= sl < SL_INDEX_COUNT ::
          sl in slMap[fl] <==> lists[fl * SL_INDEX_COUNT + sl] != [])
    && (forall fl :: fl in flMap <==> 0 <= fl < FL_INDEX_COUNT && slMap[fl] != {})
  }

  /** Every list is linked, and where gives the one list of every listed block. */
  ghost predicate ListsOk(lists: Lists, heads: seq<Addr>, next: map<Addr, Addr>, prev: map<Addr, Addr>, nil: Addr,
                          where: map<Addr, nat>) {
    && |heads| == CLASS_COUNT
    && (forall c | 0 <= c < CLASS_COUNT :: Linked(lists[c], heads[c], next, prev, nil))
    && (forall a | a in where :: where[a] < CLASS_COUNT && a in lists[where[a]])
    && (forall c, a {:trigger a in lists[c]} | 0 <= c < CLASS_COUNT && a in lists[c] :: a in where && where[a] == c)
  }

  lemma InsertLinks(lists: Lists, heads: seq<Addr>, next: map<Addr, Addr>, prev: map<Addr, Addr>, nil: Addr,
                    where: map<Addr, nat>,
                    b: Addr, c: nat)
    requires ListsOk(lists, heads, next, prev, nil, where) && b !in where && b != nil && c < CLASS_COUNT
    ensures ListsOk(lists[c := [b] + lists[c]], heads[c := b], next[b := heads[c]], prev[b := nil][heads[c] := b], nil,
                    where[b := c])
  {
    var l, current := lists[c], heads[c];
    var next', prev' := next[b := current], prev[b := nil][current := b];
    assert Linked(l, current, next, prev, nil);
    assert l != [] ==> current in l;
    LinkFront(l, current, next, prev, nil, b);
    forall d | 0 <= d < CLASS_COUNT && d != c
      ensures Linked(lists[d], heads[d], next', prev', nil)
    {
      assert Linked(lists[d], heads[d], next, prev, nil);
      assert forall a | a in lists[d] :: a != b && a != current;
      LinkOther(lists[d], heads[d], next, prev, nil, next', prev');
    }
  }

  lemma InsertBits(lists: Lists, flMap: BitWord, slMap: seq<BitWord>, b: Addr, fl: nat, sl: nat)
    requires BitmapsOk(lists, flMap, slMap) && fl < FL_INDEX_COUNT && sl < SL_INDEX_COUNT
    ensures var c := fl * SL_INDEX_COUNT + sl;
            BitmapsOk(lists[c := [b] + lists[c]], flMap + {fl}, slMap[fl := slMap[fl] + {sl}])
  {
  }

  lemma RemoveLinks(lists: Lists, heads: seq<Addr>, next: map<Addr, Addr>, prev: map<Addr, Addr>, nil: Addr,
                    where: map<Addr, nat>,
                    b: Addr, c: nat, k: nat)
    requires ListsOk(lists, heads, next, prev, nil, where) && c < CLASS_COUNT && k < |lists[c]| && lists[c][k] == b
    ensures b in next && b in prev
    ensures ListsOk(lists[c := Removed(lists[c], k)], if heads[c] == b then heads[c := next[b]] else heads,
                    next[prev[b] := next[b]], prev[next[b] := prev[b]], nil, where - {b})
  {
    var l := lists[c];
    assert Linked(l, heads[c], next, prev, nil) && b in l;
    LinkCut(l, heads[c], next, prev, nil, k);
    CutMembers(l, k);
    var p, n := prev[b], next[b];
    forall d | 0 <= d < CLASS_COUNT && d != c
      ensures Linked(lists[d], heads[d], next[p := n], prev[n := p], nil)
    {
      assert Linked(lists[d], heads[d], next, prev, nil);
      assert forall a | a in l :: a !in lists[d];
      LinkOther(lists[d], heads[d], next, prev, nil, next[p := n], prev[n := p]);
    }
  }

  lemma RemoveBits(lists: Lists, flMap: BitWord, slMap: seq<BitWord>, fl: nat, sl: nat, l': seq<Addr>, empty: bool)
    requires BitmapsOk(lists, flMap, slMap) && fl < FL_INDEX_COUNT && sl < SL_INDEX_COUNT
    requires lists[fl * SL_INDEX_COUNT + sl] != [] && (empty <==> l' == [])
    ensures var c := fl * SL_INDEX_COUNT + sl;
            BitmapsOk(lists[c := l'], if empty && slMap[fl] - {sl} == {} then flMap - {fl} else flMap,
                      if empty then slMap[fl := slMap[fl] - {sl}] else slMap)
  {
  }

  /** Every listed block has its bit. */
  lemma ListedHasBit(lists: Lists, heads: seq<Addr>, next: map<Addr, Addr>, prev: map<Addr, Addr>, nil: Addr,
                     where: map<Addr, nat>,
                     flMap: BitWord, slMap: seq<BitWord>, a: Addr)
    requires ListsOk(lists, heads, next, prev, nil, where) && BitmapsOk(lists, flMap, slMap) && a in where
    ensures where[a] / SL_INDEX_COUNT < FL_INDEX_COUNT && where[a] / SL_INDEX_COUNT in flMap
    ensures where[a] % SL_INDEX_COUNT in slMap[where[a] / SL_INDEX_COUNT]
  {
    var fl, sl := where[a] / SL_INDEX_COUNT, where[a] % SL_INDEX_COUNT;
    assert a in lists[fl * SL_INDEX_COUNT + sl];
    assert sl in slMap[fl];
    assert slMap[fl] != {};
  }

  lemma IndexOrder(x: nat, y: nat, x': nat, y': nat)
    requires y < SL_INDEX_COUNT
    ensures y' < SL_INDEX_COUNT ==>
              (x * SL_INDEX_COUNT + y < x' * SL_INDEX_COUNT + y' <==> x < x' || (x == x' && y < y'))
  {
  }

  class FreeLists {
    const nil: Addr
    var next: map<Addr, Addr>
    var prev: map<Addr, Addr>
    var heads: seq<Addr>
    var flMap: BitWord
    var slMap: seq<BitWord>
    ghost var lists: Lists
    /** The class of every listed block. */
    ghost var where: map<Addr, nat>

    /** Every list is linked, no block is in two lists, and both bitmaps say which are empty. */
    ghost predicate Valid()
      reads this
    {
      ListsOk(lists, heads, next, prev, nil, where) && BitmapsOk(lists, flMap, slMap)
    }

    /** pool_construct */
    constructor (nil: Addr)
      ensures Valid() && this.nil == nil && where == map[]
    {
      this.nil := nil;
      next, prev := map[nil := nil], map[nil := nil];
      heads := seq(CLASS_COUNT, _ => nil);
      flMap, slMap := {}, seq(FL_INDEX_COUNT, _ => {});
      lists := seq(CLASS_COUNT, _ => []);
      where := map[];
    }

    /** insert_free_block */
    method Insert(b: Addr, fl: nat, sl: nat)
      requires Valid() && b !in where && b != nil && fl < FL_INDEX_COUNT && sl < SL_INDEX_COUNT
      modifies this
      ensures Valid() && where == old(where)[b := fl * SL_INDEX_COUNT + sl]
    {
      var c := fl * SL_INDEX_COUNT + sl;
      InsertLinks(lists, heads, next, prev, nil, where, b, c);
      InsertBits(lists, flMap, slMap, b, fl, sl);
      var current := heads[c];
      next := next[b := current];
      prev := prev[b := nil];
      prev := prev[current := b];
      heads := heads[c := b];
      flMap := flMap + {fl};
      slMap := slMap[fl := slMap[fl] + {sl}];
      lists := lists[c := [b] + lists[c]];
      where := where[b := c];
    }

    /** remove_free_block */
    method Remove(b: Addr, fl: nat, sl: nat)
      requires Valid() && fl < FL_INDEX_COUNT && sl < SL_INDEX_COUNT
      requires b in where && where[b] == fl * SL_INDEX_COUNT + sl
      modifies this
      ensures Valid() && where == old(where) - {b}
    {
      var c := fl * SL_INDEX_COUNT + sl;
      assert b in lists[c];
      ghost var k :| 0 <= k < |lists[c]| && lists[c][k] == b;
      assert lists[c] != [];
      ghost var l' := Removed(lists[c], k);
      RemoveBits(lists, flMap, slMap, fl, sl, l', l' == []);
      hide ListsOk, BitmapsOk, Removed;
      var empty := Unlink(b, c, k);
      if empty {
        ClearBit(fl, sl);
      }
    }

    /** The part of remove_free_block that takes the block out of its list. */
    method Unlink(b: Addr, c: nat, ghost k: nat) returns (empty: bool)
      requires ListsOk(lists, heads, next, prev, nil, where) && c < CLASS_COUNT && k < |lists[c]| && lists[c][k] == b
      modifies this`prev, this`next, this`heads, this`lists, this`where
      ensures ListsOk(lists, heads, next, prev, nil, where) && where == old(where) - {b}
      ensures lists == old(lists)[c := Removed(old(lists)[c], k)]
      ensures empty <==> lists[c] == []
    {
      assert Linked(lists[c], heads[c], next, prev, nil);
      RemoveLinks(lists, heads, next, prev, nil, where, b, c, k);
      CutEmpty(lists[c], heads[c], next, prev, nil, k);
      hide ListsOk, Linked, Removed;
      var p, n := prev[b], next[b];
      prev := prev[n := p];
      next := next[p := n];
      lists := lists[c := Removed(lists[c], k)];
      where := where - {b};
      empty := false;
      if heads[c] == b {
        heads := heads[c := n];
        empty := n == nil;
      }
    }

    /** The end of remove_free_block, when a list has become empty. */
    method ClearBit(fl: nat, sl: nat)
      requires fl < |slMap|
      modifies this`slMap, this`flMap
      ensures slMap == old(slMap)[fl := old(slMap)[fl] - {sl}]
      ensures flMap == if slMap[fl] == {} then old(flMap) - {fl} else old(flMap)
    {
      slMap := slMap[fl := slMap[fl] - {sl}];
      if slMap[fl] == {} {
        flMap := flMap - {fl};
      }
    }

    predicate HasBit(fl: nat, sl: nat)
      reads this
    {
      fl in flMap && fl < |slMap| && sl in slMap[fl]
    }

    /** The bitmap search: the lowest bit at or above (fl0, sl0). */
    method SearchBits(fl0: nat, sl0: nat) returns (found: bool, fl: nat, sl: nat)
      requires fl0 < |slMap| && sl0 < SL_INDEX_COUNT
      requires forall x | x in flMap :: x < |slMap| && slMap[x] != {}
      requires slMap[fl0] != {} ==> fl0 in flMap
      ensures !found ==> forall x: nat, y: nat | HasBit(x, y) :: x < fl0 || (x == fl0 && y < sl0)
      ensures found ==> HasBit(fl, sl) && (fl > fl0 || (fl == fl0 && sl >= sl0))
      ensures found ==> forall x: nat, y: nat | HasBit(x, y) && (x > fl0 || (x == fl0 && y >= sl0)) ::
                fl < x || (fl == x && sl <= y)
    {
      fl, sl, found := fl0, sl0, true;
      var slBits: BitWord := set x | x in slMap[fl] && x >= sl;
      if slBits == {} {
        assert forall y | y in slMap[fl0] && y >= sl0 :: y in slBits;
        var flBits: BitWord := set x | x in flMap && x >= fl + 1;
        if flBits == {} {
            assert forall x | x in flMap && x >= fl0 + 1 :: x in flBits;
          return false, fl, sl;
        }
        var f := Ffs(flBits);
        fl := f - 1;
        slBits := slMap[fl];
        assert forall x | x in flMap && x >= fl0 + 1 :: x in flBits;
      }
      var s := Ffs(slBits);
      sl := s - 1;
      assert fl == fl0 ==> forall y | y in slMap[fl0] && y >= sl0 :: y in slBits;
    }

    /** search_suitable_block: the first block of the lowest list that is not empty, at or above
        the given class. */
    method SearchSuitable(fl0: nat, sl0: nat) returns (b: Addr, fl: nat, sl: nat)
      requires Valid() && fl0 < FL_INDEX_COUNT && sl0 < SL_INDEX_COUNT
      ensures b == nil ==> forall a | a in where :: where[a] < fl0 * SL_INDEX_COUNT + sl0
      ensures b != nil ==>
                fl < FL_INDEX_COUNT && sl < SL_INDEX_COUNT && b in where && where[b] == fl * SL_INDEX_COUNT + sl
      ensures b != nil ==> fl0 * SL_INDEX_COUNT + sl0 <= where[b]
      ensures b != nil ==> forall a | a in where && fl0 * SL_INDEX_COUNT + sl0 <= where[a] :: where[b] <= where[a]
    {
      var found;
      found, fl, sl := SearchBits(fl0, sl0);
      forall a | a in where
        ensures !found ==> where[a] < fl0 * SL_INDEX_COUNT + sl0
        ensures found && fl0 * SL_INDEX_COUNT + sl0 <= where[a] ==> fl * SL_INDEX_COUNT + sl <= where[a]
      {
        ListedHasBit(lists, heads, next, prev, nil, where, flMap, slMap, a);
        var x, y := where[a] / SL_INDEX_COUNT, where[a] % SL_INDEX_COUNT;
        assert HasBit(x, y);
        IndexOrder(x, y, fl0, sl0);
        IndexOrder(x, y, fl, sl);
      }
      if found {
        b := heads[fl * SL_INDEX_COUNT + sl];
        FirstIsListed(fl, sl);
      } else {
        b := nil;
      }
    }

    lemma FirstIsListed(fl: nat, sl: nat)
      requires Valid() && fl < FL_INDEX_COUNT && sl in slMap[fl]
      ensures var c := fl * SL_INDEX_COUNT + sl; heads[c] != nil && heads[c] in where && where[heads[c]] == c
    {
      var c := fl * SL_INDEX_COUNT + sl;
      assert Linked(lists[c], heads[c], next, prev, nil);
      assert lists[c] != [] && heads[c] in lists[c];
    }
  }
}
