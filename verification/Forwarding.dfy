/** Blocks that only branch forward control to their target.  Taking them out one by one, in list
    order, leaves one block of every loop of such blocks: the one that is last in the list. */
module Forwarding {
  import opened Basics

  type Node = nat

  /** Where each block forwards control; a block that does more than branch forwards to itself. */
  ghost predicate Inside(h: map<Node, Node>) {
    forall l | l in h :: h[l] in h
  }

  function Follow(h: map<Node, Node>, l: Node, n: nat): (r: Node) {
    if n == 0 then l
    else
      var p := Follow(h, l, n - 1);
      if p in h then h[p] else p
  }

  ghost predicate Leads(h: map<Node, Node>, l: Node, t: Node) {
    exists n: nat :: Follow(h, l, n) == t
  }

  /** Control that is forwarded from l comes back to it, perhaps at once. */
  ghost predicate OnLoop(h: map<Node, Node>, l: Node) {
    l in h && Leads(h, h[l], l)
  }

  ghost predicate NotAfter(order: seq<Node>, a: Node, b: Node) {
    exists i, j :: 0 <= i <= j < |order| && order[i] == a && order[j] == b
  }

  /** The block is left over: it is the last of its loop in the list. */
  ghost predicate LeftOver(h: map<Node, Node>, order: seq<Node>, l: Node) {
    OnLoop(h, l) && forall t | t in h && Leads(h, l, t) :: NotAfter(order, t, l)
  }

  /** Of the blocks that are left over, the first in the list is the one the entry leads to. */
  ghost predicate EntryLeadsToFirst(h: map<Node, Node>, order: seq<Node>, entry: Node) {
    exists j :: 0 <= j < |order| && FirstLeft(h, order, j) && Leads(h, entry, order[j])
  }

  ghost predicate FirstLeft(h: map<Node, Node>, order: seq<Node>, j: nat)
    requires j < |order|
  {
    LeftOver(h, order, order[j]) && forall i | 0 <= i < j :: !LeftOver(h, order, order[i])
  }

  ghost predicate Lists(order: seq<Node>, h: map<Node, Node>) {
    Unique(order) && forall l :: l in order <==> l in h
  }

  /** One block is bypassed. */
  function Contract(h: map<Node, Node>, x: Node): (r: map<Node, Node>)
    requires x in h
    ensures r.Keys == h.Keys - {x}
  {
    map l | l in h && l != x :: if h[l] == x then h[x] else h[l]
  }

  // ----- following -----

  lemma {:induction false} FollowShift(h: map<Node, Node>, l: Node, n: nat)
    requires l in h
    ensures Follow(h, h[l], n) == Follow(h, l, n + 1)
  {
    if n == 0 {
      assert Follow(h, l, 0) == l;
    } else {
      FollowShift(h, l, n - 1);
    }
  }

  lemma LeadsStep(h: map<Node, Node>, l: Node, t: Node)
    requires l in h
    ensures Leads(h, l, t) <==> l == t || Leads(h, h[l], t)
  {
    if Leads(h, l, t) && l != t {
      var n: nat :| Follow(h, l, n) == t;
      FollowShift(h, l, n - 1);
      assert Follow(h, h[l], n - 1) == t;
    }
    if Leads(h, h[l], t) {
      var n: nat :| Follow(h, h[l], n) == t;
      FollowShift(h, l, n);
      assert Follow(h, l, n + 1) == t;
    }
    assert Follow(h, l, 0) == l;
  }

  lemma {:induction false} FixedFollows(h: map<Node, Node>, l: Node, n: nat)
    requires l in h ==> h[l] == l
    ensures Follow(h, l, n) == l
  {
    if n > 0 {
      FixedFollows(h, l, n - 1);
    }
  }

  lemma FixedLeads(h: map<Node, Node>, l: Node, t: Node)
    requires l in h ==> h[l] == l
    ensures Leads(h, l, t) <==> l == t
  {
    if Leads(h, l, t) {
      var n: nat :| Follow(h, l, n) == t;
      FixedFollows(h, l, n);
    }
    assert Follow(h, l, 0) == l;
  }

  /** A block that forwards to itself stays. */
  lemma FixedIsLeft(h: map<Node, Node>, order: seq<Node>, l: Node)
    requires l in h && h[l] == l && l in order
    ensures LeftOver(h, order, l)
  {
    hide Leads;
    FixedLeads(h, l, l);
    var i :| 0 <= i < |order| && order[i] == l;
    forall t | t in h && Leads(h, l, t)
      ensures NotAfter(order, t, l)
    {
      FixedLeads(h, l, t);
      assert order[i] == t;
    }
  }

  // ----- bypassing one block -----

  lemma {:induction false} ContractFollows(h: map<Node, Node>, x: Node, l: Node, n: nat)
    requires Inside(h) && x in h && h[x] != x && l in h && l != x
    ensures var p := Follow(Contract(h, x), l, n); p in h && p != x && Leads(h, l, p)
  {
    if n == 0 {
      assert Follow(h, l, 0) == l;
    } else {
      ContractFollows(h, x, l, n - 1);
      var p := Follow(Contract(h, x), l, n - 1);
      var k: nat :| Follow(h, l, k) == p;
      assert Follow(h, l, k + 1) == h[p];
      if h[p] == x {
        assert Follow(h, l, k + 2) == h[x];
      }
    }
  }

  lemma {:induction false} FollowsContract(h: map<Node, Node>, x: Node, l: Node, n: nat)
    requires Inside(h) && x in h && h[x] != x && l in h && l != x
    requires Follow(h, l, n) != x
    ensures Leads(Contract(h, x), l, Follow(h, l, n))
    decreases n
  {
    var c := Contract(h, x);
    if n == 0 {
      assert Follow(c, l, 0) == l;
    } else {
      var p := Follow(h, l, n - 1);
      FollowsInside(h, l, n - 1);
      var from := if p == x then Follow(h, l, n - 2) else p;
      if p == x {
        assert n >= 2;
        FollowsInside(h, l, n - 2);
        assert from != x;
        FollowsContract(h, x, l, n - 2);
      } else {
        FollowsContract(h, x, l, n - 1);
      }
      var k: nat :| Follow(c, l, k) == from;
      assert Follow(c, l, k + 1) == c[from] == Follow(h, l, n);
    }
  }

  lemma {:induction false} FollowsInside(h: map<Node, Node>, l: Node, n: nat)
    requires Inside(h) && l in h
    ensures Follow(h, l, n) in h
  {
    if n > 0 {
      FollowsInside(h, l, n - 1);
    }
  }

  /** Bypassing x does not change where the others lead, apart from x. */
  lemma ContractLeads(h: map<Node, Node>, x: Node, l: Node, t: Node)
    requires Inside(h) && x in h && h[x] != x && l in h && l != x && t != x
    ensures Leads(Contract(h, x), l, t) <==> Leads(h, l, t)
  {
    if Leads(Contract(h, x), l, t) {
      var n: nat :| Follow(Contract(h, x), l, n) == t;
      ContractFollows(h, x, l, n);
    }
    if Leads(h, l, t) {
      var n: nat :| Follow(h, l, n) == t;
      FollowsContract(h, x, l, n);
    }
  }

  lemma NotAfterRemoved(order: seq<Node>, i: nat, a: Node, b: Node)
    requires Unique(order) && i < |order| && a != order[i] && b != order[i]
    ensures NotAfter(Removed(order, i), a, b) <==> NotAfter(order, a, b)
  {
    hide Unique;
    var r := Removed(order, i);
    if NotAfter(order, a, b) {
      var j, k :| 0 <= j <= k < |order| && order[j] == a && order[k] == b;
      var j', k' := if j < i then j else j - 1, if k < i then k else k - 1;
      assert 0 <= j' <= k' < |r| && r[j'] == a && r[k'] == b;
    }
    if NotAfter(r, a, b) {
      var j, k :| 0 <= j <= k < |r| && r[j] == a && r[k] == b;
      var j', k' := if j < i then j else j + 1, if k < i then k else k + 1;
      assert 0 <= j' <= k' < |order| && order[j'] == a && order[k'] == b;
    }
  }

  /** Every block in front of position i has been dealt with: it forwards to itself. */
  ghost predicate DoneBefore(h: map<Node, Node>, order: seq<Node>, i: nat) {
    && Inside(h) && Lists(order, h) && i < |order| && h[order[i]] != order[i]
    && forall k | 0 <= k < i :: h[order[k]] == order[k]
  }

  lemma DoneFacts(h: map<Node, Node>, order: seq<Node>, i: nat)
    requires DoneBefore(h, order, i)
    ensures i < |order| && Inside(h) && Unique(order) && order[i] in h && h[order[i]] != order[i]
    ensures forall j | 0 <= j < |order| && j != i :: order[j] != order[i] && order[j] in h
  {
    hide Inside;
    assert forall j | 0 <= j < |order| :: order[j] in order;
  }

  /** A block that forwards to another one is not in front of position i. */
  lemma Behind(h: map<Node, Node>, order: seq<Node>, i: nat, a: Node) returns (j: nat)
    requires i < |order| && order[i] in h && DoneBefore(h, order, i) && a in h && h[a] != a
    ensures i <= j < |order| && order[j] == a
  {
    hide Inside;
    j :| 0 <= j < |order| && order[j] == a;
  }

  /** A block that leads to another one is not in front of position i. */
  lemma LoopBehind(h: map<Node, Node>, order: seq<Node>, i: nat, a: Node, b: Node)
    requires i < |order| && order[i] in h && DoneBefore(h, order, i) && a in h && a != b && Leads(h, a, b)
              && a != order[i]
    ensures NotAfter(order, order[i], a) && !NotAfter(order, a, order[i])
  {
    hide Leads, DoneBefore;
    DoneFacts(h, order, i);
    if h[a] == a {
      FixedLeads(h, a, b);
    }
    var j := Behind(h, order, i, a);
  }

  lemma NotLeft(h: map<Node, Node>, order: seq<Node>, i: nat)
    requires i < |order| && order[i] in h && DoneBefore(h, order, i)
    ensures !LeftOver(h, order, order[i])
  {
    hide Leads, NotAfter, DoneBefore, Inside;
    DoneFacts(h, order, i);
    var x := order[i];
    if LeftOver(h, order, x) {
      var t := h[x];
      assert Inside(h) ==> t in h by {
        Targets(h, x);
      }
      LeadsStep(h, x, t);
      LeadsStep(h, t, t);
      LoopBehind(h, order, i, t, x);
    }
  }

  lemma Targets(h: map<Node, Node>, x: Node)
    requires x in h
    ensures Inside(h) ==> h[x] in h
  {
  }

  lemma LoopContract(h: map<Node, Node>, x: Node, l: Node)
    requires Inside(h) && x in h && h[x] != x && l in h && l != x
    ensures OnLoop(Contract(h, x), l) <==> OnLoop(h, l)
  {
    hide Leads;
    LeadsStep(h, x, l);
    ContractLeads(h, x, if h[l] == x then h[x] else h[l], l);
  }

  lemma LeftContract(h: map<Node, Node>, order: seq<Node>, i: nat, l: Node)
    requires i < |order| && order[i] in h && DoneBefore(h, order, i) && l in h && l != order[i]
    ensures LeftOver(Contract(h, order[i]), Removed(order, i), l) <==> LeftOver(h, order, l)
  {
    hide Leads, NotAfter, OnLoop, Contract, DoneBefore, Inside, Unique;
    DoneFacts(h, order, i);
    var x := order[i];
    LoopContract(h, x, l);
    forall t | t in h && t != x
      ensures Leads(Contract(h, x), l, t) <==> Leads(h, l, t)
      ensures NotAfter(Removed(order, i), t, l) <==> NotAfter(order, t, l)
    {
      ContractLeads(h, x, l, t);
      NotAfterRemoved(order, i, t, l);
    }
    if Leads(h, l, x) {
      LoopBehind(h, order, i, l, x);
    }
  }

  lemma FirstRemoved(h: map<Node, Node>, order: seq<Node>, i: nat, j: nat)
    requires i < |order| && order[i] in h && DoneBefore(h, order, i) && j < |order| && j != i
    ensures var k := if j < i then j else j - 1;
            FirstLeft(Contract(h, order[i]), Removed(order, i), k) <==> FirstLeft(h, order, j)
  {
    hide LeftOver, Contract, Inside, DoneBefore, Unique;
    DoneFacts(h, order, i);
    var c, r := Contract(h, order[i]), Removed(order, i);
    var k := if j < i then j else j - 1;
    NotLeft(h, order, i);
    forall m | 0 <= m < |order| && m != i
      ensures LeftOver(c, r, order[m]) <==> LeftOver(h, order, order[m])
    {
      LeftContract(h, order, i, order[m]);
    }
    if FirstLeft(c, r, k) {
      forall m | 0 <= m < j
        ensures !LeftOver(h, order, order[m])
      {
        if m != i {
          assert r[if m < i then m else m - 1] == order[m];
        }
      }
    }
  }

  lemma EntryContract(h: map<Node, Node>, x: Node, entry: Node, t: Node)
    requires Inside(h) && x in h && h[x] != x && t != x && entry in h
    ensures Leads(Contract(h, x), if entry == x then h[x] else entry, t) <==> Leads(h, entry, t)
  {
    hide Leads;
    ContractLeads(h, x, if entry == x then h[x] else entry, t);
    LeadsStep(h, x, t);
  }

  /** Bypassing the next block that is to be bypassed does not change whether the entry leads to the
      first block that stays. */
  lemma ContractKeeps(h: map<Node, Node>, order: seq<Node>, i: nat, entry: Node)
    requires i < |order| && order[i] in h && DoneBefore(h, order, i) && entry in h
    ensures EntryLeadsToFirst(Contract(h, order[i]), Removed(order, i),
                              if entry == order[i] then h[order[i]] else entry)
            <==> EntryLeadsToFirst(h, order, entry)
  {
    hide Leads, FirstLeft, Contract, EntryLeadsToFirst, DoneBefore, Inside, Unique;
    DoneFacts(h, order, i);
    var x := order[i];
    var c, r, e := Contract(h, x), Removed(order, i), if entry == x then h[x] else entry;
    if EntryLeadsToFirst(h, order, entry) {
      var j := TakeFirst(h, order, entry);
      NotFirst(h, order, i);
      FirstRemoved(h, order, i, j);
      EntryContract(h, x, entry, order[j]);
      var k := if j < i then j else j - 1;
      assert r[k] == order[j];
      MakeFirst(c, r, e, k);
    }
    if EntryLeadsToFirst(c, r, e) {
      var k := TakeFirst(c, r, e);
      var j := if k < i then k else k + 1;
      assert r[k] == order[j];
      FirstRemoved(h, order, i, j);
      EntryContract(h, x, entry, order[j]);
      MakeFirst(h, order, entry, j);
    }
  }

  lemma TakeFirst(h: map<Node, Node>, order: seq<Node>, entry: Node) returns (j: nat)
    requires EntryLeadsToFirst(h, order, entry)
    ensures j < |order| && FirstLeft(h, order, j) && Leads(h, entry, order[j])
  {
    hide FirstLeft, Leads;
    j :| 0 <= j < |order| && FirstLeft(h, order, j) && Leads(h, entry, order[j]);
  }

  lemma MakeFirst(h: map<Node, Node>, order: seq<Node>, entry: Node, j: nat)
    requires j < |order| && FirstLeft(h, order, j) && Leads(h, entry, order[j])
    ensures EntryLeadsToFirst(h, order, entry)
  {
    hide FirstLeft, Leads;
  }

  lemma NotFirst(h: map<Node, Node>, order: seq<Node>, i: nat)
    requires i < |order| && order[i] in h && DoneBefore(h, order, i)
    ensures !FirstLeft(h, order, i)
  {
    hide LeftOver, DoneBefore;
    NotLeft(h, order, i);
  }

  /** When nothing is left to bypass, the entry is the first block or it is not right. */
  lemma AllLeft(h: map<Node, Node>, order: seq<Node>, entry: Node)
    requires Lists(order, h) && order != [] && entry in h && forall l | l in h :: h[l] == l
    ensures EntryLeadsToFirst(h, order, entry) <==> entry == order[0]
  {
    hide Leads, LeftOver;
    forall k | 0 <= k < |order|
      ensures LeftOver(h, order, order[k])
    {
      assert order[k] in order;
      FixedIsLeft(h, order, order[k]);
    }
    FixedLeads(h, entry, order[0]);
    assert FirstLeft(h, order, 0);
  }
}
