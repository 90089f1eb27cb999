/**
 * The two results about `rebuild` as a whole.
 *
 * From the root of a whole tree, the walk gives every node of the tree the
 * span of the pre-order numbering and returns the pre-order listing.
 *
 * From an inner node `p` (as `append`, `prepend` and `removeChild` call it),
 * the walk first numbers the subtree of `p`, then climbs: at each ancestor it
 * numbers the later siblings, visits the ancestor, numbers the earlier
 * siblings and passes through the part already done.  Provided that every
 * ancestor of `p`, and `p` itself, would be given the left of the numbering
 * by what the table holds before the call, the walk ends with the same table
 * as from the root, and its list is a permutation of the pre-order listing.
 */
module WalkTheorems {
  import opened Shape
  import opened Numbering
  import opened Arena
  import opened WalkProof

  /** `p` and every ancestor of `p` would get the left of the numbering from table `n`. */
  ghost predicate PathReady(links: Links, n: Table, t: Tree, p: Id)
  {
    forall a :: a in Pre(t) && p in Pre(Sub(t, a)) ==> LeftOk(links, n, t, a)
  }

  /** Every proper ancestor of `y` would get the left of the numbering from table `n`. */
  ghost predicate AboveReady(links: Links, n: Table, t: Tree, y: Id)
    requires y in Pre(t)
  {
    forall a :: a in Pre(t) && y in Pre(Sub(t, a)) && Level(t, a) < Level(t, y) ==> LeftOk(links, n, t, a)
  }

  // ---------------------------------------------------------------------------
  // From the root

  /** `rebuild()` on a root numbers its whole tree in pre-order and lists it in pre-order. */
  lemma WalkFromRoot(links: Links, n: Table, t: Tree)
    requires Rooted(links, t) && forall z :: z in Pre(t) ==> z in n
    ensures WalkReq(links, n, [], t.id, t)
    ensures Walk(links, n, [], t.id, t) == (Apply(n, Number(t, 0), Elems(Pre(t))), Pre(t))
  {
    assert t.id in Pre(t);
    assert Sub(t, t.id) == t;
    ReadyAt(links, n, t, t.id);
    Laws(links, t, t.id);
    Env(links, t, t.id);
    Macro(links, n, [], t.id, t);
    assert [] + Pre(t) == Pre(t);
  }

  // ---------------------------------------------------------------------------
  // Subtrees inside subtrees

  lemma {:induction false} SubSub(t: Tree, a: Id, x: Id)
    requires Distinct(Pre(t)) && a in Pre(t) && x in Pre(Sub(t, a))
    ensures x in Pre(t) && Sub(Sub(t, a), x) == Sub(t, x)
    ensures forall z :: z in Pre(Sub(t, x)) ==> z in Pre(Sub(t, a))
    decreases t
  {
    SubPre(t, a);
    if t.id != a {
      var j := KidWith(t.kids, a);
      var k := t.kids[j];
      DistinctTop(t);
      SubInKid(t, j, a);
      SubPre(k, a);
      SubInKid(t, j, x);
      SubSub(k, a, x);
    }
    SubPre(Sub(t, a), x);
  }

  lemma {:induction false} PreAllAppend(a: seq<Tree>, b: seq<Tree>)
    ensures PreAll(a + b) == PreAll(a) + PreAll(b)
  {
    if a == [] {
      assert a + b == b;
    } else {
      assert (a + b)[0] == a[0];
      assert (a + b)[1..] == a[1..] + b;
      PreAllAppend(a[1..], b);
    }
  }

  /** The pre-order listing of the kids, cut at kid `j`. */
  lemma PreAllAround(ts: seq<Tree>, j: nat)
    requires j < |ts|
    ensures PreAll(ts) == PreAll(ts[..j]) + Pre(ts[j]) + PreAll(ts[j + 1..])
    ensures PreAll(ts[j..]) == Pre(ts[j]) + PreAll(ts[j + 1..])
    ensures ts[..|ts|] == ts && ts[j..|ts|] == ts[j..]
  {
    assert ts == ts[..j] + ts[j..];
    assert ts[j..|ts|] == ts[j..];
    PreAllAppend(ts[..j], ts[j..]);
    PreAllSplit(ts, j, |ts|);
    Assoc(PreAll(ts[..j]), Pre(ts[j]), PreAll(ts[j + 1..]));
  }

  /** The parent of a non-top node, seen from below: its kid index, and the ancestors it shares. */
  lemma ParentAbove(links: Links, t: Tree, y: Id) returns (x: Id, j: nat)
    requires Rooted(links, t) && y in Pre(t) && y != t.id
    ensures x in Pre(t) && j < |Sub(t, x).kids| && Sub(t, x).kids[j] == Sub(t, y)
    ensures Sub(t, x).kids[j].id == y
    ensures y in links && links[y].parent == Some(x)
    ensures Level(t, x) + 1 == Level(t, y)
    ensures y in Pre(Sub(t, x)) && forall z :: z in Pre(Sub(t, y)) ==> z in Pre(Sub(t, x))
    ensures forall a :: a in Pre(t) && x in Pre(Sub(t, a)) ==> y in Pre(Sub(t, a))
  {
    x, j := ParentOf(links, t, y);
    var s := Sub(t, x);
    InPreAll(s.kids, j);
    assert y in Pre(s.kids[j]);
    forall a | a in Pre(t) && x in Pre(Sub(t, a)) ensures y in Pre(Sub(t, a)) {
      SubSub(t, a, x);
    }
  }

  /** `NewLeft` reads the node's parent's left, its siblings' rights and its own left, and nothing else. */
  lemma NewLeftReads(links: Links, n: Table, m: Table, x: Id)
    requires ParentReady(links, n, x) && ParentReady(links, m, x)
    requires n[x].left == m[x].left
    requires links[x].parent.Some? ==>
      && n[links[x].parent.value].left == m[links[x].parent.value].left
      && forall c :: c in links[links[x].parent.value].children ==> n[c].right == m[c].right
    ensures NewLeft(links, n, x) == NewLeft(links, m, x)
  {
  }

  /** Changing the table only inside the subtree of `a`, and not at `a`, keeps `a`'s left right. */
  lemma LeftOkFrame(links: Links, n: Table, S: set<Id>, a: Id, t: Tree)
    requires Rooted(links, t) && a in Pre(t)
    requires forall z :: z in Pre(t) ==> z in n
    requires LeftOk(links, n, t, a)
    requires forall z :: z in S ==> z in Pre(Sub(t, a)) && z != a
    ensures LeftOk(links, Apply(n, Number(t, 0), S), t, a)
  {
    var m := Apply(n, Number(t, 0), S);
    ReadyAt(links, m, t, a);
    if a != t.id {
      var p := ParentSide(links, t, a);
      forall c | c in links[p].children ensures n[c].right == m[c].right {
        if c != a {
          assert c !in S;
        }
      }
    } else {
      Env(links, t, a);
    }
    NewLeftReads(links, n, m, a);
  }

  /** The parent and the siblings of a non-top node `a` lie outside the subtree of `a`. */
  lemma ParentSide(links: Links, t: Tree, a: Id) returns (p: Id)
    requires Rooted(links, t) && a in Pre(t) && a != t.id
    ensures a in links && links[a].parent == Some(p) && p in links
    ensures p !in Pre(Sub(t, a))
    ensures forall c :: c in links[p].children && c != a ==> c !in Pre(Sub(t, a))
  {
    var i;
    p, i := ParentOf(links, t, a);
    var sp := Sub(t, p);
    SubDistinct(t, p);
    DistinctTop(sp);
    Env(links, t, p);
    forall c | c in links[p].children && c != a ensures c !in Pre(Sub(t, a)) {
      var k :| 0 <= k < |sp.kids| && Roots(sp.kids)[k] == c;
      assert c in Pre(sp.kids[k]);
    }
  }

  // ---------------------------------------------------------------------------
  // Climbing

  /**
   * Leaving `y` when exactly its subtree is done: the later siblings of `y`
   * get numbered and the walk arrives at the parent `x`.
   */
  lemma ClimbSiblings(links: Links, n0: Table, list: seq<Id>, y: Id, t: Tree) returns (x: Id, j: nat, l2: seq<Id>)
    requires Rooted(links, t) && y in Pre(t) && y != t.id && y in list
    requires forall z :: z in Pre(t) ==> z in n0
    requires multiset(list) == multiset(Pre(Sub(t, y)))
    ensures x in Pre(t) && j < |Sub(t, x).kids| && Sub(t, x).kids[j] == Sub(t, y)
    ensures Level(t, x) + 1 == Level(t, y)
    ensures y in Pre(Sub(t, x))
    ensures forall a :: a in Pre(t) && x in Pre(Sub(t, a)) ==> y in Pre(Sub(t, a))
    ensures WalkReq(links, Apply(n0, Number(t, 0), Elems(list)), list, y, t)
    ensures Leave(links, Apply(n0, Number(t, 0), Elems(list)), list, y, t)
         == Walk(links, Apply(n0, Number(t, 0), Elems(l2)), l2, x, t)
    ensures multiset(l2) == multiset(PreAll(Sub(t, x).kids[j..]))
  {
    var T := Number(t, 0);
    x, j := ParentAbove(links, t, y);
    var ks := Sub(t, x).kids;
    var n := Apply(n0, T, Elems(list));
    assert WalkReq(links, n, list, y, t);
    KidFacts(links, t, x, j);
    LeaveStep(links, n, list, y, t);
    PreAllAround(ks, j);
    forall z | z in list ensures z in Pre(ks[j]) {
      assert z in multiset(list);
    }
    if j + 1 < |ks| {
      forall k | j + 1 <= k < |ks| ensures Fresh(list, ks[k]) {
      }
      assert Agrees(n, T, y) by {
        Laws(links, t, y);
      }
      NextLeftOk(links, n, x, j, t);
      MacroKids(links, n, list, x, j + 1, |ks|, t);
      l2 := list + PreAll(ks[j + 1..]);
      ApplyChain(n0, T, Elems(list), Elems(PreAll(ks[j + 1..])));
      ElemsConcat(list, PreAll(ks[j + 1..]));
    } else {
      l2 := list;
      assert ks[j + 1..] == [];
    }
  }

  /** The kids from `j` on lie inside the subtree of `x`, below `x`. */
  lemma BelowParent(l2: seq<Id>, x: Id, j: nat, t: Tree)
    requires Distinct(Pre(t)) && x in Pre(t) && j < |Sub(t, x).kids|
    requires multiset(l2) == multiset(PreAll(Sub(t, x).kids[j..]))
    ensures x !in l2
    ensures forall z :: z in Elems(l2) ==> z in Pre(Sub(t, x)) && z != x
  {
    var s := Sub(t, x);
    var ks := s.kids;
    PreAllAround(ks, j);
    PreAllAppend(ks[..j], ks[j..]);
    assert ks[..j] + ks[j..] == ks;
    SubDistinct(t, x);
    DistinctTop(s);
    forall z | z in l2 ensures z in PreAll(ks) {
      assert z in multiset(l2);
      assert z in PreAll(ks[j..]);
    }
  }

  /** Visiting the parent `x` on the way up: it is fresh, and it gets its span. */
  lemma ClimbVisit(links: Links, n0: Table, l2: seq<Id>, x: Id, j: nat, t: Tree)
    requires Rooted(links, t) && x in Pre(t) && j < |Sub(t, x).kids|
    requires forall z :: z in Pre(t) ==> z in n0
    requires multiset(l2) == multiset(PreAll(Sub(t, x).kids[j..]))
    requires LeftOk(links, n0, t, x)
    ensures x in Number(t, 0) && x !in l2
    ensures var n := Apply(n0, Number(t, 0), Elems(l2));
      Walk(links, n, l2, x, t) == Descend(links, n[x := n[x].(left := Number(t, 0)[x].left)], l2 + [x], x, t)
    ensures var n := Apply(n0, Number(t, 0), Elems(l2)); var n1 := n[x := n[x].(left := Number(t, 0)[x].left)];
      n1[x := n1[x].(right := n1[x].left + SpanSize(Sub(t, x)) - 1)] == Apply(n0, Number(t, 0), Elems(l2 + [x]))
  {
    var T := Number(t, 0);
    BelowParent(l2, x, j, t);
    LeftOkFrame(links, n0, Elems(l2), x, t);
    var n := Apply(n0, T, Elems(l2));
    FirstVisit(links, n, l2, x, t);
    assert x in n0;
    VisitTable(n0, l2, x, t);
  }

  /** A first visit of `x` when its new left is the numbering's. */
  lemma FirstVisit(links: Links, n: Table, l2: seq<Id>, x: Id, t: Tree)
    requires Rooted(links, t) && x in Pre(t) && x !in l2
    requires forall z :: z in Pre(t) ==> z in n
    requires LeftOk(links, n, t, x)
    ensures Walk(links, n, l2, x, t) == Descend(links, n[x := n[x].(left := Number(t, 0)[x].left)], l2 + [x], x, t)
  {
    WalkUnfold(links, n, l2, x, t);
  }

  /** The visit and the right set at `x` number `x` as the numbering does. */
  lemma VisitTable(n0: Table, l2: seq<Id>, x: Id, t: Tree)
    requires Distinct(Pre(t)) && x in Pre(t) && x in n0
    ensures x in Number(t, 0)
    ensures var n := Apply(n0, Number(t, 0), Elems(l2)); var n1 := n[x := n[x].(left := Number(t, 0)[x].left)];
      n1[x := n1[x].(right := n1[x].left + SpanSize(Sub(t, x)) - 1)] == Apply(n0, Number(t, 0), Elems(l2 + [x]))
  {
    var T := Number(t, 0);
    var n := Apply(n0, T, Elems(l2));
    assert x in T && T[x].right == T[x].left + SpanSize(Sub(t, x)) - 1 by { TreeLaws(t, x); }
    ApplyVisit(n0, T, l2, x, SpanSize(Sub(t, x)));
  }

  /** The kids of `x` before kid `j` and those from kid `j` on: where their nodes lie. */
  lemma SplitKids(x: Id, j: nat, t: Tree)
    requires Distinct(Pre(t)) && x in Pre(t) && j <= |Sub(t, x).kids|
    ensures var ks := Sub(t, x).kids;
      && (forall k, z :: 0 <= k < j && z in Pre(ks[k]) ==> z in PreAll(ks[..j]) && z !in PreAll(ks[j..]) && z != x)
      && (forall k, z :: j <= k < |ks| && z in Pre(ks[k]) ==> z in PreAll(ks[j..]))
      && multiset(Pre(Sub(t, x))) == multiset([x]) + multiset(PreAll(ks[..j])) + multiset(PreAll(ks[j..]))
  {
    SubDistinct(t, x);
    var ks := Sub(t, x).kids;
    SplitAt(Sub(t, x), j, x);
    forall k, z | 0 <= k < j && z in Pre(ks[k])
      ensures z in PreAll(ks[..j]) && z !in PreAll(ks[j..]) && z != x
    {
    }
  }

  /** The same split, for one tree. */
  lemma SplitAt(s: Tree, j: nat, x: Id)
    requires Distinct(Pre(s)) && j <= |s.kids| && s.id == x
    ensures var ks := s.kids;
      && (forall k, z :: 0 <= k < j && z in Pre(ks[k]) ==> z in PreAll(ks[..j]) && z !in PreAll(ks[j..]) && z != x)
      && (forall k, z :: j <= k < |ks| && z in Pre(ks[k]) ==> z in PreAll(ks[j..]))
      && multiset(Pre(s)) == multiset([x]) + multiset(PreAll(ks[..j])) + multiset(PreAll(ks[j..]))
  {
    var ks := s.kids;
    DistinctConcat([s.id], PreAll(ks));
    SplitBlocks(ks, j);
    assert PreAll(ks) == PreAll(ks[..j]) + PreAll(ks[j..]);
    forall k, z | 0 <= k < j && z in Pre(ks[k])
      ensures z in PreAll(ks[..j]) && z !in PreAll(ks[j..]) && z != x
    {
      BlockLeft(ks, j, k);
      assert z in PreAll(ks);
    }
    forall k | j <= k < |ks| ensures forall z :: z in Pre(ks[k]) ==> z in PreAll(ks[j..]) {
      BlockRight(ks, j, k);
    }
    SplitCount(s, j);
  }

  lemma SplitCount(s: Tree, j: nat)
    requires j <= |s.kids|
    ensures multiset(Pre(s)) == multiset([s.id]) + multiset(PreAll(s.kids[..j])) + multiset(PreAll(s.kids[j..]))
  {
    assert s.kids[..j] + s.kids[j..] == s.kids;
    PreAllAppend(s.kids[..j], s.kids[j..]);
    assert Pre(s) == [s.id] + (PreAll(s.kids[..j]) + PreAll(s.kids[j..]));
  }

  lemma BlockLeft(ks: seq<Tree>, j: nat, k: nat)
    requires k < j <= |ks|
    ensures forall z :: z in Pre(ks[k]) ==> z in PreAll(ks[..j])
  {
    InPreAll(ks[..j], k);
    assert ks[..j][k] == ks[k];
  }

  lemma BlockRight(ks: seq<Tree>, j: nat, k: nat)
    requires j <= k < |ks|
    ensures forall z :: z in Pre(ks[k]) ==> z in PreAll(ks[j..])
  {
    InPreAll(ks[j..], k - j);
    assert ks[j..][k - j] == ks[k];
  }

  /** Cutting a list of trees in two cuts its listing in two disjoint halves. */
  lemma SplitBlocks(ks: seq<Tree>, j: nat)
    requires Distinct(PreAll(ks)) && j <= |ks|
    ensures PreAll(ks) == PreAll(ks[..j]) + PreAll(ks[j..])
    ensures Disjoint(PreAll(ks[..j]), PreAll(ks[j..]))
  {
    assert ks[..j] + ks[j..] == ks;
    PreAllAppend(ks[..j], ks[j..]);
    DistinctConcat(PreAll(ks[..j]), PreAll(ks[j..]));
  }

  /** Every child of `x` is on a list that holds all the nodes below `x`. */
  lemma ChildrenIn(links: Links, t: Tree, x: Id, list: seq<Id>)
    requires Rooted(links, t) && x in Pre(t)
    requires forall z :: z in PreAll(Sub(t, x).kids) ==> z in list
    ensures x in links && forall c :: c in links[x].children ==> c in list
  {
    Env(links, t, x);
    RootsInPreAll(Sub(t, x).kids);
  }

  /** On the way up at `x` when `y` is its first kid: nothing is left below `x`, so the walk leaves it. */
  lemma ClimbFirst(links: Links, n0: Table, l2: seq<Id>, x: Id, t: Tree)
    requires Rooted(links, t) && x in Pre(t) && 0 < |Sub(t, x).kids|
    requires forall z :: z in Pre(t) ==> z in n0
    requires multiset(l2) == multiset(PreAll(Sub(t, x).kids[0..]))
    requires LeftOk(links, n0, t, x)
    ensures x !in l2 && x in Number(t, 0)
    ensures var n := Apply(n0, Number(t, 0), Elems(l2));
      Walk(links, n, l2, x, t) == Leave(links, Apply(n0, Number(t, 0), Elems(l2 + [x])), l2 + [x], x, t)
    ensures multiset(l2 + [x]) == multiset(Pre(Sub(t, x)))
  {
    var T := Number(t, 0);
    var ks := Sub(t, x).kids;
    var n := Apply(n0, T, Elems(l2));
    var n1 := n[x := n[x].(left := T[x].left)];
    ClimbVisit(links, n0, l2, x, 0, t);
    AllKidsListed(links, t, x, l2);
    assert FirstUnvisited(links[x].children, l2 + [x]).None?;
    DescendStay(links, n1, l2 + [x], x, t, Apply(n0, T, Elems(l2 + [x])));
  }

  /** A list holding exactly the nodes below `x`, then `x`: it holds every child of `x`, and all of `x`'s subtree. */
  lemma AllKidsListed(links: Links, t: Tree, x: Id, l2: seq<Id>)
    requires Rooted(links, t) && x in Pre(t)
    requires multiset(l2) == multiset(PreAll(Sub(t, x).kids[0..]))
    ensures x in links && forall c :: c in links[x].children ==> c in l2 + [x]
    ensures multiset(l2 + [x]) == multiset(Pre(Sub(t, x)))
  {
    var ks := Sub(t, x).kids;
    assert ks[0..] == ks;
    forall z | z in PreAll(ks) ensures z in l2 + [x] {
      assert z in multiset(l2);
    }
    ChildrenIn(links, t, x, l2 + [x]);
    assert Pre(Sub(t, x)) == [x] + PreAll(ks);
  }

  /** Which kids of `x` a list holding exactly the kids from `j` on lists, and which it does not. */
  lemma ListedKids(l2: seq<Id>, x: Id, j: nat, t: Tree)
    requires Distinct(Pre(t)) && x in Pre(t) && j <= |Sub(t, x).kids|
    requires multiset(l2) == multiset(PreAll(Sub(t, x).kids[j..]))
    ensures var ks := Sub(t, x).kids;
      && (forall k :: 0 <= k < j ==> Fresh(l2 + [x], ks[k]))
      && (forall k, z :: j <= k < |ks| && z in Pre(ks[k]) ==> z in l2)
      && (forall z :: z in PreAll(ks) ==> z in l2 + PreAll(ks[..j]))
  {
    var ks := Sub(t, x).kids;
    SplitKids(x, j, t);
    forall k | 0 <= k < j ensures Fresh(l2 + [x], ks[k]) {
      forall z | z in Pre(ks[k]) ensures z !in l2 + [x] {
        assert z !in PreAll(ks[j..]);
        assert z !in multiset(l2);
      }
    }
    forall k, z | j <= k < |ks| && z in Pre(ks[k]) ensures z in l2 {
      assert z in PreAll(ks[j..]);
      assert z in multiset(l2);
    }
    assert ks[..j] + ks[j..] == ks;
    PreAllAppend(ks[..j], ks[j..]);
    forall z | z in PreAll(ks) ensures z in l2 + PreAll(ks[..j]) {
      if z !in PreAll(ks[..j]) {
        assert z in multiset(l2);
      }
    }
  }

  /** A listed node of the tree carries its span once the listed nodes are numbered. */
  lemma ApplyAgrees(n0: Table, t: Tree, S: set<Id>, z: Id)
    requires z in Pre(t) && z in n0 && z in S
    ensures Agrees(Apply(n0, Number(t, 0), S), Number(t, 0), z)
  {
    NumberKeys(t, 0);
  }

  /** Before going down again at `x`: the kids before `j` are fresh, those from `j` on are done. */
  lemma EarlierReady(links: Links, n0: Table, l2: seq<Id>, x: Id, j: nat, t: Tree)
    requires Rooted(links, t) && x in Pre(t) && 0 < j < |Sub(t, x).kids|
    requires forall z :: z in Pre(t) ==> z in n0
    requires multiset(l2) == multiset(PreAll(Sub(t, x).kids[j..]))
    ensures var ks := Sub(t, x).kids; var l1 := l2 + [x]; var n2 := Apply(n0, Number(t, 0), Elems(l1));
      && x in links && |links[x].children| > 0 && links[x].children[0] == ks[0].id && ks[0].id !in l1
      && WalkReq(links, n2, l1, ks[0].id, t)
      && (forall k :: 0 <= k < j ==> Fresh(l1, ks[k]))
      && (forall k :: j <= k < |ks| ==> Done(n2, l1, Number(t, 0), ks[k]))
      && LeftOk(links, n2, t, ks[0].id)
  {
    var T := Number(t, 0);
    var ks := Sub(t, x).kids;
    var l1 := l2 + [x];
    var n2 := Apply(n0, T, Elems(l1));
    ListedKids(l2, x, j, t);
    KidFacts(links, t, x, 0);
    assert ks[0].id in Pre(ks[0]);
    forall k | j <= k < |ks| ensures Done(n2, l1, T, ks[k]) {
      forall z | z in Pre(ks[k]) ensures z in l1 && Agrees(n2, T, z) {
        KidFacts(links, t, x, k);
        ApplyAgrees(n0, t, Elems(l1), z);
      }
    }
    ApplyAgrees(n0, t, Elems(l1), x);
    FirstLeftOk(links, n2, x, t);
  }

  /** After numbering the kids before `j`: every node below `x` is listed, and revisiting `x` leaves it. */
  lemma EarlierDone(links: Links, n0: Table, l2: seq<Id>, x: Id, j: nat, t: Tree)
    requires Rooted(links, t) && x in Pre(t) && 0 < j < |Sub(t, x).kids|
    requires forall z :: z in Pre(t) ==> z in n0
    requires multiset(l2) == multiset(PreAll(Sub(t, x).kids[j..]))
    ensures var ks := Sub(t, x).kids; var l1 := l2 + [x]; var l3 := l1 + PreAll(ks[0..j]);
      var n3 := Apply(Apply(n0, Number(t, 0), Elems(l1)), Number(t, 0), Elems(PreAll(ks[0..j])));
      && x in l3
      && n3 == Apply(n0, Number(t, 0), Elems(l3))
      && multiset(l3) == multiset(Pre(Sub(t, x)))
      && WalkReq(links, n3, l3, x, t)
      && Walk(links, n3, l3, x, t) == Leave(links, n3, l3, x, t)
  {
    var T := Number(t, 0);
    var ks := Sub(t, x).kids;
    var l1 := l2 + [x];
    var l3 := l1 + PreAll(ks[0..j]);
    assert ks[0..j] == ks[..j];
    EarlierApply(n0, T, l1, PreAll(ks[..j]));
    var n3 := Apply(n0, T, Elems(l3));
    EarlierMultiset(l2, x, j, t);
    assert forall c :: c in links[x].children ==> c in l3 by {
      ListedKids(l2, x, j, t);
      ChildrenIn(links, t, x, l3);
    }
    assert n3[x].right == n3[x].left + SpanSize(Sub(t, x)) - 1 by {
      Laws(links, t, x);
    }
    Revisit(links, n3, l3, x, t);
  }

  lemma EarlierApply(n0: Table, T: Spans, a: seq<Id>, b: seq<Id>)
    ensures Apply(Apply(n0, T, Elems(a)), T, Elems(b)) == Apply(n0, T, Elems(a + b))
  {
    ApplyChain(n0, T, Elems(a), Elems(b));
    ElemsConcat(a, b);
  }

  /** The list after the earlier kids of `x` holds the subtree of `x` once each. */
  lemma EarlierMultiset(l2: seq<Id>, x: Id, j: nat, t: Tree)
    requires Distinct(Pre(t)) && x in Pre(t) && j <= |Sub(t, x).kids|
    requires multiset(l2) == multiset(PreAll(Sub(t, x).kids[j..]))
    ensures multiset(l2 + [x] + PreAll(Sub(t, x).kids[..j])) == multiset(Pre(Sub(t, x)))
  {
    SplitKids(x, j, t);
  }

  /** On the way up at `x` when `y` is kid `j > 0`: visit `x` and go down to its first kid. */
  lemma ClimbDown(links: Links, n0: Table, l2: seq<Id>, x: Id, j: nat, t: Tree)
    requires Rooted(links, t) && x in Pre(t) && 0 < j < |Sub(t, x).kids|
    requires forall z :: z in Pre(t) ==> z in n0
    requires multiset(l2) == multiset(PreAll(Sub(t, x).kids[j..]))
    requires LeftOk(links, n0, t, x)
    ensures var T := Number(t, 0); var l1 := l2 + [x];
      && WalkReq(links, Apply(n0, T, Elems(l1)), l1, Sub(t, x).kids[0].id, t)
      && Walk(links, Apply(n0, T, Elems(l2)), l2, x, t) == Walk(links, Apply(n0, T, Elems(l1)), l1, Sub(t, x).kids[0].id, t)
  {
    var T := Number(t, 0);
    var n := Apply(n0, T, Elems(l2));
    var l1 := l2 + [x];
    var c0 := Sub(t, x).kids[0].id;
    assert x in links && |links[x].children| > 0 && links[x].children[0] == c0 && c0 !in l1 by {
      ListedKids(l2, x, j, t);
      KidFacts(links, t, x, 0);
      assert c0 in Pre(Sub(t, x).kids[0]);
    }
    assert x in T by { TreeLaws(t, x); }
    var n1 := n[x := n[x].(left := T[x].left)];
    ClimbVisit(links, n0, l2, x, j, t);
    assert FirstUnvisited(links[x].children, l1) == Some(c0);
    DownChain(links, n, l2, n1, l1, x, t, Apply(n0, T, Elems(l1)), c0);
  }

  /** A visit of `x` followed by the descent to its first unvisited child `c0`. */
  lemma DownChain(links: Links, n: Table, l2: seq<Id>, n1: Table, l1: seq<Id>, x: Id, t: Tree, m: Table, c0: Id)
    requires WalkReq(links, n, l2, x, t) && WalkReq(links, n1, l1, x, t) && x in l1 && x in links && x in n1
    requires Walk(links, n, l2, x, t) == Descend(links, n1, l1, x, t)
    requires n1[x := n1[x].(right := n1[x].left + SpanSize(Sub(t, x)) - 1)] == m
    requires |links[x].children| > 0 && FirstUnvisited(links[x].children, l1) == Some(c0)
    ensures WalkReq(links, m, l1, c0, t) && Walk(links, n, l2, x, t) == Walk(links, m, l1, c0, t)
  {
    DescendDown(links, n1, l1, x, t, m, c0);
  }

  /** On the way up at `x` when `y` is kid `j > 0`: visit `x`, go down and number the kids before `j`, come back to `x`. */
  lemma ClimbEarlier(links: Links, n0: Table, l2: seq<Id>, x: Id, j: nat, t: Tree)
    requires Rooted(links, t) && x in Pre(t) && 0 < j < |Sub(t, x).kids|
    requires forall z :: z in Pre(t) ==> z in n0
    requires multiset(l2) == multiset(PreAll(Sub(t, x).kids[j..]))
    requires LeftOk(links, n0, t, x)
    ensures var ks := Sub(t, x).kids; var T := Number(t, 0); var l1 := l2 + [x];
      Walk(links, Apply(n0, T, Elems(l2)), l2, x, t)
      == Walk(links, Apply(Apply(n0, T, Elems(l1)), T, Elems(PreAll(ks[0..j]))), l1 + PreAll(ks[0..j]), x, t)
  {
    EarlierReady(links, n0, l2, x, j, t);
    ClimbDown(links, n0, l2, x, j, t);
    MacroKids(links, Apply(n0, Number(t, 0), Elems(l2 + [x])), l2 + [x], x, 0, j, t);
  }

  /** On the way up at `x` when `y` is kid `j > 0`: the earlier kids get numbered, then the walk leaves `x`. */
  lemma ClimbLater(links: Links, n0: Table, l2: seq<Id>, x: Id, j: nat, t: Tree) returns (l3: seq<Id>)
    requires Rooted(links, t) && x in Pre(t) && 0 < j < |Sub(t, x).kids|
    requires forall z :: z in Pre(t) ==> z in n0
    requires multiset(l2) == multiset(PreAll(Sub(t, x).kids[j..]))
    requires LeftOk(links, n0, t, x)
    ensures x in l3
    ensures var n := Apply(n0, Number(t, 0), Elems(l2));
      Walk(links, n, l2, x, t) == Leave(links, Apply(n0, Number(t, 0), Elems(l3)), l3, x, t)
    ensures multiset(l3) == multiset(Pre(Sub(t, x)))
  {
    l3 := l2 + [x] + PreAll(Sub(t, x).kids[0..j]);
    ClimbEarlier(links, n0, l2, x, j, t);
    EarlierDone(links, n0, l2, x, j, t);
  }

  // ---------------------------------------------------------------------------
  // From an inner node

  /**
   * Leaving `y` once exactly its subtree is listed and numbered: the walk
   * climbs to the root, numbering everything else, and ends with every node
   * of the tree numbered and listed once.
   */
  lemma {:induction false} Climb(links: Links, n0: Table, list: seq<Id>, y: Id, t: Tree)
    requires Rooted(links, t) && y in Pre(t) && y in list
    requires forall z :: z in Pre(t) ==> z in n0
    requires multiset(list) == multiset(Pre(Sub(t, y)))
    requires AboveReady(links, n0, t, y)
    ensures WalkReq(links, Apply(n0, Number(t, 0), Elems(list)), list, y, t)
    ensures var r := Leave(links, Apply(n0, Number(t, 0), Elems(list)), list, y, t);
      r.0 == Apply(n0, Number(t, 0), Elems(Pre(t))) && multiset(r.1) == multiset(Pre(t))
    decreases Level(t, y)
  {
    var T := Number(t, 0);
    if y == t.id {
      Env(links, t, y);
      assert Sub(t, y) == t;
      assert Elems(list) == Elems(Pre(t)) by {
        forall z ensures z in list <==> z in Pre(t) {
          assert z in list <==> z in multiset(list);
        }
      }
    } else {
      var x, j, l2 := ClimbSiblings(links, n0, list, y, t);
      assert LeftOk(links, n0, t, x) by {
        SubPre(t, x);
      }
      var l3;
      if j == 0 {
        ClimbFirst(links, n0, l2, x, t);
        l3 := l2 + [x];
      } else {
        l3 := ClimbLater(links, n0, l2, x, j, t);
      }
      assert AboveReady(links, n0, t, x);
      Climb(links, n0, l3, x, t);
    }
  }

  /**
   * `rebuild()` on any node `p` of a whole tree: provided `p` and its
   * ancestors would be given the left of the numbering, it ends with the same
   * table as `rebuild()` on the root, and lists every node of the tree once.
   */
  lemma WalkFromInner(links: Links, n: Table, t: Tree, p: Id)
    requires Rooted(links, t) && p in Pre(t) && forall z :: z in Pre(t) ==> z in n
    requires PathReady(links, n, t, p)
    ensures WalkReq(links, n, [], p, t)
    ensures Walk(links, n, [], p, t).0 == Walk(links, n, [], t.id, t).0 == Apply(n, Number(t, 0), Elems(Pre(t)))
    ensures multiset(Walk(links, n, [], p, t).1) == multiset(Pre(t))
  {
    WalkFromRoot(links, n, t);
    var T := Number(t, 0);
    var s := Sub(t, p);
    assert p in Pre(s);
    assert LeftOk(links, n, t, p);
    Macro(links, n, [], p, t);
    assert [] + Pre(s) == Pre(s);
    assert Elems(Pre(s)) == Elems([] + Pre(s));
    SubPre(t, p);
    forall a | a in Pre(t) && p in Pre(Sub(t, a)) && Level(t, a) < Level(t, p)
      ensures LeftOk(links, n, t, a)
    {
    }
    Climb(links, n, Pre(s), p, t);
  }
}
