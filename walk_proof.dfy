/**
 * What the renumbering walk of `rebuild` computes.  Started at the root of a
 * whole tree it gives every node the span of the pre-order numbering
 * `Number(t, 0)` and returns the pre-order listing; started at an inner node
 * whose ancestors already have the right lefts available, it ends with the same
 * table and a list holding every node once.
 *
 * The proofs go by "macro steps": walking into a subtree none of whose nodes
 * is on the list numbers the whole subtree and comes back to leave its top
 * node; walking into a subtree that is already done only passes through it.
 */
module WalkProof {
  import opened Shape
  import opened Numbering
  import opened Arena

  /** Node `z` carries the span that `N` gives it. */
  ghost predicate Agrees(n: Table, N: Spans, z: Id)
  {
    z in n && z in N && n[z].left == N[z].left && n[z].right == N[z].right
  }

  /** Every node of `s` is on the list and already carries its span. */
  ghost predicate Done(n: Table, list: seq<Id>, N: Spans, s: Tree)
  {
    forall z :: z in Pre(s) ==> z in list && Agrees(n, N, z)
  }

  /** No node of `s` is on the list. */
  ghost predicate Fresh(list: seq<Id>, s: Tree)
  {
    forall z :: z in Pre(s) ==> z !in list
  }

  /** `rebuild` would give `x` the left that the pre-order numbering of `t` gives it. */
  ghost predicate LeftOk(links: Links, n: Table, t: Tree, x: Id)
  {
    ParentReady(links, n, x) && x in Number(t, 0) && NewLeft(links, n, x) == Number(t, 0)[x].left
  }

  // ---------------------------------------------------------------------------
  // Small facts

  lemma ElemsConcat(a: seq<Id>, b: seq<Id>)
    ensures Elems(a + b) == Elems(a) + Elems(b)
  {
  }

  lemma ApplyChain(n: Table, N: Spans, A: set<Id>, B: set<Id>)
    ensures Apply(Apply(n, N, A), N, B) == Apply(n, N, A + B)
  {
  }

  lemma ApplyNone(n: Table, N: Spans)
    ensures Apply(n, N, {}) == n
  {
  }

  lemma PreAllSplit(ts: seq<Tree>, i: nat, e: nat)
    requires i < e <= |ts|
    ensures PreAll(ts[i..e]) == Pre(ts[i]) + PreAll(ts[i + 1..e])
  {
    assert ts[i..e][0] == ts[i];
    assert ts[i..e][1..] == ts[i + 1..e];
  }

  /** The pre-order numbering laws, read at node `x` through the links. */
  lemma Laws(links: Links, t: Tree, x: Id)
    requires Rooted(links, t) && x in Pre(t)
    ensures forall z :: z in Pre(t) ==> z in Number(t, 0)
    ensures x in links && x in Number(t, 0)
    ensures Number(t, 0)[x].right == Number(t, 0)[x].left + SpanSize(Sub(t, x)) - 1
    ensures x == t.id ==> Number(t, 0)[x].left == 0
    ensures var cs := links[x].children;
      && (forall c :: c in cs ==> c in Number(t, 0))
      && (|cs| > 0 ==> Number(t, 0)[cs[0]].left == Number(t, 0)[x].left + 1)
      && (|cs| > 0 ==> Number(t, 0)[cs[|cs| - 1]].right + 1 == Number(t, 0)[x].right)
      && (forall i :: 0 <= i < |cs| - 1 ==> Number(t, 0)[cs[i + 1]].left == Number(t, 0)[cs[i]].right + 1)
      && (forall i :: 0 <= i < |cs| ==>
            Number(t, 0)[x].left < Number(t, 0)[cs[i]].left && Number(t, 0)[cs[i]].right < Number(t, 0)[x].right)
  {
    var T := Number(t, 0);
    var ks := Sub(t, x).kids;
    TreeLaws(t, x);
    ChildrenAre(links, t, x);
    var cs := links[x].children;
    forall c | c in cs ensures c in T {
      KidsInTree(links, t, x);
    }
    assert |cs| > 0 ==> cs[0] == ks[0].id && cs[|cs| - 1] == ks[|ks| - 1].id;
  }

  /** The numbering laws at `x`, on the tree alone. */
  lemma TreeLaws(t: Tree, x: Id)
    requires Distinct(Pre(t)) && x in Pre(t)
    ensures forall z :: z in Pre(t) ==> z in Number(t, 0)
    ensures x == t.id ==> Number(t, 0)[x].left == 0
    ensures x in Number(t, 0) && NumberedAt(Number(t, 0), Sub(t, x), Number(t, 0)[x].left)
    ensures var N, s := Number(t, 0), Sub(t, x);
      && N[s.id].right == N[s.id].left + SpanSize(s) - 1
      && (forall i :: 0 <= i < |s.kids| ==> s.kids[i].id in N)
      && (|s.kids| > 0 ==> N[s.kids[0].id].left == N[s.id].left + 1)
      && (|s.kids| > 0 ==> N[s.kids[|s.kids| - 1].id].right + 1 == N[s.id].right)
      && (forall i :: 0 <= i < |s.kids| - 1 ==> N[s.kids[i + 1].id].left == N[s.kids[i].id].right + 1)
      && (forall i :: 0 <= i < |s.kids| ==> N[s.id].left < N[s.kids[i].id].left && N[s.kids[i].id].right < N[s.id].right)
  {
    var T := Number(t, 0);
    NumberKeys(t, 0);
    NumberIsNumbered(t, 0);
    NumberedSub(T, t, 0, x);
    NumberedKids(T, Sub(t, x), T[x].left);
  }

  /** Kid `i` of `x`, seen from the links and from the tree. */
  lemma KidFacts(links: Links, t: Tree, x: Id, i: nat)
    requires Rooted(links, t) && x in Pre(t) && i < |Sub(t, x).kids|
    ensures var ks := Sub(t, x).kids; var c := ks[i].id;
      && c in Pre(t) && Sub(t, c) == ks[i]
      && x in links && i < |links[x].children| && links[x].children[i] == c
      && c in links && links[c].parent == Some(x) && HasParentIn(links, c)
      && IndexOf(links[x].children, c) == i
      && NextSibling(links, c) == (if i + 1 < |ks| then Some(ks[i + 1].id) else None)
      && x !in Pre(ks[i])
      && (forall z :: z in Pre(ks[i]) ==> z in Pre(Sub(t, x)) && z in Pre(t))
      && (forall j, z :: 0 <= j < |ks| && j != i && z in Pre(ks[i]) ==> z !in Pre(ks[j]))
  {
    KidInTree(t, x, i);
    KidInLinks(links, t, x, i);
  }

  /** Kid `i` of `x` in the tree: where its nodes lie. */
  lemma KidInTree(t: Tree, x: Id, i: nat)
    requires Distinct(Pre(t)) && x in Pre(t) && i < |Sub(t, x).kids|
    ensures var ks := Sub(t, x).kids; var c := ks[i].id;
      && c in Pre(t) && Sub(t, c) == ks[i]
      && x !in Pre(ks[i])
      && (forall z :: z in Pre(ks[i]) ==> z in Pre(Sub(t, x)) && z in Pre(t))
      && (forall j, z :: 0 <= j < |ks| && j != i && z in Pre(ks[i]) ==> z !in Pre(ks[j]))
  {
    var s := Sub(t, x);
    SubKid(t, x, i);
    SubDistinct(t, x);
    DistinctTop(s);
    InPreAll(s.kids, i);
    SubPre(t, x);
  }

  /** Kid `i` of `x` in the links: its place among the children of `x`, its parent and its next sibling. */
  lemma KidInLinks(links: Links, t: Tree, x: Id, i: nat)
    requires Rooted(links, t) && x in Pre(t) && i < |Sub(t, x).kids|
    ensures var ks := Sub(t, x).kids; var c := ks[i].id;
      && x in links && i < |links[x].children| && links[x].children[i] == c
      && c in links && links[c].parent == Some(x) && HasParentIn(links, c)
      && IndexOf(links[x].children, c) == i
      && NextSibling(links, c) == (if i + 1 < |ks| then Some(ks[i + 1].id) else None)
  {
    var ks := Sub(t, x).kids;
    var c := ks[i].id;
    Env(links, t, x);
    var cs := links[x].children;
    assert cs[i] == c && c in cs;
    IndexOfDistinct(cs, i);
  }

  // ---------------------------------------------------------------------------
  // Macro steps

  /** One call of the walk: the visit and what follows it. */
  lemma WalkUnfold(links: Links, n: Table, list: seq<Id>, y: Id, t: Tree)
    requires WalkReq(links, n, list, y, t)
    ensures ParentReady(links, n, y)
    ensures y !in list ==>
      Walk(links, n, list, y, t) == Descend(links, n[y := n[y].(left := NewLeft(links, n, y))], list + [y], y, t)
    ensures y in list ==> Walk(links, n, list, y, t) == Descend(links, n, list, y, t)
  {
    WalkEnv(links, n, list, y, t);
  }

  /** What the visit of `y` does to the nodes left to visit: `y` leaves the set, and a fresh node `d` is fewer still. */
  lemma VisitShrinks(t: Tree, list: seq<Id>, y: Id, l: seq<Id>)
    requires y in Pre(t) && l == if y in list then list else list + [y]
    ensures Elems(Pre(t)) - Elems(l) == Unvisited(t, list, y)
    ensures forall d :: d in Pre(t) && d !in l ==> Unvisited(t, l, d) < Unvisited(t, list, y)
  {
  }

  /** After the visit of `y`, what `GetSize` needs: the subtree of `y` is shaped and in the table. */
  lemma SizeReady(links: Links, n: Table, list: seq<Id>, y: Id, t: Tree)
    requires WalkReq(links, n, list, y, t)
    ensures y in links && y in n && Shaped(links, Sub(t, y))
    ensures forall z :: z in Pre(Sub(t, y)) ==> z in n
  {
    Env(links, t, y);
    SubPre(t, y);
  }

  /** The right is set and the walk goes down to the first unvisited child `d`. */
  lemma DescendDown(links: Links, n: Table, list: seq<Id>, y: Id, t: Tree, m: Table, d: Id)
    requires WalkReq(links, n, list, y, t) && y in list && y in links && y in n
    requires n[y := n[y].(right := n[y].left + SpanSize(Sub(t, y)) - 1)] == m
    requires !IsLeaf(links, n, y) && FirstUnvisited(links[y].children, list) == Some(d)
    ensures d in Pre(t) && d !in list && Unvisited(t, list, d) < Elems(Pre(t)) - Elems(list)
    ensures Descend(links, n, list, y, t) == Walk(links, m, list, d, t)
  {
    assert d in Pre(t) by { KidsInTree(links, t, y); }
    DownShrinks(t, list, d);
    GoDown(links, n, list, y, t, m, d);
  }

  lemma GoDown(links: Links, n: Table, list: seq<Id>, y: Id, t: Tree, m: Table, d: Id)
    requires WalkReq(links, n, list, y, t) && y in list && y in links && y in n
    requires n[y := n[y].(right := n[y].left + SpanSize(Sub(t, y)) - 1)] == m
    requires (if IsLeaf(links, n, y) then None else FirstUnvisited(links[y].children, list)) == Some(d)
    requires d in Pre(t)
    ensures Descend(links, n, list, y, t) == Walk(links, m, list, d, t)
  {
  }

  lemma DownShrinks(t: Tree, list: seq<Id>, d: Id)
    requires d in Pre(t) && d !in list
    ensures Unvisited(t, list, d) < Elems(Pre(t)) - Elems(list)
  {
  }

  /** The right is set and, with nothing to go down to, the walk leaves `y`. */
  lemma DescendStay(links: Links, n: Table, list: seq<Id>, y: Id, t: Tree, m: Table)
    requires WalkReq(links, n, list, y, t) && y in list && y in links && y in n
    requires n[y := n[y].(right := n[y].left + SpanSize(Sub(t, y)) - 1)] == m
    requires IsLeaf(links, n, y) || FirstUnvisited(links[y].children, list).None?
    ensures Descend(links, n, list, y, t) == Leave(links, m, list, y, t)
  {
    assert (if IsLeaf(links, n, y) then None else FirstUnvisited(links[y].children, list)).None?;
  }

  /** Leaving `y` once its right is set, when every child is on the list. */
  lemma DescendNone(links: Links, n: Table, list: seq<Id>, y: Id, t: Tree)
    requires WalkReq(links, n, list, y, t) && y in list
    requires y in links && forall c :: c in links[y].children ==> c in list
    ensures Descend(links, n, list, y, t)
         == Leave(links, n[y := n[y].(right := n[y].left + SpanSize(Sub(t, y)) - 1)], list, y, t)
  {
    assert FirstUnvisited(links[y].children, list).None?;
    DescendStay(links, n, list, y, t, n[y := n[y].(right := n[y].left + SpanSize(Sub(t, y)) - 1)]);
  }

  /** Going down to the first child of `y` when it is not on the list. */
  lemma DescendFirst(links: Links, n: Table, list: seq<Id>, y: Id, t: Tree)
    requires WalkReq(links, n, list, y, t) && y in list
    requires y in links && |links[y].children| > 0 && links[y].children[0] !in list
    ensures WalkReq(links, n, list, links[y].children[0], t)
    ensures Descend(links, n, list, y, t)
         == Walk(links, n[y := n[y].(right := n[y].left + SpanSize(Sub(t, y)) - 1)], list, links[y].children[0], t)
  {
    var d := links[y].children[0];
    assert FirstUnvisited(links[y].children, list) == Some(d);
    DescendDown(links, n, list, y, t, n[y := n[y].(right := n[y].left + SpanSize(Sub(t, y)) - 1)], d);
  }

  /** Leaving a node that has a parent: on to its next sibling if there is one, else back up to the parent. */
  lemma LeaveStep(links: Links, n: Table, list: seq<Id>, y: Id, t: Tree)
    requires WalkReq(links, n, list, y, t) && y in list
    requires y in links && links[y].parent.Some?
    ensures HasParentIn(links, y)
    ensures NextSibling(links, y).Some? ==>
      WalkReq(links, n, list, NextSibling(links, y).value, t)
      && Leave(links, n, list, y, t) == Walk(links, n, list, NextSibling(links, y).value, t)
    ensures NextSibling(links, y).None? ==>
      WalkReq(links, n, list, links[y].parent.value, t)
      && Leave(links, n, list, y, t) == Walk(links, n, list, links[y].parent.value, t)
  {
    EnvParent(links, t, y);
    if NextSibling(links, y).Some? {
      SiblingHop(links, t, y);
    }
  }

  /** Revisiting a node whose children are all on the list and whose right is already consistent only leaves it. */
  lemma Revisit(links: Links, n: Table, list: seq<Id>, y: Id, t: Tree)
    requires WalkReq(links, n, list, y, t) && y in list
    requires y in links && forall c :: c in links[y].children ==> c in list
    requires n[y].right == n[y].left + SpanSize(Sub(t, y)) - 1
    ensures Walk(links, n, list, y, t) == Leave(links, n, list, y, t)
  {
    WalkUnfold(links, n, list, y, t);
    DescendNone(links, n, list, y, t);
    assert n[y := n[y].(right := n[y].left + SpanSize(Sub(t, y)) - 1)] == n;
  }

  /**
   * Walking into a subtree none of whose nodes is on the list numbers all of
   * it, appends its pre-order listing to the list, and comes back to leave
   * its top node.
   */
  lemma {:induction false} Macro(links: Links, n: Table, list: seq<Id>, x: Id, t: Tree)
    requires WalkReq(links, n, list, x, t)
    requires Fresh(list, Sub(t, x))
    requires LeftOk(links, n, t, x)
    ensures Walk(links, n, list, x, t)
         == Leave(links, Apply(n, Number(t, 0), Elems(Pre(Sub(t, x)))), list + Pre(Sub(t, x)), x, t)
    decreases Sub(t, x), 2, 0, 0
  {
    var T := Number(t, 0);
    var s := Sub(t, x);
    var n1 := n[x := n[x].(left := T[x].left)];
    WalkUnfold(links, n, list, x, t);
    assert x !in list by { assert x in Pre(s); }
    if s.kids == [] {
      var l1 := list + [x];
      var n2 := n1[x := n1[x].(right := n1[x].left + SpanSize(s) - 1)];
      assert x in links && links[x].children == [] by { Env(links, t, x); }
      DescendNone(links, n1, l1, x, t);
      assert n2 == Apply(n, T, Elems(Pre(s))) by {
        Laws(links, t, x);
        ApplyOne(n, T, x, SpanSize(s));
        assert Elems(Pre(s)) == {x};
      }
      assert Pre(s) == [x];
      assert l1 == list + Pre(s);
    } else {
      MacroDown(links, n, list, x, t);
    }
  }

  /** The table after the visit of `x` sets its left and then its right from the numbering. */
  lemma ApplyOne(n: Table, N: Spans, x: Id, size: int)
    requires x in n && x in N && N[x].right == N[x].left + size - 1
    ensures var n1 := n[x := n[x].(left := N[x].left)];
      n1[x := n1[x].(right := n1[x].left + size - 1)] == Apply(n, N, {x})
  {
  }

  /** Numbering the nodes of `S` and then `x`, left first and right next, numbers `S` and `x` at once. */
  lemma ApplyVisit(n0: Table, N: Spans, l: seq<Id>, x: Id, size: int)
    requires x in n0 && x in N && N[x].right == N[x].left + size - 1
    ensures var n := Apply(n0, N, Elems(l)); var n1 := n[x := n[x].(left := N[x].left)];
      n1[x := n1[x].(right := n1[x].left + size - 1)] == Apply(n0, N, Elems(l + [x]))
  {
    assert Elems(l + [x]) == Elems(l) + {x} by { ElemsConcat(l, [x]); }
  }

  /** Once `x` is numbered, the first child of `x` gets the left of the numbering. */
  lemma FirstLeftOk(links: Links, n: Table, x: Id, t: Tree)
    requires Rooted(links, t) && x in Pre(t) && |Sub(t, x).kids| > 0
    requires forall z :: z in Pre(t) ==> z in n
    requires Agrees(n, Number(t, 0), x)
    ensures LeftOk(links, n, t, Sub(t, x).kids[0].id)
  {
    KidFacts(links, t, x, 0);
    Laws(links, t, x);
    Env(links, t, x);
  }

  /** Kid `i` of `x` is child `i` in the links, and points back at `x`. */
  lemma ChildIndex(links: Links, t: Tree, x: Id, i: nat)
    requires Rooted(links, t) && x in Pre(t) && i < |Sub(t, x).kids|
    ensures var c := Sub(t, x).kids[i].id;
      && x in links && i < |links[x].children| && links[x].children[i] == c
      && c in links && links[c].parent == Some(x) && IndexOf(links[x].children, c) == i
  {
    Env(links, t, x);
    IndexOfDistinct(links[x].children, i);
    SubKid(t, x, i);
    Env(links, t, Sub(t, x).kids[i].id);
  }

  /** Inside a whole tree whose nodes are all in the table, `rebuild` can read what it needs at any node. */
  lemma ReadyAt(links: Links, n: Table, t: Tree, c: Id)
    requires Rooted(links, t) && c in Pre(t)
    requires forall z :: z in Pre(t) ==> z in n
    ensures ParentReady(links, n, c)
  {
    Env(links, t, c);
    if links[c].parent.Some? {
      EnvParent(links, t, c);
    }
  }

  /** Once kid `i` of `x` is numbered, kid `i + 1` gets the left of the numbering. */
  lemma NextLeftOk(links: Links, n: Table, x: Id, i: nat, t: Tree)
    requires Rooted(links, t) && x in Pre(t) && i + 1 < |Sub(t, x).kids|
    requires forall z :: z in Pre(t) ==> z in n
    requires Agrees(n, Number(t, 0), Sub(t, x).kids[i].id)
    ensures LeftOk(links, n, t, Sub(t, x).kids[i + 1].id)
  {
    var c := Sub(t, x).kids[i].id;
    var c1 := Sub(t, x).kids[i + 1].id;
    ChildIndex(links, t, x, i);
    ChildIndex(links, t, x, i + 1);
    SubKid(t, x, i + 1);
    ReadyAt(links, n, t, c1);
    assert NewLeft(links, n, c1) == n[c].right + 1;
    Laws(links, t, x);
  }

  /** The first step of `MacroDown`: set the right of `x` and go down to its first child. */
  lemma DownFirst(links: Links, n: Table, list: seq<Id>, x: Id, t: Tree)
    requires WalkReq(links, n, list, x, t)
    requires Fresh(list, Sub(t, x)) && |Sub(t, x).kids| > 0
    requires x in Number(t, 0)
    ensures var ks := Sub(t, x).kids; var n1 := n[x := n[x].(left := Number(t, 0)[x].left)];
      && WalkReq(links, Apply(n, Number(t, 0), {x}), list + [x], ks[0].id, t)
      && (forall k :: 0 <= k < |ks| ==> Fresh(list + [x], ks[k]))
      && LeftOk(links, Apply(n, Number(t, 0), {x}), t, ks[0].id)
      && Descend(links, n1, list + [x], x, t) == Walk(links, Apply(n, Number(t, 0), {x}), list + [x], ks[0].id, t)
  {
    var T := Number(t, 0);
    var s := Sub(t, x);
    var ks := s.kids;
    var n1 := n[x := n[x].(left := T[x].left)];
    var l1 := list + [x];
    var n2 := n1[x := n1[x].(right := n1[x].left + SpanSize(s) - 1)];
    var c0 := ks[0].id;
    Laws(links, t, x);
    ApplyOne(n, T, x, SpanSize(s));
    KidFacts(links, t, x, 0);
    assert c0 in Pre(ks[0]);
    DescendFirst(links, n1, l1, x, t);
    forall k | 0 <= k < |ks| ensures Fresh(l1, ks[k]) {
      KidFacts(links, t, x, k);
    }
    FirstLeftOk(links, n2, x, t);
  }

  /** The table and list once `x` and its children are numbered. */
  lemma DownSum(n: Table, list: seq<Id>, x: Id, t: Tree)
    requires x in Pre(t)
    ensures var s := Sub(t, x);
      && Apply(Apply(n, Number(t, 0), {x}), Number(t, 0), Elems(PreAll(s.kids))) == Apply(n, Number(t, 0), Elems(Pre(s)))
      && list + [x] + PreAll(s.kids) == list + Pre(s)
  {
    var s := Sub(t, x);
    assert Pre(s) == [x] + PreAll(s.kids);
    ApplyChain(n, Number(t, 0), {x}, Elems(PreAll(s.kids)));
    ElemsConcat([x], PreAll(s.kids));
    Assoc(list, [x], PreAll(s.kids));
  }

  /** The last step of `MacroDown`: the final revisit of `x`. */
  lemma DownLast(links: Links, n: Table, list: seq<Id>, x: Id, t: Tree)
    requires WalkReq(links, n, list, x, t)
    ensures var s := Sub(t, x);
      var n3 := Apply(n, Number(t, 0), Elems(Pre(s)));
      var l3 := list + Pre(s);
      Walk(links, n3, l3, x, t) == Leave(links, n3, l3, x, t)
  {
    var s := Sub(t, x);
    var n3 := Apply(n, Number(t, 0), Elems(Pre(s)));
    var l3 := list + Pre(s);
    assert forall c :: c in links[x].children ==> c in l3 by {
      Env(links, t, x);
      RootsInPreAll(s.kids);
    }
    assert n3[x].right == n3[x].left + SpanSize(s) - 1 by {
      Laws(links, t, x);
    }
    Revisit(links, n3, l3, x, t);
  }

  /** The part of `Macro` after the visit of `x`, when `x` has children. */
  lemma {:induction false} MacroDown(links: Links, n: Table, list: seq<Id>, x: Id, t: Tree)
    requires WalkReq(links, n, list, x, t)
    requires Fresh(list, Sub(t, x)) && |Sub(t, x).kids| > 0
    requires x in Number(t, 0)
    ensures var n1 := n[x := n[x].(left := Number(t, 0)[x].left)];
      Descend(links, n1, list + [x], x, t)
      == Leave(links, Apply(n, Number(t, 0), Elems(Pre(Sub(t, x)))), list + Pre(Sub(t, x)), x, t)
    decreases Sub(t, x), 1, 0, 0
  {
    var T := Number(t, 0);
    var ks := Sub(t, x).kids;
    DownFirst(links, n, list, x, t);
    MacroKids(links, Apply(n, T, {x}), list + [x], x, 0, |ks|, t);
    assert ks[0..|ks|] == ks;
    DownSum(n, list, x, t);
    DownLast(links, n, list, x, t);
  }

  /** Passing through kid `i` of `x` when it is done already. */
  lemma PassDone(links: Links, n: Table, list: seq<Id>, x: Id, i: nat, t: Tree)
    requires Rooted(links, t) && x in Pre(t)
    requires i < |Sub(t, x).kids|
    requires WalkReq(links, n, list, Sub(t, x).kids[i].id, t)
    requires Done(n, list, Number(t, 0), Sub(t, x).kids[i])
    ensures var ks := Sub(t, x).kids;
      && (i + 1 < |ks| ==>
            WalkReq(links, n, list, ks[i + 1].id, t)
            && Walk(links, n, list, ks[i].id, t) == Walk(links, n, list, ks[i + 1].id, t))
      && (i + 1 == |ks| ==> Walk(links, n, list, ks[i].id, t) == Walk(links, n, list, x, t))
  {
    var T := Number(t, 0);
    var k := Sub(t, x).kids[i];
    var c := k.id;
    KidFacts(links, t, x, i);
    assert c in Pre(k);
    RootsInPreAll(k.kids);
    Env(links, t, c);
    Laws(links, t, c);
    Revisit(links, n, list, c, t);
    LeaveStep(links, n, list, c, t);
  }

  /** Leaving kid `i` of `x` after numbering it: the table agrees on the kid, and the walk goes on to the next kid or to `x`. */
  lemma LeaveKid(links: Links, n: Table, list: seq<Id>, x: Id, i: nat, t: Tree)
    requires Rooted(links, t) && x in Pre(t)
    requires i < |Sub(t, x).kids| && Sub(t, x).kids[i].id in Pre(t)
    requires forall z :: z in Pre(t) ==> z in n
    requires var k := Sub(t, x).kids[i]; forall z :: z in Pre(k) ==> z in list
    ensures var ks := Sub(t, x).kids;
      var n1 := Apply(n, Number(t, 0), Elems(Pre(ks[i])));
      && Agrees(n1, Number(t, 0), ks[i].id)
      && (i + 1 < |ks| ==>
            WalkReq(links, n1, list, ks[i + 1].id, t)
            && Leave(links, n1, list, ks[i].id, t) == Walk(links, n1, list, ks[i + 1].id, t))
      && (i + 1 == |ks| ==> Leave(links, n1, list, ks[i].id, t) == Walk(links, n1, list, x, t))
  {
    var T := Number(t, 0);
    var k := Sub(t, x).kids[i];
    var c := k.id;
    KidFacts(links, t, x, i);
    Laws(links, t, c);
    assert c in Pre(k);
    var n1 := Apply(n, T, Elems(Pre(k)));
    LeaveStep(links, n1, list, c, t);
  }

  /** Freshness and doneness carried past kid `i` once it is numbered. */
  lemma PastKid(links: Links, n: Table, list: seq<Id>, x: Id, i: nat, e: nat, t: Tree)
    requires Rooted(links, t) && x in Pre(t)
    requires i < e <= |Sub(t, x).kids|
    requires forall k :: i <= k < e ==> Fresh(list, Sub(t, x).kids[k])
    requires forall k :: e <= k < |Sub(t, x).kids| ==> Done(n, list, Number(t, 0), Sub(t, x).kids[k])
    ensures var ks := Sub(t, x).kids;
      var n1 := Apply(n, Number(t, 0), Elems(Pre(ks[i])));
      var l1 := list + Pre(ks[i]);
      && (forall k :: i + 1 <= k < e ==> Fresh(l1, ks[k]))
      && (forall k :: e <= k < |ks| ==> Done(n1, l1, Number(t, 0), ks[k]))
      && Apply(n1, Number(t, 0), Elems(PreAll(ks[i + 1..e]))) == Apply(n, Number(t, 0), Elems(PreAll(ks[i..e])))
      && l1 + PreAll(ks[i + 1..e]) == list + PreAll(ks[i..e])
  {
    var T := Number(t, 0);
    var ks := Sub(t, x).kids;
    var k := ks[i];
    forall j | i + 1 <= j < e ensures Fresh(list + Pre(k), ks[j]) {
      KidFacts(links, t, x, i);
    }
    PreAllSplit(ks, i, e);
    ApplyChain(n, T, Elems(Pre(k)), Elems(PreAll(ks[i + 1..e])));
    ElemsConcat(Pre(k), PreAll(ks[i + 1..e]));
  }

  /**
   * Walking into kid `i` of `x`, where kids `i` up to `e` are fresh and the
   * kids from `e` on are done, numbers kids `i` up to `e` and returns to `x`.
   */
  lemma {:induction false} MacroKids(links: Links, n: Table, list: seq<Id>, x: Id, i: nat, e: nat, t: Tree)
    requires Rooted(links, t) && x in Pre(t)
    requires i <= e <= |Sub(t, x).kids| && i < |Sub(t, x).kids|
    requires WalkReq(links, n, list, Sub(t, x).kids[i].id, t)
    requires forall k :: i <= k < e ==> Fresh(list, Sub(t, x).kids[k])
    requires forall k :: e <= k < |Sub(t, x).kids| ==> Done(n, list, Number(t, 0), Sub(t, x).kids[k])
    requires i < e ==> LeftOk(links, n, t, Sub(t, x).kids[i].id)
    ensures var ks := Sub(t, x).kids;
      Walk(links, n, list, ks[i].id, t)
      == Walk(links, Apply(n, Number(t, 0), Elems(PreAll(ks[i..e]))), list + PreAll(ks[i..e]), x, t)
    decreases Sub(t, x), 0, |Sub(t, x).kids| - i, 1
  {
    if i == e {
      MacroKidsDone(links, n, list, x, i, e, t);
    } else {
      MacroKidsFresh(links, n, list, x, i, e, t);
    }
  }

  /** `MacroKids` when kid `i` is done: pass through it. */
  lemma {:induction false} MacroKidsDone(links: Links, n: Table, list: seq<Id>, x: Id, i: nat, e: nat, t: Tree)
    requires Rooted(links, t) && x in Pre(t)
    requires i == e < |Sub(t, x).kids|
    requires WalkReq(links, n, list, Sub(t, x).kids[i].id, t)
    requires forall k :: e <= k < |Sub(t, x).kids| ==> Done(n, list, Number(t, 0), Sub(t, x).kids[k])
    ensures var ks := Sub(t, x).kids;
      Walk(links, n, list, ks[i].id, t)
      == Walk(links, Apply(n, Number(t, 0), Elems(PreAll(ks[i..e]))), list + PreAll(ks[i..e]), x, t)
    decreases Sub(t, x), 0, |Sub(t, x).kids| - i, 0
  {
    var T := Number(t, 0);
    var ks := Sub(t, x).kids;
    assert ks[i..e] == [] && ks[i + 1..e + 1] == [];
    assert Elems(PreAll([])) == {};
    assert list + PreAll([]) == list;
    ApplyNone(n, T);
    PassDone(links, n, list, x, i, t);
    if i + 1 < |ks| {
      MacroKids(links, n, list, x, i + 1, e + 1, t);
    }
  }

  /** `MacroKids` when kid `i` is fresh: number it, then go on. */
  lemma {:induction false} MacroKidsFresh(links: Links, n: Table, list: seq<Id>, x: Id, i: nat, e: nat, t: Tree)
    requires Rooted(links, t) && x in Pre(t)
    requires i < e <= |Sub(t, x).kids|
    requires WalkReq(links, n, list, Sub(t, x).kids[i].id, t)
    requires forall k :: i <= k < e ==> Fresh(list, Sub(t, x).kids[k])
    requires forall k :: e <= k < |Sub(t, x).kids| ==> Done(n, list, Number(t, 0), Sub(t, x).kids[k])
    requires LeftOk(links, n, t, Sub(t, x).kids[i].id)
    ensures var ks := Sub(t, x).kids;
      Walk(links, n, list, ks[i].id, t)
      == Walk(links, Apply(n, Number(t, 0), Elems(PreAll(ks[i..e]))), list + PreAll(ks[i..e]), x, t)
    decreases Sub(t, x), 0, |Sub(t, x).kids| - i, 0
  {
    var T := Number(t, 0);
    var ks := Sub(t, x).kids;
    var k := ks[i];
    var n1 := Apply(n, T, Elems(Pre(k)));
    var l1 := list + Pre(k);
    assert Sub(t, k.id) == k by {
      KidFacts(links, t, x, i);
    }
    Macro(links, n, list, k.id, t);
    LeaveKid(links, n, l1, x, i, t);
    PastKid(links, n, list, x, i, e, t);
    if i + 1 < |ks| {
      if i + 1 < e {
        NextLeftOk(links, n1, x, i, t);
      }
      MacroKids(links, n1, l1, x, i + 1, e, t);
    } else {
      assert ks[i + 1..e] == [];
      assert Elems(PreAll([])) == {};
      assert l1 + PreAll([]) == l1;
      ApplyNone(n1, T);
    }
  }

  // ---------------------------------------------------------------------------
  // What the walk leaves alone

  /** `m` has the ids of `n`, their titles and depths, and differs from `n` only on nodes of `t`. */
  ghost predicate Keeps(n: Table, m: Table, t: Tree)
  {
    && m.Keys == n.Keys
    && SameLabels(n, m)
    && forall z :: z in n && z !in Pre(t) ==> m[z] == n[z]
  }

  lemma KeepsTrans(a: Table, b: Table, c: Table, t: Tree)
    requires Keeps(a, b, t) && Keeps(b, c, t)
    ensures Keeps(a, c, t)
  {
  }

  /** Moving a bound of one node of `t` keeps the rest. */
  lemma KeepsBounds(n: Table, y: Id, l: int, r: int, t: Tree)
    requires y in n && y in Pre(t)
    ensures Keeps(n, n[y := n[y].(left := l, right := r)], t)
  {
  }

  /**
   * The walk changes only lefts and rights, only of nodes of `t`, and every
   * node it puts on the list is already on it or a node of `t`.
   */
  lemma {:induction false} WalkKeeps(links: Links, n: Table, list: seq<Id>, cur: Id, t: Tree)
    requires WalkReq(links, n, list, cur, t)
    ensures Keeps(n, Walk(links, n, list, cur, t).0, t)
    ensures forall z :: z in Walk(links, n, list, cur, t).1 ==> z in list || z in Pre(t)
    decreases Unvisited(t, list, cur), Level(t, cur), Following(links, cur), 3
  {
    WalkEnv(links, n, list, cur, t);
    WalkStepKeeps(links, n, list, cur, t);
  }

  lemma {:induction false} WalkStepKeeps(links: Links, n: Table, list: seq<Id>, cur: Id, t: Tree)
    requires WalkReq(links, n, list, cur, t) && ParentReady(links, n, cur)
    ensures Keeps(n, WalkStep(links, n, list, cur, t).0, t)
    ensures forall z :: z in WalkStep(links, n, list, cur, t).1 ==> z in list || z in Pre(t)
    decreases Unvisited(t, list, cur), Level(t, cur), Following(links, cur), 2
  {
    var n1 := if cur !in list then n[cur := n[cur].(left := NewLeft(links, n, cur))] else n;
    var l1 := if cur !in list then list + [cur] else list;
    assert Unvisited(t, list, cur) == Elems(Pre(t)) - Elems(l1);
    assert Keeps(n, n1, t) by {
      if cur !in list { KeepsBounds(n, cur, NewLeft(links, n, cur), n[cur].right, t); }
    }
    DescendKeeps(links, n1, l1, cur, t);
    KeepsTrans(n, n1, WalkStep(links, n, list, cur, t).0, t);
  }

  lemma {:induction false} DescendKeeps(links: Links, n: Table, list: seq<Id>, cur: Id, t: Tree)
    requires WalkReq(links, n, list, cur, t) && cur in list
    ensures Keeps(n, Descend(links, n, list, cur, t).0, t)
    ensures forall z :: z in Descend(links, n, list, cur, t).1 ==> z in list || z in Pre(t)
    decreases Elems(Pre(t)) - Elems(list), Level(t, cur), Following(links, cur), 1
  {
    var n2 := n[cur := n[cur].(right := n[cur].left + SpanSize(Sub(t, cur)) - 1)];
    assert Keeps(n, n2, t) by { KeepsBounds(n, cur, n[cur].left, n[cur].left + SpanSize(Sub(t, cur)) - 1, t); }
    assert cur in links by { KidsInTree(links, t, cur); }
    if !IsLeaf(links, n, cur) && FirstUnvisited(links[cur].children, list).Some? {
      var d := FirstUnvisited(links[cur].children, list).value;
      DescendDown(links, n, list, cur, t, n2, d);
      WalkKeeps(links, n2, list, d, t);
    } else {
      DescendStay(links, n, list, cur, t, n2);
      LeaveKeeps(links, n2, list, cur, t);
    }
    KeepsTrans(n, n2, Descend(links, n, list, cur, t).0, t);
  }

  lemma {:induction false} LeaveKeeps(links: Links, n: Table, list: seq<Id>, y: Id, t: Tree)
    requires WalkReq(links, n, list, y, t) && y in list
    ensures Keeps(n, Leave(links, n, list, y, t).0, t)
    ensures forall z :: z in Leave(links, n, list, y, t).1 ==> z in list || z in Pre(t)
    decreases Elems(Pre(t)) - Elems(list), Level(t, y), Following(links, y), 0
  {
    KidsInTree(links, t, y);
    if links[y].parent.Some? {
      LeaveStep(links, n, list, y, t);
      EnvParent(links, t, y);
      match NextSibling(links, y)
      case Some(s) =>
        SiblingHop(links, t, y);
        WalkKeeps(links, n, list, s, t);
      case None =>
        WalkKeeps(links, n, list, links[y].parent.value, t);
    }
  }

  // ---------------------------------------------------------------------------
  // The list does not depend on the table

  /**
   * The list the walk returns does not depend on the table: the table only
   * feeds lefts and rights, and `isLeaf` cuts short only nodes without
   * children, where no child is left to go down to anyway.
   */
  lemma {:induction false} WalkList(links: Links, n: Table, m: Table, list: seq<Id>, cur: Id, t: Tree)
    requires WalkReq(links, n, list, cur, t) && WalkReq(links, m, list, cur, t)
    ensures Walk(links, n, list, cur, t).1 == Walk(links, m, list, cur, t).1
    decreases Unvisited(t, list, cur), Level(t, cur), Following(links, cur), 3
  {
    WalkEnv(links, n, list, cur, t);
    WalkEnv(links, m, list, cur, t);
    StepList(links, n, m, list, cur, t);
  }

  lemma {:induction false} StepList(links: Links, n: Table, m: Table, list: seq<Id>, cur: Id, t: Tree)
    requires WalkReq(links, n, list, cur, t) && ParentReady(links, n, cur)
    requires WalkReq(links, m, list, cur, t) && ParentReady(links, m, cur)
    ensures WalkStep(links, n, list, cur, t).1 == WalkStep(links, m, list, cur, t).1
    decreases Unvisited(t, list, cur), Level(t, cur), Following(links, cur), 2
  {
    var n1 := if cur !in list then n[cur := n[cur].(left := NewLeft(links, n, cur))] else n;
    var m1 := if cur !in list then m[cur := m[cur].(left := NewLeft(links, m, cur))] else m;
    var l1 := if cur !in list then list + [cur] else list;
    assert Unvisited(t, list, cur) == Elems(Pre(t)) - Elems(l1);
    DescendList(links, n1, m1, l1, cur, t);
  }

  lemma {:induction false} DescendList(links: Links, n: Table, m: Table, list: seq<Id>, cur: Id, t: Tree)
    requires WalkReq(links, n, list, cur, t) && WalkReq(links, m, list, cur, t) && cur in list
    ensures Descend(links, n, list, cur, t).1 == Descend(links, m, list, cur, t).1
    decreases Elems(Pre(t)) - Elems(list), Level(t, cur), Following(links, cur), 1
  {
    var n2, m2 := SetRight(links, n, list, cur, t), SetRight(links, m, list, cur, t);
    var down := DownBoth(links, n, m, list, cur, t);
    if down.Some? {
      WalkList(links, n2, m2, list, down.value, t);
    } else {
      LeaveList(links, n2, m2, list, cur, t);
    }
  }

  /** The table after the walk sets the right of `cur`. */
  ghost function SetRight(links: Links, n: Table, list: seq<Id>, cur: Id, t: Tree): Table
    requires WalkReq(links, n, list, cur, t)
  {
    n[cur := n[cur].(right := n[cur].left + SpanSize(Sub(t, cur)) - 1)]
  }

  /** Under either table, `Descend` goes down to the same child, or leaves. */
  lemma DownBoth(links: Links, n: Table, m: Table, list: seq<Id>, cur: Id, t: Tree) returns (down: Option<Id>)
    requires WalkReq(links, n, list, cur, t) && WalkReq(links, m, list, cur, t) && cur in list
    ensures var n2, m2 := SetRight(links, n, list, cur, t), SetRight(links, m, list, cur, t);
      && WalkReq(links, n2, list, cur, t) && WalkReq(links, m2, list, cur, t)
      && (down.Some? ==>
            && down.value in Pre(t) && down.value !in list
            && Unvisited(t, list, down.value) < Elems(Pre(t)) - Elems(list)
            && WalkReq(links, n2, list, down.value, t) && WalkReq(links, m2, list, down.value, t)
            && Descend(links, n, list, cur, t) == Walk(links, n2, list, down.value, t)
            && Descend(links, m, list, cur, t) == Walk(links, m2, list, down.value, t))
      && (down.None? ==>
            && Descend(links, n, list, cur, t) == Leave(links, n2, list, cur, t)
            && Descend(links, m, list, cur, t) == Leave(links, m2, list, cur, t))
  {
    var n2, m2 := SetRight(links, n, list, cur, t), SetRight(links, m, list, cur, t);
    assert cur in links && cur in n && cur in m by { KidsInTree(links, t, cur); }
    down := FirstUnvisited(links[cur].children, list);
    if down.Some? {
      assert !IsLeaf(links, n, cur) && !IsLeaf(links, m, cur);
      DescendDown(links, n, list, cur, t, n2, down.value);
      DescendDown(links, m, list, cur, t, m2, down.value);
    } else {
      DescendStay(links, n, list, cur, t, n2);
      DescendStay(links, m, list, cur, t, m2);
    }
  }

  lemma {:induction false} LeaveList(links: Links, n: Table, m: Table, list: seq<Id>, y: Id, t: Tree)
    requires WalkReq(links, n, list, y, t) && WalkReq(links, m, list, y, t) && y in list
    ensures Leave(links, n, list, y, t).1 == Leave(links, m, list, y, t).1
    decreases Elems(Pre(t)) - Elems(list), Level(t, y), Following(links, y), 0
  {
    KidsInTree(links, t, y);
    if links[y].parent.Some? {
      LeaveStep(links, n, list, y, t);
      LeaveStep(links, m, list, y, t);
      EnvParent(links, t, y);
      match NextSibling(links, y)
      case Some(s) =>
        SiblingHop(links, t, y);
        WalkList(links, n, m, list, s, t);
      case None =>
        WalkList(links, n, m, list, links[y].parent.value, t);
    }
  }
}
