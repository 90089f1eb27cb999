/**
 * What `append`, `prepend` and `removeChild` do to the whole arena: the
 * relinked arena stays closed, the affected tree stays whole, and the
 * rebuild that follows each of them, started at the node that changed,
 * numbers the new tree exactly as a fresh pre-order walk would, provided the
 * old tree was numbered.
 */
module Mutations {
  import opened Shape
  import opened Numbering
  import opened Arena
  import opened WalkProof
  import opened WalkTheorems
  import opened Graft
  import opened Relink

  /** Relinking that keeps the ids and only points at ids of the arena keeps it closed. */
  lemma ClosedRelink(links: Links, n: Table, links': Links, n': Table)
    requires Closed(links, n) && links'.Keys == links.Keys && n'.Keys == n.Keys
    requires forall x :: x in links' && links'[x].parent.Some? ==> links'[x].parent.value in links
    requires forall x, c :: x in links' && c in links'[x].children ==> c in links
    ensures Closed(links', n')
  {
  }

  lemma ClosedAppend(links: Links, n: Table, p: Id, c: Id)
    requires Closed(links, n) && p in links && c in links && p != c
    ensures Closed(AppendLinks(links, p, c), Deepen(n, p, c))
  {
    ClosedRelink(links, n, AppendLinks(links, p, c), Deepen(n, p, c));
  }

  lemma ClosedPrepend(links: Links, n: Table, p: Id, c: Id)
    requires Closed(links, n) && p in links && c in links && p != c
    ensures Closed(PrependLinks(links, p, c), Deepen(n, p, c))
  {
    ClosedRelink(links, n, PrependLinks(links, p, c), Deepen(n, p, c));
  }

  lemma ClosedRemove(links: Links, n: Table, p: Id, i: nat, c: Id)
    requires Closed(links, n) && p in links && c in links && i < |links[p].children| && p != c
    ensures Closed(RemoveLinks(links, p, i, c), n)
  {
    var cs := links[p].children;
    assert forall x :: x in cs[..i] + cs[i + 1..] ==> x in cs;
    ClosedRelink(links, n, RemoveLinks(links, p, i, c), n);
  }

  /**
   * A fresh parentless, childless node leaves every whole tree whole and is
   * a whole tree of its own, sharing no node with the others.
   */
  lemma FreshBeside(links: Links, t: Tree, x: Id)
    requires Rooted(links, t) && x !in links
    ensures var links' := links[x := Link(None, [])];
      && Rooted(links', t) && Rooted(links', Tree(x, [])) && Disjoint(Pre(t), Pre(Tree(x, [])))
  {
    var links' := links[x := Link(None, [])];
    InLinks(links, t);
    assert forall z :: z in PreAll(t.kids) ==> z in Pre(t);
    ShapedFrame(links, links', t);
    assert t.id in Pre(t);
    assert Pre(Tree(x, [])) == [x];
  }

  /** `append(s)` below `p`, followed by the rebuild from `p`. */
  lemma AppendWalk(links: Links, n: Table, t: Tree, p: Id, s: Tree)
    requires Closed(links, n) && Rooted(links, t) && p in Pre(t)
    requires Rooted(links, s) && Disjoint(Pre(t), Pre(s))
    ensures p in links && s.id in links && p in n && s.id in n && p != s.id
    ensures var links' := AppendLinks(links, p, s.id); var n' := Deepen(n, p, s.id); var r := AppendTree(t, p, s);
      && Closed(links', n') && Rooted(links', r) && WalkReq(links', n', [], p, r)
      && (forall z :: z in Pre(r) <==> z in Pre(t) || z in Pre(s))
      && (Numbered(n, t) ==> Numbered(Walk(links', n', [], p, r).0, r))
      && Keeps(n', Walk(links', n', [], p, r).0, r)
  {
    AppendShape(links, t, p, s);
    assert s.id in Pre(s) && p !in Pre(s);
    var links', n', r := AppendLinks(links, p, s.id), Deepen(n, p, s.id), AppendTree(t, p, s);
    ClosedAppend(links, n, p, s.id);
    InLinks(links', r);
    var _, _ := ReplaceSplit(t, p, Sub(t, p).kids + [s]);
    forall z ensures z in Pre(r) <==> z in Pre(t) || z in Pre(s) {
      assert z in Pre(r) <==> z in Elems(Pre(r));
    }
    if Numbered(n, t) {
      Renumbered(links, links', n, n', t, p, Sub(t, p).kids + [s]);
    }
    WalkKeeps(links', n', [], p, r);
  }

  /** `prepend(s)` below `p`, followed by the rebuild from `p`. */
  lemma PrependWalk(links: Links, n: Table, t: Tree, p: Id, s: Tree)
    requires Closed(links, n) && Rooted(links, t) && p in Pre(t)
    requires Rooted(links, s) && Disjoint(Pre(t), Pre(s))
    ensures p in links && s.id in links && p in n && s.id in n && p != s.id
    ensures var links' := PrependLinks(links, p, s.id); var n' := Deepen(n, p, s.id); var r := PrependTree(t, p, s);
      && Closed(links', n') && Rooted(links', r) && WalkReq(links', n', [], p, r)
      && (forall z :: z in Pre(r) <==> z in Pre(t) || z in Pre(s))
      && (Numbered(n, t) ==> Numbered(Walk(links', n', [], p, r).0, r))
      && Keeps(n', Walk(links', n', [], p, r).0, r)
  {
    PrependShape(links, t, p, s);
    assert s.id in Pre(s) && p !in Pre(s);
    var links', n', r := PrependLinks(links, p, s.id), Deepen(n, p, s.id), PrependTree(t, p, s);
    ClosedPrepend(links, n, p, s.id);
    InLinks(links', r);
    var _, _ := ReplaceSplit(t, p, [s] + Sub(t, p).kids);
    forall z ensures z in Pre(r) <==> z in Pre(t) || z in Pre(s) {
      assert z in Pre(r) <==> z in Elems(Pre(r));
    }
    if Numbered(n, t) {
      Renumbered(links, links', n, n', t, p, [s] + Sub(t, p).kids);
    }
    WalkKeeps(links', n', [], p, r);
  }

  /**
   * The arena `(links', n')` is what `append(s)` on `p` leaves of the arena
   * `(links, n)`: `s` becomes the last child of `p`, one level below it, the
   * grown tree is whole, the table is the rebuild's from `p`, which keeps
   * titles and depths, renumbers a numbered tree, and leaves every node
   * outside both trees alone.
   */
  ghost predicate Appended(links: Links, n: Table, t: Tree, p: Id, s: Tree, links': Links, n': Table)
  {
    && p in Pre(t) && p in links && s.id in links && p in n && s.id in n
    && var r := AppendTree(t, p, s); var n1 := Deepen(n, p, s.id);
    && links' == AppendLinks(links, p, s.id)
    && Rooted(links', r) && (forall z :: z in Pre(r) <==> z in Pre(t) || z in Pre(s))
    && WalkReq(links', n1, [], p, r) && n' == Walk(links', n1, [], p, r).0
    && n'.Keys == n.Keys && SameLabels(n1, n')
    && (Numbered(n, t) ==> Numbered(n', r))
    && forall z :: z in n && z !in Pre(t) && z !in Pre(s) ==> n'[z] == n[z]
  }

  /** As `Appended`, for `prepend(s)`: `s` becomes the first child of `p`. */
  ghost predicate Prepended(links: Links, n: Table, t: Tree, p: Id, s: Tree, links': Links, n': Table)
  {
    && p in Pre(t) && p in links && s.id in links && p in n && s.id in n
    && var r := PrependTree(t, p, s); var n1 := Deepen(n, p, s.id);
    && links' == PrependLinks(links, p, s.id)
    && Rooted(links', r) && (forall z :: z in Pre(r) <==> z in Pre(t) || z in Pre(s))
    && WalkReq(links', n1, [], p, r) && n' == Walk(links', n1, [], p, r).0
    && n'.Keys == n.Keys && SameLabels(n1, n')
    && (Numbered(n, t) ==> Numbered(n', r))
    && forall z :: z in n && z !in Pre(t) && z !in Pre(s) ==> n'[z] == n[z]
  }

  /** What the rebuild after `append(s)` on `p` needs before it starts. */
  lemma AppendReady(links: Links, n: Table, t: Tree, p: Id, s: Tree)
    requires Closed(links, n) && Rooted(links, t) && p in Pre(t)
    requires Rooted(links, s) && Disjoint(Pre(t), Pre(s))
    ensures p in links && s.id in links && p in n && s.id in n
    ensures WalkReq(AppendLinks(links, p, s.id), Deepen(n, p, s.id), [], p, AppendTree(t, p, s))
  {
    AppendWalk(links, n, t, p, s);
  }

  /** What the rebuild after `prepend(s)` on `p` needs before it starts. */
  lemma PrependReady(links: Links, n: Table, t: Tree, p: Id, s: Tree)
    requires Closed(links, n) && Rooted(links, t) && p in Pre(t)
    requires Rooted(links, s) && Disjoint(Pre(t), Pre(s))
    ensures p in links && s.id in links && p in n && s.id in n
    ensures WalkReq(PrependLinks(links, p, s.id), Deepen(n, p, s.id), [], p, PrependTree(t, p, s))
  {
    PrependWalk(links, n, t, p, s);
  }

  lemma AppendDone(links: Links, n: Table, t: Tree, p: Id, s: Tree, links': Links, n': Table)
    requires Closed(links, n) && Rooted(links, t) && p in Pre(t)
    requires Rooted(links, s) && Disjoint(Pre(t), Pre(s)) && p in links && s.id in links && p in n && s.id in n
    requires links' == AppendLinks(links, p, s.id)
    requires WalkReq(links', Deepen(n, p, s.id), [], p, AppendTree(t, p, s))
    requires n' == Walk(links', Deepen(n, p, s.id), [], p, AppendTree(t, p, s)).0
    ensures Appended(links, n, t, p, s, links', n') && Closed(links', n')
  {
    AppendWalk(links, n, t, p, s);
    assert s.id in Pre(s);
  }

  lemma PrependDone(links: Links, n: Table, t: Tree, p: Id, s: Tree, links': Links, n': Table)
    requires Closed(links, n) && Rooted(links, t) && p in Pre(t)
    requires Rooted(links, s) && Disjoint(Pre(t), Pre(s)) && p in links && s.id in links && p in n && s.id in n
    requires links' == PrependLinks(links, p, s.id)
    requires WalkReq(links', Deepen(n, p, s.id), [], p, PrependTree(t, p, s))
    requires n' == Walk(links', Deepen(n, p, s.id), [], p, PrependTree(t, p, s)).0
    ensures Prepended(links, n, t, p, s, links', n') && Closed(links', n')
  {
    PrependWalk(links, n, t, p, s);
    assert s.id in Pre(s);
  }

  /** The child `c` of `p` sits at the position `indexOf` finds, among the kids of `p`'s subtree. */
  lemma KidIndex(links: Links, t: Tree, p: Id, c: Id)
    requires Rooted(links, t) && p in Pre(t) && p in links && c in links[p].children
    ensures var i := IndexOf(links[p].children, c); i < |Sub(t, p).kids| && Sub(t, p).kids[i].id == c
  {
    Env(links, t, p);
  }

  /** `removeChild` of the `i`-th child of `p`, followed by the rebuild from `p`. */
  lemma RemoveWalk(links: Links, n: Table, t: Tree, p: Id, i: nat)
    requires Closed(links, n) && Rooted(links, t) && p in Pre(t) && i < |Sub(t, p).kids|
    ensures p in links && i < |links[p].children| && links[p].children[i] in links
    ensures var c := links[p].children[i]; var links' := RemoveLinks(links, p, i, c);
      var r := RemoveTree(t, p, i); var k := Sub(t, p).kids[i];
      && c == k.id
      && Closed(links', n) && Rooted(links', r) && Rooted(links', k) && WalkReq(links', n, [], p, r)
      && (forall z :: z in Pre(k) ==> z in n && z !in Pre(r))
      && (forall z :: z in Pre(r) <==> z in Pre(t) && z !in Pre(k))
      && (Numbered(n, t) ==> Numbered(Walk(links', n, [], p, r).0, r))
  {
    RemoveShape(links, t, p, i);
    var olds := Sub(t, p).kids;
    var c := links[p].children[i];
    var links', r := RemoveLinks(links, p, i, c), RemoveTree(t, p, i);
    assert c in Pre(olds[i]) && p !in Pre(olds[i]) by { Env(links, t, p); DistinctTop(Sub(t, p)); }
    ClosedRemove(links, n, p, i, c);
    InLinks(links', r);
    var _, _ := ReplaceSplit(t, p, olds[..i] + olds[i + 1..]);
    InLinks(links', olds[i]);
    forall z ensures z in Pre(r) <==> z in Pre(t) && z !in Pre(olds[i]) {
      assert z in Pre(r) <==> z in Elems(Pre(r));
      assert z in Pre(t) <==> z in Elems(Pre(t));
      assert z in Pre(olds[i]) <==> z in Elems(Pre(olds[i]));
    }
    if Numbered(n, t) {
      Renumbered(links, links', n, n, t, p, olds[..i] + olds[i + 1..]);
    }
  }

  /** What the rebuild after `removeChild` of the `i`-th child of `p` needs before it starts. */
  lemma RemoveReady(links: Links, n: Table, t: Tree, p: Id, i: nat)
    requires Closed(links, n) && Rooted(links, t) && p in Pre(t) && i < |Sub(t, p).kids|
    ensures p in links && i < |links[p].children| && links[p].children[i] in links
    ensures WalkReq(RemoveLinks(links, p, i, links[p].children[i]), n, [], p, RemoveTree(t, p, i))
  {
    RemoveWalk(links, n, t, p, i);
  }

  /**
   * The arena `(links', n')` is what `removeChild(c)` on `p` leaves of the
   * arena `(links, n)`: `c` is spliced out of `p`'s children and loses its
   * parent, both the rest of the tree and the detached subtree are whole
   * trees, the table is the rebuild's from `p`, which keeps titles and
   * depths, renumbers a numbered tree, and leaves the detached subtree alone.
   */
  ghost predicate Removed(links: Links, n: Table, t: Tree, p: Id, c: Id, links': Links, n': Table)
  {
    && p in Pre(t) && p in links && c in links && c in links[p].children
    && var i := IndexOf(links[p].children, c);
    && i < |Sub(t, p).kids| && Sub(t, p).kids[i].id == c
    && var r := RemoveTree(t, p, i); var k := Sub(t, p).kids[i];
    && links' == RemoveLinks(links, p, i, c)
    && Rooted(links', r) && Rooted(links', k)
    && (forall z :: z in Pre(r) <==> z in Pre(t) && z !in Pre(k))
    && WalkReq(links', n, [], p, r) && n' == Walk(links', n, [], p, r).0
    && n'.Keys == n.Keys && SameLabels(n, n')
    && (Numbered(n, t) ==> Numbered(n', r))
    && forall z :: z in Pre(k) ==> z in n && z in n' && n'[z] == n[z]
  }

  lemma RemoveDone(links: Links, n: Table, t: Tree, p: Id, c: Id, i: nat, links': Links, n': Table)
    requires Closed(links, n) && Rooted(links, t) && p in Pre(t) && p in links && c in links[p].children
    requires i == IndexOf(links[p].children, c) && i < |Sub(t, p).kids| && Sub(t, p).kids[i].id == c
    requires links' == RemoveLinks(links, p, i, c)
    requires WalkReq(links', n, [], p, RemoveTree(t, p, i)) && n' == Walk(links', n, [], p, RemoveTree(t, p, i)).0
    ensures Removed(links, n, t, p, c, links', n') && Closed(links', n')
  {
    RemoveWalk(links, n, t, p, i);
    WalkKeeps(links', n, [], p, RemoveTree(t, p, i));
  }
}
