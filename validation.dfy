/**
 * `validate()`: the check of one node against its parent, and what it says
 * about whole trees.  On a numbered tree every node passes exactly when every
 * depth is one more than its parent's, that is, when depths are levels.
 * `append` and `prepend` keep that only for a leaf: they set the depth of the
 * hung node and not of its descendants.  `removeChild` keeps it for the tree
 * that stays, while the detached child keeps its depth and loses its parent,
 * so it fails the check.
 */
module Validation {
  import opened Shape
  import opened Numbering
  import opened Arena
  import opened WalkProof
  import opened Graft
  import opened Relink
  import opened Mutations

  /** The errors `validate()` throws, in the order it checks for them. */
  datatype ValidationError =
    | ParentRequired        // the depth is not zero, but there is no parent
    | LeftNotAfterParent    // the left is not greater than the parent's left
    | RightNotBeforeParent  // the right is not less than the parent's right
    | DepthNotBelowParent   // the depth is not one more than the parent's

  /** What `validate()` reads: the node, and its parent if it has one. */
  predicate Checkable(links: Links, n: Table, x: Id)
  {
    x in links && x in n && (links[x].parent.Some? ==> links[x].parent.value in n)
  }

  /** The depth of `x` is 0 at a root and one more than its parent's otherwise. */
  ghost predicate DepthOk(links: Links, n: Table, x: Id)
  {
    && Checkable(links, n, x)
    && match links[x].parent
       case None => n[x].depth == 0
       case Some(q) => n[x].depth == n[q].depth + 1
  }

  /** The span of `x` lies strictly inside its parent's, if it has one. */
  ghost predicate InsideParent(links: Links, n: Table, x: Id)
    requires Checkable(links, n, x)
  {
    links[x].parent.Some? ==>
      var q := n[links[x].parent.value];
      q.left < n[x].left && n[x].right < q.right
  }

  /**
   * `validate()` on node `x`: `None` when it returns, the first error it
   * throws otherwise.  It passes exactly when the node's span lies inside its
   * parent's and its depth is right; a missing parent is reported only for a
   * non-zero depth, and every other error needs a parent.
   */
  function Validate(links: Links, n: Table, x: Id): (err: Option<ValidationError>)
    requires Checkable(links, n, x)
    ensures err.None? <==> InsideParent(links, n, x) && DepthOk(links, n, x)
    ensures err == Some(ParentRequired) <==> links[x].parent.None? && n[x].depth != 0
    ensures err.Some? && err != Some(ParentRequired) ==> links[x].parent.Some?
    ensures links[x].parent.Some? ==>
      var up, me := n[links[x].parent.value], n[x];
      && (err == Some(LeftNotAfterParent) <==> up.left >= me.left)
      && (err == Some(RightNotBeforeParent) <==> up.left < me.left && up.right <= me.right)
      && (err == Some(DepthNotBelowParent) <==> up.left < me.left && up.right > me.right && up.depth + 1 != me.depth)
  {
    var me := n[x];
    match links[x].parent
    case None => if me.depth != 0 then Some(ParentRequired) else None
    case Some(q) =>
      var up := n[q];
      if up.left >= me.left then Some(LeftNotAfterParent)
      else if up.right <= me.right then Some(RightNotBeforeParent)
      else if up.depth + 1 != me.depth then Some(DepthNotBelowParent)
      else None
  }

  /** `x` is readable by `validate()` and passes it. */
  predicate Passes(links: Links, n: Table, x: Id)
  {
    Checkable(links, n, x) && Validate(links, n, x).None?
  }

  /** Every node of `t` has the right depth. */
  ghost predicate DepthsOk(links: Links, n: Table, t: Tree)
  {
    forall z :: z in Pre(t) ==> DepthOk(links, n, z)
  }

  /** Every node of `t` is at its level as its depth. */
  ghost predicate DepthsAreLevels(n: Table, t: Tree)
  {
    forall z :: z in Pre(t) ==> z in n && n[z].depth == Level(t, z)
  }

  // ---------------------------------------------------------------------------
  // Depths

  /** In a whole tree, a node's depth is its level. */
  lemma {:induction false} DepthIsLevel(links: Links, n: Table, t: Tree, z: Id)
    requires Rooted(links, t) && DepthsOk(links, n, t) && z in Pre(t)
    ensures z in n && n[z].depth == Level(t, z)
    decreases Level(t, z)
  {
    Env(links, t, z);
    if links[z].parent.Some? {
      DepthIsLevel(links, n, t, links[z].parent.value);
    }
  }

  /** In a whole tree, the depths are right exactly when every depth is its node's level. */
  lemma DepthsOkIffLevels(links: Links, n: Table, t: Tree)
    requires Rooted(links, t)
    ensures DepthsOk(links, n, t) <==> DepthsAreLevels(n, t)
  {
    if DepthsOk(links, n, t) {
      forall z | z in Pre(t) ensures z in n && n[z].depth == Level(t, z) {
        DepthIsLevel(links, n, t, z);
      }
    }
    if DepthsAreLevels(n, t) {
      forall z | z in Pre(t) ensures DepthOk(links, n, z) {
        Env(links, t, z);
      }
    }
  }

  // ---------------------------------------------------------------------------
  // Whole trees

  /**
   * On a numbered whole tree, a node passes `validate()` exactly when its
   * depth is right: the span checks never fail there.
   */
  lemma NumberedPasses(links: Links, n: Table, t: Tree, x: Id)
    requires Rooted(links, t) && Numbered(n, t) && x in Pre(t)
    ensures Checkable(links, n, x)
    ensures Passes(links, n, x) <==> DepthOk(links, n, x)
  {
    Env(links, t, x);
    if links[x].parent.Some? {
      var q := links[x].parent.value;
      Laws(links, t, q);
      var cs := links[q].children;
      var i :| 0 <= i < |cs| && cs[i] == x;
      assert Agrees(n, Number(t, 0), q) && Agrees(n, Number(t, 0), x);
    }
  }

  /** On a numbered whole tree, every node passes `validate()` exactly when every depth is right. */
  lemma NumberedAllPass(links: Links, n: Table, t: Tree)
    requires Rooted(links, t) && Numbered(n, t)
    ensures (forall z :: z in Pre(t) ==> Passes(links, n, z)) <==> DepthsOk(links, n, t)
  {
    forall z | z in Pre(t) ensures Passes(links, n, z) <==> DepthOk(links, n, z) {
      NumberedPasses(links, n, t, z);
    }
  }

  /** A node made by the constructor with its defaults is a whole tree that is numbered and passes. */
  lemma FreshRoot(links: Links, n: Table, x: Id, title: string)
    requires x in links && links[x] == Link(None, [])
    requires x in n && n[x] == Props(title, 0, 1, 0)
    ensures Rooted(links, Tree(x, [])) && Numbered(n, Tree(x, [])) && DepthsOk(links, n, Tree(x, []))
    ensures Passes(links, n, x)
  {
    var t := Tree(x, []);
    assert Pre(t) == [x];
    assert SpanSize(t) == 2;
    assert Number(t, 0) == NumberAll([], 1)[x := Span(0, 1)];
  }

  // ---------------------------------------------------------------------------
  // Depths after a mutation

  /**
   * Depths after `s` is hung below `p` in `t`: the parent of every other node
   * is kept, `s` points at `p`, and only the depth of `s` changes, to one
   * more than `p`'s.  The depths stay right exactly when `s` has no kids.
   */
  lemma HungDepths(links: Links, n: Table, t: Tree, p: Id, s: Tree, links': Links, n': Table, r: Tree)
    requires Rooted(links, t) && p in Pre(t) && Rooted(links, s) && Disjoint(Pre(t), Pre(s))
    requires DepthsOk(links, n, t) && DepthsOk(links, n, s)
    requires links'.Keys == links.Keys && n'.Keys == n.Keys
    requires forall z :: z in links && z != s.id ==> links'[z].parent == links[z].parent
    requires s.id in links' && links'[s.id].parent == Some(p)
    requires forall z :: z in n && z != s.id ==> n'[z].depth == n[z].depth
    requires p in n && s.id in n && n'[s.id].depth == n[p].depth + 1
    requires forall z :: z in Pre(r) <==> z in Pre(t) || z in Pre(s)
    ensures DepthsOk(links', n', r) <==> s.kids == []
  {
    assert s.id in Pre(s);
    DepthIsLevel(links, n, t, p);
    if s.kids == [] {
      assert Pre(s) == [s.id];
      forall z | z in Pre(r) ensures DepthOk(links', n', z) {
        if z != s.id {
          Env(links, t, z);
        }
      }
    } else {
      var k := s.kids[0].id;
      assert k in Pre(s) && k != s.id by { InPreAll(s.kids, 0); DistinctTop(s); }
      assert links[k].parent == Some(s.id);
      assert !DepthOk(links', n', k);
    }
  }

  /** After `append(s)` on `p`, the depths stay right exactly when `s` is a single node. */
  lemma AppendDepths(links: Links, n: Table, t: Tree, p: Id, s: Tree, links': Links, n': Table)
    requires Rooted(links, t) && Rooted(links, s) && Disjoint(Pre(t), Pre(s))
    requires Appended(links, n, t, p, s, links', n')
    requires DepthsOk(links, n, t) && DepthsOk(links, n, s)
    ensures DepthsOk(links', n', AppendTree(t, p, s)) <==> s.kids == []
  {
    assert p != s.id by { assert s.id in Pre(s); }
    HungDepths(links, n, t, p, s, links', n', AppendTree(t, p, s));
  }

  /** After `prepend(s)` on `p`, the depths stay right exactly when `s` is a single node. */
  lemma PrependDepths(links: Links, n: Table, t: Tree, p: Id, s: Tree, links': Links, n': Table)
    requires Rooted(links, t) && Rooted(links, s) && Disjoint(Pre(t), Pre(s))
    requires Prepended(links, n, t, p, s, links', n')
    requires DepthsOk(links, n, t) && DepthsOk(links, n, s)
    ensures DepthsOk(links', n', PrependTree(t, p, s)) <==> s.kids == []
  {
    assert p != s.id by { assert s.id in Pre(s); }
    HungDepths(links, n, t, p, s, links', n', PrependTree(t, p, s));
  }

  /**
   * After `removeChild(c)` on `p`, the tree that stays keeps right depths,
   * and the detached child, now parentless with its old depth, fails
   * `validate()` for want of a parent.
   */
  lemma RemoveDepths(links: Links, n: Table, t: Tree, p: Id, c: Id, links': Links, n': Table)
    requires Rooted(links, t) && Removed(links, n, t, p, c, links', n') && DepthsOk(links, n, t)
    ensures DepthsOk(links', n', RemoveTree(t, p, IndexOf(links[p].children, c)))
    ensures Checkable(links', n', c) && Validate(links', n', c) == Some(ParentRequired)
  {
    var i := IndexOf(links[p].children, c);
    var k := Sub(t, p).kids[i];
    assert c in Pre(k);
    Env(links, t, p);
    assert c != p && c in Pre(t);
    forall z | z in Pre(RemoveTree(t, p, i)) ensures DepthOk(links', n', z) {
      Env(links, t, z);
    }
    DepthIsLevel(links, n, t, p);
    assert DepthOk(links, n, c);
  }
}
