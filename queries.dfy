/**
 * The read-only queries of a node (`isRoot`, `isLeaf`, `prevSibling`,
 * `nextSibling`, `countNextSiblings`) read against the tree they sit in:
 * a node's siblings are its neighbours among its parent's kids, the count of
 * next siblings is how many kids follow it, and the two sibling queries are
 * inverse to each other.
 */
module Queries {
  import opened Shape
  import opened Numbering
  import opened Arena
  import opened WalkProof
  import opened WalkTheorems
  import opened Graft
  import opened Validation

  /** In a whole tree exactly the top node is a root, and a root has no siblings. */
  lemma RootIff(links: Links, t: Tree, x: Id)
    requires Rooted(links, t) && x in Pre(t)
    ensures HasParentIn(links, x) && (IsRoot(links, x) <==> x == t.id)
    ensures x == t.id ==> PrevSibling(links, x) == None && NextSibling(links, x) == None
    ensures x == t.id ==> CountNextSiblings(links, x) == 0
  {
    Env(links, t, x);
  }

  /**
   * The `i`-th kid of `x` is no root; its previous and next siblings are the
   * kids before and after it, if any, and `|kids| - 1 - i` siblings follow it.
   */
  lemma KidQueries(links: Links, t: Tree, x: Id, i: nat)
    requires Rooted(links, t) && x in Pre(t) && i < |Sub(t, x).kids|
    ensures var ks := Sub(t, x).kids; var c := ks[i].id;
      && HasParentIn(links, c) && !IsRoot(links, c)
      && PrevSibling(links, c) == (if i > 0 then Some(ks[i - 1].id) else None)
      && NextSibling(links, c) == (if i + 1 < |ks| then Some(ks[i + 1].id) else None)
      && CountNextSiblings(links, c) == |ks| - 1 - i
  {
    KidInLinks(links, t, x, i);
    ChildrenAre(links, t, x);
    var ks := Sub(t, x).kids;
    var cs := links[x].children;
    assert PrevSibling(links, ks[i].id) == if 0 <= i - 1 < |cs| then Some(cs[i - 1]) else None;
  }

  /** Every node of a whole tree is the top or the kid of its parent at some index. */
  lemma KidOrTop(links: Links, t: Tree, x: Id) returns (q: Id, i: nat)
    requires Rooted(links, t) && x in Pre(t) && x != t.id
    ensures q in Pre(t) && i < |Sub(t, q).kids| && Sub(t, q).kids[i].id == x
  {
    q, i := ParentAbove(links, t, x);
  }

  /** A node has no next sibling exactly when no sibling follows it. */
  lemma LastIff(links: Links, t: Tree, x: Id)
    requires Rooted(links, t) && x in Pre(t)
    ensures HasParentIn(links, x)
    ensures NextSibling(links, x) == None <==> CountNextSiblings(links, x) == 0
  {
    if x != t.id {
      var q, i := KidOrTop(links, t, x);
      KidQueries(links, t, q, i);
    }
  }

  /** `y` is the next sibling of `x` exactly when `x` is the previous sibling of `y`. */
  lemma SiblingsInverse(links: Links, t: Tree, x: Id, y: Id)
    requires Rooted(links, t) && x in Pre(t) && y in Pre(t)
    ensures HasParentIn(links, x) && HasParentIn(links, y)
    ensures NextSibling(links, x) == Some(y) <==> PrevSibling(links, y) == Some(x)
  {
    Env(links, t, x);
    Env(links, t, y);
    if NextSibling(links, x) == Some(y) {
      var q, i := KidOrTop(links, t, x);
      KidQueries(links, t, q, i);
      KidQueries(links, t, q, i + 1);
    }
    if PrevSibling(links, y) == Some(x) {
      var q, i := KidOrTop(links, t, y);
      KidQueries(links, t, q, i);
      KidQueries(links, t, q, i - 1);
    }
  }

  /**
   * With right depths, `isLeaf` holds exactly for the childless nodes other
   * than the top: a childless root has depth 0 and is not a leaf.
   */
  lemma LeafIff(links: Links, n: Table, t: Tree, x: Id)
    requires Rooted(links, t) && DepthsOk(links, n, t) && x in Pre(t)
    ensures x in links && x in n
    ensures IsLeaf(links, n, x) <==> x != t.id && Sub(t, x).kids == []
  {
    Env(links, t, x);
    DepthIsLevel(links, n, t, x);
  }

  /**
   * In a numbered whole tree every span holds two numbers per node of its
   * subtree; with right depths a leaf therefore spans exactly two numbers.
   */
  lemma LeafSpan(links: Links, n: Table, t: Tree, x: Id)
    requires Rooted(links, t) && Numbered(n, t) && DepthsOk(links, n, t) && x in Pre(t)
    ensures x in links && x in n
    ensures n[x].right == n[x].left + 2 * |Pre(Sub(t, x))| - 1
    ensures IsLeaf(links, n, x) ==> n[x].right == n[x].left + 1
  {
    LeafIff(links, n, t, x);
    TreeLaws(t, x);
    assert Agrees(n, Number(t, 0), x);
    SpanIsTwiceCount(Sub(t, x));
    if IsLeaf(links, n, x) {
      assert Pre(Sub(t, x)) == [x];
    }
  }
}
