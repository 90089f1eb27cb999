/**
 * The relinking done by `append`, `prepend` and `removeChild`, on the links
 * and on the tree witness: which links change, what the new tree is, and
 * that the new tree is again a whole tree of the arena.  For `removeChild`
 * the detached subtree becomes a whole tree of its own.
 */
module Relink {
  import opened Shape
  import opened Numbering
  import opened Arena
  import opened WalkProof
  import opened WalkTheorems
  import opened Graft

  /** `node.parent = p` then `p.children.push(node)`. */
  function AppendLinks(links: Links, p: Id, c: Id): (r: Links)
    requires p in links && c in links
    ensures r.Keys == links.Keys
    ensures forall z :: z in links && z != p && z != c ==> r[z] == links[z]
    ensures p != c ==> r[c] == links[c].(parent := Some(p)) && r[p] == links[p].(children := links[p].children + [c])
  {
    var l1 := links[c := links[c].(parent := Some(p))];
    l1[p := l1[p].(children := l1[p].children + [c])]
  }

  /** `node.parent = p` then `p.children.unshift(node)`. */
  function PrependLinks(links: Links, p: Id, c: Id): (r: Links)
    requires p in links && c in links
    ensures r.Keys == links.Keys
    ensures forall z :: z in links && z != p && z != c ==> r[z] == links[z]
    ensures p != c ==> r[c] == links[c].(parent := Some(p)) && r[p] == links[p].(children := [c] + links[p].children)
  {
    var l1 := links[c := links[c].(parent := Some(p))];
    l1[p := l1[p].(children := [c] + l1[p].children)]
  }

  /** `p.children.splice(i, 1)` then `child.parent = null`, for the child `c` found at index `i`. */
  function RemoveLinks(links: Links, p: Id, i: nat, c: Id): (r: Links)
    requires p in links && c in links && i < |links[p].children|
    ensures r.Keys == links.Keys
    ensures forall z :: z in links && z != p && z != c ==> r[z] == links[z]
    ensures p != c ==> r[c] == links[c].(parent := None)
    ensures p != c ==> r[p] == links[p].(children := links[p].children[..i] + links[p].children[i + 1..])
  {
    var cs := links[p].children;
    var l1 := links[p := links[p].(children := cs[..i] + cs[i + 1..])];
    l1[c := l1[c].(parent := None)]
  }

  /** `node.node_depth = p.node_depth + 1`: only the hung node's own depth changes, not its descendants'. */
  function Deepen(n: Table, p: Id, c: Id): (m: Table)
    requires p in n && c in n
    ensures m.Keys == n.Keys
    ensures forall z :: z in n && z != c ==> m[z] == n[z]
    ensures m[c].depth == n[p].depth + 1
    ensures SameSpans(n, m) && m[c].title == n[c].title
  {
    n[c := n[c].(depth := n[p].depth + 1)]
  }

  ghost function AppendTree(t: Tree, p: Id, s: Tree): Tree
    requires p in Pre(t)
  {
    Replace(t, p, Sub(t, p).kids + [s])
  }

  ghost function PrependTree(t: Tree, p: Id, s: Tree): Tree
    requires p in Pre(t)
  {
    Replace(t, p, [s] + Sub(t, p).kids)
  }

  ghost function RemoveTree(t: Tree, p: Id, i: nat): Tree
    requires p in Pre(t) && i < |Sub(t, p).kids|
  {
    var ks := Sub(t, p).kids;
    Replace(t, p, ks[..i] + ks[i + 1..])
  }

  /** What `rebuild` needs to know about the links outside the subtree of `p`. */
  ghost predicate OutsideKept(links: Links, links': Links, t: Tree, p: Id)
    requires p in Pre(t)
  {
    && (forall z :: z in Pre(t) && z !in Pre(Sub(t, p)) ==> z in links && z in links' && links'[z] == links[z])
    && p in links && p in links' && links'[p].parent == links[p].parent
  }

  // ---------------------------------------------------------------------------
  // Small facts

  lemma RootsConcat(a: seq<Tree>, b: seq<Tree>)
    ensures Roots(a + b) == Roots(a) + Roots(b)
  {
    assert |Roots(a + b)| == |Roots(a) + Roots(b)|;
    forall i | 0 <= i < |a + b| ensures Roots(a + b)[i] == (Roots(a) + Roots(b))[i] {
      if i < |a| {
        assert (a + b)[i] == a[i];
      } else {
        assert (a + b)[i] == b[i - |a|];
      }
    }
  }

  lemma PreAllOne(s: Tree)
    ensures PreAll([s]) == Pre(s)
  {
    assert [s][1..] == [];
  }

  lemma InLinks(links: Links, t: Tree)
    requires Rooted(links, t)
    ensures forall z :: z in Pre(t) ==> z in links
  {
    forall z | z in Pre(t) ensures z in links {
      Env(links, t, z);
    }
  }

  /** A kid of `p` whose nodes keep their links stays shaped and keeps pointing at `p`. */
  lemma KeptKid(links: Links, links': Links, t: Tree, p: Id, i: nat)
    requires Rooted(links, t) && p in Pre(t) && i < |Sub(t, p).kids|
    requires forall z :: z in Pre(Sub(t, p).kids[i]) ==> z in links && z in links' && links'[z] == links[z]
    ensures var k := Sub(t, p).kids[i];
      k.id in links' && links'[k.id].parent == Some(p) && Shaped(links', k)
  {
    var s := Sub(t, p);
    Env(links, t, p);
    DistinctTop(s);
    var k := s.kids[i];
    assert k.id in Pre(k);
    forall z | z in PreAll(k.kids) ensures z in Pre(k) {
    }
    ShapedFrame(links, links', k);
  }

  /** A whole tree whose nodes keep their children, and whose inner nodes keep their parents, stays shaped. */
  lemma KeptTree(links: Links, links': Links, s: Tree)
    requires Shaped(links, s) && Distinct(Pre(s))
    requires forall z :: z in Pre(s) ==> z in links && z in links' && links'[z].children == links[z].children
    requires forall z :: z in Pre(s) && z != s.id ==> z in links && z in links' && links'[z].parent == links[z].parent
    ensures Shaped(links', s)
  {
    DistinctTop(s);
    ShapedFrame(links, links', s);
  }

  lemma RootsDrop(ks: seq<Tree>, i: nat)
    requires i < |ks|
    ensures Roots(ks[..i] + ks[i + 1..]) == Roots(ks)[..i] + Roots(ks)[i + 1..]
  {
    RootsConcat(ks[..i], ks[i + 1..]);
    assert Roots(ks[..i]) == Roots(ks)[..i];
    assert Roots(ks[i + 1..]) == Roots(ks)[i + 1..];
  }

  /** Each tree of `ks` is shaped and its top points back at `p`. */
  ghost predicate KidsOk(links: Links, p: Id, ks: seq<Tree>)
  {
    forall i :: 0 <= i < |ks| ==> ks[i].id in links && links[ks[i].id].parent == Some(p) && Shaped(links, ks[i])
  }

  lemma KidsSnoc(links: Links, p: Id, ks: seq<Tree>, s: Tree)
    requires KidsOk(links, p, ks) && KidsOk(links, p, [s])
    ensures KidsOk(links, p, ks + [s])
  {
  }

  lemma KidsConcat(links: Links, p: Id, a: seq<Tree>, b: seq<Tree>)
    requires KidsOk(links, p, a) && KidsOk(links, p, b)
    ensures KidsOk(links, p, a + b)
  {
    forall i | 0 <= i < |a + b| ensures (a + b)[i].id in links && links[(a + b)[i].id].parent == Some(p) && Shaped(links, (a + b)[i]) {
      if i < |a| {
        assert (a + b)[i] == a[i];
      } else {
        assert (a + b)[i] == b[i - |a|];
      }
    }
  }

  /** The new tree is whole once its kids below `p` are shaped and nothing repeats. */
  lemma GraftRooted(links: Links, links': Links, t: Tree, p: Id, ks: seq<Tree>)
    requires Rooted(links, t) && p in Pre(t) && OutsideKept(links, links', t, p)
    requires links'[p].children == Roots(ks)
    requires KidsOk(links', p, ks)
    requires Distinct(Pre(Replace(t, p, ks)))
    ensures Rooted(links', Replace(t, p, ks))
  {
    Env(links, t, p);
    ReplaceShaped(links, links', t, p, ks);
    Env(links, t, t.id);
    if t.id != p {
      TopNotBelow(t, p);
    }
  }

  // ---------------------------------------------------------------------------
  // The three relinkings

  /** The kids `lo` to `hi` of `p`, whose nodes keep their links, stay shaped and keep pointing at `p`. */
  lemma KeptKids(links: Links, links': Links, t: Tree, p: Id, lo: nat, hi: nat)
    requires Rooted(links, t) && p in Pre(t) && lo <= hi <= |Sub(t, p).kids|
    requires forall i, z :: lo <= i < hi && z in Pre(Sub(t, p).kids[i]) ==>
      z in links && z in links' && links'[z] == links[z]
    ensures KidsOk(links', p, Sub(t, p).kids[lo..hi])
  {
    var ks := Sub(t, p).kids;
    forall i | 0 <= i < hi - lo ensures ks[lo..hi][i].id in links' && links'[ks[lo..hi][i].id].parent == Some(p) && Shaped(links', ks[lo..hi][i]) {
      assert ks[lo..hi][i] == ks[lo + i];
      KeptKid(links, links', t, p, lo + i);
    }
  }

  /** The nodes of the kids of `p`, and those outside the subtree of `p`, are the nodes of `t` other than `p`. */
  lemma Around(links: Links, t: Tree, p: Id)
    requires Rooted(links, t) && p in Pre(t)
    ensures forall i, z :: 0 <= i < |Sub(t, p).kids| && z in Pre(Sub(t, p).kids[i]) ==> z in Pre(t) && z != p && z in links
    ensures forall z :: z in Pre(t) && z !in Pre(Sub(t, p)) ==> z != p && z in links
  {
    InLinks(links, t);
    SubPre(t, p);
    Env(links, t, p);
    DistinctTop(Sub(t, p));
    forall i, z | 0 <= i < |Sub(t, p).kids| && z in Pre(Sub(t, p).kids[i]) ensures z in Pre(Sub(t, p)) {
      InPreAll(Sub(t, p).kids, i);
    }
  }

  /** `append` leaves the links outside the subtree of `p`, and the parent of `p`, as they were. */
  lemma AppendOutside(links: Links, t: Tree, p: Id, s: Tree)
    requires Rooted(links, t) && p in Pre(t) && Disjoint(Pre(t), Pre(s))
    requires p in links && s.id in links
    ensures var links' := AppendLinks(links, p, s.id);
      && OutsideKept(links, links', t, p)
      && forall i, z :: 0 <= i < |Sub(t, p).kids| && z in Pre(Sub(t, p).kids[i]) ==>
           z in links && z in links' && links'[z] == links[z]
  {
    assert s.id in Pre(s);
    Around(links, t, p);
  }

  /** The tree `s` hung below `p`: its top now points at `p`, and nothing else in it changed. */
  lemma NewKid(links: Links, links': Links, t: Tree, p: Id, s: Tree)
    requires Rooted(links, s) && p in Pre(t) && Disjoint(Pre(t), Pre(s))
    requires s.id in links' && links'[s.id] == links[s.id].(parent := Some(p))
    requires forall z :: z in links && z != p && z != s.id ==> z in links' && links'[z] == links[z]
    ensures KidsOk(links', p, [s])
  {
    assert s.id in Pre(s) && p !in Pre(s);
    InLinks(links, s);
    KeptTree(links, links', s);
  }

  /** `append`: the kids of `p` after the push are shaped and point back at `p`. */
  lemma AppendKids(links: Links, t: Tree, p: Id, s: Tree)
    requires Rooted(links, t) && p in Pre(t) && Rooted(links, s) && Disjoint(Pre(t), Pre(s))
    requires p in links && s.id in links
    ensures var links' := AppendLinks(links, p, s.id); var ks := Sub(t, p).kids + [s];
      && OutsideKept(links, links', t, p)
      && links'[p].children == Roots(ks)
      && KidsOk(links', p, ks)
  {
    var L := AppendLinks(links, p, s.id);
    var olds := Sub(t, p).kids;
    var ks := olds + [s];
    assert L[p].children == Roots(ks) by {
      Env(links, t, p);
      RootsConcat(olds, [s]);
    }
    AppendOutside(links, t, p, s);
    KeptKids(links, L, t, p, 0, |olds|);
    assert olds[0..|olds|] == olds;
    NewKid(links, L, t, p, s);
    KidsSnoc(L, p, olds, s);
  }

  /** `append`: the pre-order listing gains the appended tree right after the old subtree of `p`. */
  lemma AppendPre(t: Tree, p: Id, s: Tree)
    requires Distinct(Pre(t)) && p in Pre(t) && Distinct(Pre(s)) && Disjoint(Pre(t), Pre(s))
    ensures Distinct(Pre(AppendTree(t, p, s)))
    ensures Elems(Pre(AppendTree(t, p, s))) == Elems(Pre(t)) + Elems(Pre(s))
  {
    var olds := Sub(t, p).kids;
    var A, B := ReplaceSplit(t, p, olds + [s]);
    PreAllAppend(olds, [s]);
    PreAllOne(s);
    AddAfter(A, PreAll(olds), Pre(s), B);
  }

  /** `append`: the new tree is a whole tree of the arena, holding the nodes of both trees. */
  lemma AppendShape(links: Links, t: Tree, p: Id, s: Tree)
    requires Rooted(links, t) && p in Pre(t) && Rooted(links, s) && Disjoint(Pre(t), Pre(s))
    ensures p in links && s.id in links
    ensures var links' := AppendLinks(links, p, s.id); var r := AppendTree(t, p, s);
      && Rooted(links', r) && OutsideKept(links, links', t, p)
      && Elems(Pre(r)) == Elems(Pre(t)) + Elems(Pre(s))
  {
    Env(links, t, p);
    Env(links, s, s.id);
    AppendKids(links, t, p, s);
    AppendPre(t, p, s);
    GraftRooted(links, AppendLinks(links, p, s.id), t, p, Sub(t, p).kids + [s]);
  }

  /** `prepend` leaves the links outside the subtree of `p`, and the parent of `p`, as they were. */
  lemma PrependOutside(links: Links, t: Tree, p: Id, s: Tree)
    requires Rooted(links, t) && p in Pre(t) && Disjoint(Pre(t), Pre(s))
    requires p in links && s.id in links
    ensures var links' := PrependLinks(links, p, s.id);
      && OutsideKept(links, links', t, p)
      && forall i, z :: 0 <= i < |Sub(t, p).kids| && z in Pre(Sub(t, p).kids[i]) ==>
           z in links && z in links' && links'[z] == links[z]
  {
    assert s.id in Pre(s);
    Around(links, t, p);
  }

  /** `prepend`: the kids of `p` after the unshift are shaped and point back at `p`. */
  lemma PrependKids(links: Links, t: Tree, p: Id, s: Tree)
    requires Rooted(links, t) && p in Pre(t) && Rooted(links, s) && Disjoint(Pre(t), Pre(s))
    requires p in links && s.id in links
    ensures var links' := PrependLinks(links, p, s.id); var ks := [s] + Sub(t, p).kids;
      && OutsideKept(links, links', t, p)
      && links'[p].children == Roots(ks)
      && KidsOk(links', p, ks)
  {
    var L := PrependLinks(links, p, s.id);
    var olds := Sub(t, p).kids;
    var ks := [s] + olds;
    assert L[p].children == Roots(ks) by {
      Env(links, t, p);
      RootsConcat([s], olds);
    }
    PrependOutside(links, t, p, s);
    KeptKids(links, L, t, p, 0, |olds|);
    assert olds[0..|olds|] == olds;
    NewKid(links, L, t, p, s);
    KidsConcat(L, p, [s], olds);
  }

  /** `prepend`: the pre-order listing gains the prepended tree right after `p`. */
  lemma PrependPre(t: Tree, p: Id, s: Tree)
    requires Distinct(Pre(t)) && p in Pre(t) && Distinct(Pre(s)) && Disjoint(Pre(t), Pre(s))
    ensures Distinct(Pre(PrependTree(t, p, s)))
    ensures Elems(Pre(PrependTree(t, p, s))) == Elems(Pre(t)) + Elems(Pre(s))
  {
    var olds := Sub(t, p).kids;
    var A, B := ReplaceSplit(t, p, [s] + olds);
    PreAllAppend([s], olds);
    PreAllOne(s);
    AddBefore(A, PreAll(olds), Pre(s), B);
  }

  /** `prepend`: the new tree is a whole tree of the arena, holding the nodes of both trees. */
  lemma PrependShape(links: Links, t: Tree, p: Id, s: Tree)
    requires Rooted(links, t) && p in Pre(t) && Rooted(links, s) && Disjoint(Pre(t), Pre(s))
    ensures p in links && s.id in links
    ensures var links' := PrependLinks(links, p, s.id); var r := PrependTree(t, p, s);
      && Rooted(links', r) && OutsideKept(links, links', t, p)
      && Elems(Pre(r)) == Elems(Pre(t)) + Elems(Pre(s))
  {
    Env(links, t, p);
    Env(links, s, s.id);
    PrependKids(links, t, p, s);
    PrependPre(t, p, s);
    GraftRooted(links, PrependLinks(links, p, s.id), t, p, [s] + Sub(t, p).kids);
  }

  /** `removeChild`: every link but those of `p` and of the removed child stays. */
  lemma RemoveOutside(links: Links, t: Tree, p: Id, i: nat)
    requires Rooted(links, t) && p in Pre(t) && i < |Sub(t, p).kids|
    ensures p in links && i < |links[p].children| && links[p].children[i] in links
    ensures var c := links[p].children[i]; var links' := RemoveLinks(links, p, i, c); var ks := Sub(t, p).kids;
      && c == ks[i].id
      && OutsideKept(links, links', t, p)
      && (forall j, z :: 0 <= j < |ks| && j != i && z in Pre(ks[j]) ==> z in links && z in links' && links'[z] == links[z])
      && (forall z :: z in Pre(ks[i]) && z != c ==> z in links && z in links' && links'[z] == links[z])
      && links'[c] == links[c].(parent := None)
  {
    var ks := Sub(t, p).kids;
    Env(links, t, p);
    Around(links, t, p);
    DistinctTop(Sub(t, p));
    var c := ks[i].id;
    assert c in Pre(ks[i]);
    InPreAll(ks, i);
    assert c in Pre(Sub(t, p)) && c != p;
  }

  /** `removeChild`: the remaining kids of `p` are shaped and point back at `p`. */
  lemma RemoveKids(links: Links, t: Tree, p: Id, i: nat)
    requires Rooted(links, t) && p in Pre(t) && i < |Sub(t, p).kids|
    ensures p in links && i < |links[p].children| && links[p].children[i] in links
    ensures var c := links[p].children[i]; var links' := RemoveLinks(links, p, i, c);
      var olds := Sub(t, p).kids; var ks := olds[..i] + olds[i + 1..];
      && links'[p].children == Roots(ks)
      && KidsOk(links', p, ks)
  {
    RemoveOutside(links, t, p, i);
    var c := links[p].children[i];
    var L := RemoveLinks(links, p, i, c);
    var olds := Sub(t, p).kids;
    assert L[p].children == Roots(olds[..i] + olds[i + 1..]) by {
      Env(links, t, p);
      RootsDrop(olds, i);
    }
    KeptKids(links, L, t, p, 0, i);
    KeptKids(links, L, t, p, i + 1, |olds|);
    Slices(olds, i);
    Slices(olds, i + 1);
    KidsConcat(L, p, olds[..i], olds[i + 1..]);
  }

  /** `removeChild`: the pre-order listing loses exactly the removed subtree. */
  lemma RemovePre(t: Tree, p: Id, i: nat)
    requires Distinct(Pre(t)) && p in Pre(t) && i < |Sub(t, p).kids|
    ensures Distinct(Pre(RemoveTree(t, p, i)))
    ensures Elems(Pre(RemoveTree(t, p, i))) == Elems(Pre(t)) - Elems(Pre(Sub(t, p).kids[i]))
  {
    var olds := Sub(t, p).kids;
    var A, B := ReplaceSplit(t, p, olds[..i] + olds[i + 1..]);
    PreAllAround(olds, i);
    PreAllAppend(olds[..i], olds[i + 1..]);
    DropBlock(A, PreAll(olds[..i]), Pre(olds[i]), PreAll(olds[i + 1..]), B);
  }

  /**
   * `removeChild`: what is left is a whole tree of the arena, and so is the
   * detached subtree of the removed child.
   */
  lemma RemoveShape(links: Links, t: Tree, p: Id, i: nat)
    requires Rooted(links, t) && p in Pre(t) && i < |Sub(t, p).kids|
    ensures p in links && i < |links[p].children| && links[p].children[i] in links
    ensures var c := links[p].children[i]; var links' := RemoveLinks(links, p, i, c);
      var r := RemoveTree(t, p, i); var k := Sub(t, p).kids[i];
      && c == k.id
      && Rooted(links', r) && OutsideKept(links, links', t, p)
      && Rooted(links', k)
      && Elems(Pre(r)) == Elems(Pre(t)) - Elems(Pre(k))
  {
    RemoveOutside(links, t, p, i);
    RemoveKids(links, t, p, i);
    RemovePre(t, p, i);
    var olds := Sub(t, p).kids;
    var c := links[p].children[i];
    var L := RemoveLinks(links, p, i, c);
    GraftRooted(links, L, t, p, olds[..i] + olds[i + 1..]);
    RemoveDetached(links, t, p, i);
  }

  /** `removeChild`: the detached subtree of the removed child is a whole tree of the arena. */
  lemma RemoveDetached(links: Links, t: Tree, p: Id, i: nat)
    requires Rooted(links, t) && p in Pre(t) && i < |Sub(t, p).kids|
    ensures p in links && i < |links[p].children| && links[p].children[i] in links
    ensures Rooted(RemoveLinks(links, p, i, links[p].children[i]), Sub(t, p).kids[i])
  {
    RemoveOutside(links, t, p, i);
    var olds := Sub(t, p).kids;
    var c := links[p].children[i];
    var L := RemoveLinks(links, p, i, c);
    KidShaped(links, t, p, i);
    KeptTree(links, L, olds[i]);
  }

  /** A kid of a node of a whole tree is shaped and free of repeats. */
  lemma KidShaped(links: Links, t: Tree, p: Id, i: nat)
    requires Rooted(links, t) && p in Pre(t) && i < |Sub(t, p).kids|
    ensures Shaped(links, Sub(t, p).kids[i]) && Distinct(Pre(Sub(t, p).kids[i]))
  {
    Env(links, t, p);
    DistinctTop(Sub(t, p));
  }
}
