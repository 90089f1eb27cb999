/**
 * What relinking does to the tree.  `append`, `prepend` and `removeChild`
 * change the children of one node `p`; the tree that results is `t` with the
 * kids of `p` replaced (`Replace`).  The lemmas here say that the result is
 * again a whole tree of the arena, that the nodes listed before `p` in
 * pre-order keep their place, and that a table numbered for the old tree is
 * ready for `rebuild` started at `p` in the new one.
 */
module Graft {
  import opened Shape
  import opened Numbering
  import opened Arena
  import opened WalkProof
  import opened WalkTheorems

  /** `t` with the kids of node `p` replaced by `ks`. */
  function Replace(t: Tree, p: Id, ks: seq<Tree>): (r: Tree)
    ensures r.id == t.id
    ensures t.id == p ==> r.kids == ks
    ensures t.id != p ==> |r.kids| == |t.kids|
    decreases t
  {
    if t.id == p then Tree(p, ks)
    else Tree(t.id, seq(|t.kids|, i requires 0 <= i < |t.kids| => Replace(t.kids[i], p, ks)))
  }

  /** Every node of `t` carries the span the pre-order numbering of `t` gives it. */
  ghost predicate Numbered(n: Table, t: Tree)
  {
    forall z :: z in Pre(t) ==> Agrees(n, Number(t, 0), z)
  }

  /** `m` has the lefts and rights of `n` (titles and depths may differ). */
  ghost predicate SameSpans(n: Table, m: Table)
  {
    forall z :: z in n ==> z in m && m[z].left == n[z].left && m[z].right == n[z].right
  }

  // ---------------------------------------------------------------------------
  // The shape of the result

  /** Replacing below a node that is not in `t` changes nothing. */
  lemma {:induction false} ReplaceAbsent(t: Tree, p: Id, ks: seq<Tree>)
    requires p !in Pre(t)
    ensures Replace(t, p, ks) == t
    decreases t
  {
    var r := Replace(t, p, ks);
    forall i | 0 <= i < |t.kids| ensures r.kids[i] == t.kids[i] {
      InPreAll(t.kids, i);
      ReplaceAbsent(t.kids[i], p, ks);
    }
  }

  /** In a tree with no repeats, the top node is not below any other node. */
  lemma TopNotBelow(s: Tree, x: Id)
    requires Distinct(Pre(s)) && x in Pre(s) && x != s.id
    ensures s.id !in Pre(Sub(s, x))
  {
    var j := KidWith(s.kids, x);
    SubPre(s.kids[j], x);
    InPreAll(s.kids, j);
    DistinctTop(s);
  }

  /** An ancestor `a` of `p` other than `p` is not inside the subtree of `p`. */
  lemma AncestorNotBelow(t: Tree, a: Id, p: Id)
    requires Distinct(Pre(t)) && a in Pre(t) && p in Pre(Sub(t, a)) && a != p
    ensures p in Pre(t) && a !in Pre(Sub(t, p))
  {
    SubSub(t, a, p);
    SubDistinct(t, a);
    TopNotBelow(Sub(t, a), p);
  }

  /** Below a node other than `p`, only the kid holding `p` changes. */
  lemma ReplaceKids(t: Tree, p: Id, ks: seq<Tree>) returns (j: nat)
    requires Distinct(Pre(t)) && p in Pre(t) && t.id != p
    ensures j < |t.kids| && p in Pre(t.kids[j]) && Sub(t, p) == Sub(t.kids[j], p)
    ensures var rs := Replace(t, p, ks).kids;
      && rs[j] == Replace(t.kids[j], p, ks)
      && (forall i :: 0 <= i < |t.kids| && i != j ==> rs[i] == t.kids[i])
      && PreAll(t.kids) == PreAll(t.kids[..j]) + Pre(t.kids[j]) + PreAll(t.kids[j + 1..])
      && PreAll(rs) == PreAll(t.kids[..j]) + Pre(rs[j]) + PreAll(t.kids[j + 1..])
  {
    j := KidWith(t.kids, p);
    var ts := t.kids;
    var rs := Replace(t, p, ks).kids;
    DistinctTop(t);
    SubInKid(t, j, p);
    forall i | 0 <= i < |ts| && i != j ensures rs[i] == ts[i] {
      ReplaceAbsent(ts[i], p, ks);
    }
    assert rs[..j] == ts[..j];
    assert rs[j + 1..] == ts[j + 1..];
    PreAllAround(ts, j);
    PreAllAround(rs, j);
  }

  lemma Regroup(x: seq<Id>, u: seq<Id>, a: seq<Id>, m: seq<Id>, b: seq<Id>, v: seq<Id>)
    ensures x + (u + (a + m + b) + v) == (x + u + a) + m + (b + v)
  {
  }

  /**
   * The pre-order listing of the result: the nodes up to and including `p`,
   * then the subtrees of the new kids, then the nodes after the subtree of `p`.
   */
  lemma {:induction false} ReplaceSplit(t: Tree, p: Id, ks: seq<Tree>) returns (a: seq<Id>, b: seq<Id>)
    requires Distinct(Pre(t)) && p in Pre(t)
    ensures p in a
    ensures Pre(t) == a + PreAll(Sub(t, p).kids) + b
    ensures Pre(Replace(t, p, ks)) == a + PreAll(ks) + b
    decreases t
  {
    if t.id == p {
      a, b := [p], [];
      assert Pre(t) == a + PreAll(Sub(t, p).kids) + b;
      assert Pre(Replace(t, p, ks)) == a + PreAll(ks) + b;
    } else {
      var j := ReplaceKids(t, p, ks);
      var ts := t.kids;
      var r := Replace(t, p, ks);
      var m, m' := PreAll(Sub(t, p).kids), PreAll(ks);
      DistinctTop(t);
      var a', b' := ReplaceSplit(ts[j], p, ks);
      var u, v := PreAll(ts[..j]), PreAll(ts[j + 1..]);
      a := [t.id] + u + a';
      b := b' + v;
      assert Pre(t) == [t.id] + (u + (a' + m + b') + v);
      Regroup([t.id], u, a', m, b', v);
      assert Pre(r) == [t.id] + (u + (a' + m' + b') + v);
      Regroup([t.id], u, a', m', b', v);
    }
  }

  /** Links that agree with the old ones on a subtree keep it shaped. */
  lemma {:induction false} ShapedFrame(links: Links, links': Links, s: Tree)
    requires Shaped(links, s) && Distinct(Pre(s))
    requires forall z :: z in Pre(s) ==> z in links && z in links' && links'[z].children == links[z].children
    requires forall z :: z in PreAll(s.kids) ==> z in links && z in links' && links'[z].parent == links[z].parent
    ensures Shaped(links', s)
    decreases s
  {
    DistinctTop(s);
    forall i | 0 <= i < |s.kids| ensures Shaped(links', s.kids[i]) && links'[s.kids[i].id].parent == Some(s.id) {
      InPreAll(s.kids, i);
      var k := s.kids[i];
      forall z | z in PreAll(k.kids) ensures z in PreAll(s.kids) {
        assert z in Pre(k);
      }
      ShapedFrame(links, links', k);
    }
  }

  /**
   * The links after relinking agree with the result tree: outside the
   * subtree of `p` nothing changed, `p` kept its parent and has the roots of
   * `ks` as children, and each new kid is shaped and points back at `p`.
   */
  lemma {:induction false} ReplaceShaped(links: Links, links': Links, t: Tree, p: Id, ks: seq<Tree>)
    requires Shaped(links, t) && Distinct(Pre(t)) && p in Pre(t)
    requires forall z :: z in Pre(t) && z !in Pre(Sub(t, p)) ==> z in links && z in links' && links'[z] == links[z]
    requires p in links && p in links' && links'[p] == Link(links[p].parent, Roots(ks))
    requires forall i :: 0 <= i < |ks| ==>
      ks[i].id in links' && links'[ks[i].id].parent == Some(p) && Shaped(links', ks[i])
    ensures Shaped(links', Replace(t, p, ks))
    decreases t
  {
    if t.id != p {
      var j := KidWith(t.kids, p);
      var ts := t.kids;
      var rs := Replace(t, p, ks).kids;
      DistinctTop(t);
      SubInKid(t, j, p);
      TopNotBelow(t, p);
      assert Roots(rs) == Roots(ts);
      forall i | 0 <= i < |ts| ensures rs[i].id in links' && links'[rs[i].id].parent == Some(t.id) && Shaped(links', rs[i]) {
        InPreAll(ts, i);
        assert ts[i].id in Pre(ts[i]);
        if i == j {
          SubPre(ts[j], p);
          forall z | z in Pre(ts[j]) && z !in Pre(Sub(ts[j], p)) ensures z in links && z in links' && links'[z] == links[z] {
            assert z in Pre(t);
          }
          ReplaceShaped(links, links', ts[j], p, ks);
          if ts[j].id != p {
            TopNotBelow(ts[j], p);
          }
        } else {
          ReplaceAbsent(ts[i], p, ks);
          SubPre(ts[j], p);
          forall z | z in Pre(ts[i]) ensures z in links && z in links' && links'[z] == links[z] {
            assert z in Pre(t);
          }
          forall z | z in PreAll(ts[i].kids) ensures z in Pre(ts[i]) {
          }
          ShapedFrame(links, links', ts[i]);
        }
      }
    }
  }

  // ---------------------------------------------------------------------------
  // The numbering of the result

  /** Two trees with the same top and the same kids before kid `j` number a node of kid `j` alike if the kids do. */
  lemma NumberInKid(t: Tree, r: Tree, j: nat, a: Id, l: int)
    requires t.id == r.id && j < |t.kids| && j < |r.kids| && t.kids[..j] == r.kids[..j]
    requires Distinct(Pre(t)) && Distinct(Pre(r))
    requires a in Pre(t.kids[j]) && a in Pre(r.kids[j])
    requires var L := l + 1 + SpanSum(t.kids[..j]);
      && a in Number(t.kids[j], L) && a in Number(r.kids[j], L)
      && Number(r.kids[j], L)[a].left == Number(t.kids[j], L)[a].left
    ensures a in Number(t, l) && a in Number(r, l)
    ensures Number(r, l)[a].left == Number(t, l)[a].left
  {
    DistinctTop(t);
    DistinctTop(r);
    InPreAll(t.kids, j);
    NumberAllAt(t.kids, l + 1, j, a);
    NumberAllAt(r.kids, l + 1, j, a);
  }

  /** An ancestor `a` of `p` below the top of the result is in the kid that holds `p`. */
  lemma AncestorKid(t: Tree, p: Id, ks: seq<Tree>, a: Id) returns (j: nat)
    requires Distinct(Pre(t)) && p in Pre(t) && t.id != p && Distinct(Pre(Replace(t, p, ks)))
    requires a in Pre(Replace(t, p, ks)) && a != t.id && p in Pre(Sub(Replace(t, p, ks), a))
    ensures var rs := Replace(t, p, ks).kids;
      && j < |t.kids| && p in Pre(t.kids[j]) && t.kids[..j] == rs[..j] && rs[j] == Replace(t.kids[j], p, ks)
      && Distinct(Pre(t.kids[j])) && Distinct(Pre(rs[j]))
      && a in Pre(rs[j]) && p in Pre(Sub(rs[j], a))
  {
    j := ReplaceKids(t, p, ks);
    var r := Replace(t, p, ks);
    var ts, rs := t.kids, r.kids;
    DistinctTop(r);
    DistinctTop(t);
    var i := KidWith(rs, a);
    SubPre(rs[i], a);
    assert ts[..j] == rs[..j];
  }

  /** An ancestor of `p` in the result (or `p` itself) is one in the old tree. */
  lemma {:induction false} AncestorWas(t: Tree, p: Id, ks: seq<Tree>, a: Id)
    requires Distinct(Pre(t)) && p in Pre(t) && Distinct(Pre(Replace(t, p, ks)))
    requires a in Pre(Replace(t, p, ks)) && p in Pre(Sub(Replace(t, p, ks), a))
    ensures a in Pre(t) && p in Pre(Sub(t, a))
    decreases t
  {
    if a == t.id {
      assert t.id in Pre(t);
    } else if t.id == p {
      TopNotBelow(Replace(t, p, ks), a);
      assert false;
    } else {
      var j := AncestorKid(t, p, ks, a);
      AncestorWas(t.kids[j], p, ks, a);
      SubInKid(t, j, a);
    }
  }

  /**
   * The pre-order numbering gives an ancestor of `p` in the result (or `p`
   * itself) the same left in the old tree and in the result: only nodes
   * inside or after the subtree of `p` move.
   */
  lemma {:induction false} ReplaceAbove(t: Tree, p: Id, ks: seq<Tree>, a: Id, l: int)
    requires Distinct(Pre(t)) && p in Pre(t) && Distinct(Pre(Replace(t, p, ks)))
    requires a in Pre(Replace(t, p, ks)) && p in Pre(Sub(Replace(t, p, ks), a))
    ensures a in Number(t, l) && a in Number(Replace(t, p, ks), l)
    ensures Number(Replace(t, p, ks), l)[a].left == Number(t, l)[a].left
    decreases t, 1
  {
    var r := Replace(t, p, ks);
    if a == t.id {
      AncestorWas(t, p, ks, a);
    } else if t.id == p {
      TopNotBelow(r, a);
      assert false;
    } else {
      var j := AncestorKid(t, p, ks, a);
      AboveInKid(t, r, p, ks, a, l, j);
    }
  }

  /** `ReplaceAbove` one level down: `a` lies in kid `j` of both trees, and the kids before it are the same. */
  lemma {:induction false} AboveInKid(t: Tree, r: Tree, p: Id, ks: seq<Tree>, a: Id, l: int, j: nat)
    requires Distinct(Pre(t)) && Distinct(Pre(r)) && t.id == r.id
    requires j < |t.kids| && j < |r.kids| && t.kids[..j] == r.kids[..j] && r.kids[j] == Replace(t.kids[j], p, ks)
    requires p in Pre(t.kids[j]) && Distinct(Pre(t.kids[j])) && Distinct(Pre(r.kids[j]))
    requires a in Pre(r.kids[j]) && p in Pre(Sub(r.kids[j], a))
    ensures a in Number(t, l) && a in Number(r, l)
    ensures Number(r, l)[a].left == Number(t, l)[a].left
    decreases t, 0
  {
    ReplaceAbove(t.kids[j], p, ks, a, l + 1 + SpanSum(t.kids[..j]));
    AncestorWas(t.kids[j], p, ks, a);
    NumberInKid(t, r, j, a, l);
  }

  /** In a numbered table, `rebuild` would give every node of the tree the left it already has. */
  lemma NumberedLeftOk(links: Links, n: Table, t: Tree, a: Id)
    requires Rooted(links, t) && a in Pre(t) && Numbered(n, t)
    ensures LeftOk(links, n, t, a)
  {
    forall z | z in Pre(t) ensures z in n {
      assert Agrees(n, Number(t, 0), z);
    }
    ReadyAt(links, n, t, a);
    Laws(links, t, a);
    Env(links, t, a);
    if links[a].parent.Some? {
      var par := links[a].parent.value;
      EnvParent(links, t, a);
      Laws(links, t, par);
      var cs := links[par].children;
      var i := IndexOf(cs, a);
      assert Agrees(n, Number(t, 0), par);
      if i > 0 {
        assert cs[i - 1] in cs;
        assert Agrees(n, Number(t, 0), cs[i - 1]);
      }
    }
  }

  /** `NewLeft` reads only the node's own link, its parent's link, and lefts and rights. */
  lemma NewLeftLinks(links: Links, links': Links, n: Table, n': Table, a: Id)
    requires ParentReady(links, n, a) && ParentReady(links', n', a) && SameSpans(n, n')
    requires links'[a].parent == links[a].parent
    requires links[a].parent.Some? ==> links'[links[a].parent.value] == links[links[a].parent.value]
    ensures NewLeft(links', n', a) == NewLeft(links, n, a)
  {
  }

  /** One ancestor at a time: the left that `rebuild` would give `a` in the new tree. */
  lemma GraftReadyAt(links: Links, links': Links, n: Table, n': Table, t: Tree, p: Id, ks: seq<Tree>, a: Id)
    requires Rooted(links, t) && p in Pre(t) && Rooted(links', Replace(t, p, ks))
    requires Numbered(n, t) && SameSpans(n, n')
    requires forall z :: z in Pre(Replace(t, p, ks)) ==> z in n'
    requires forall z :: z in Pre(t) && z !in Pre(Sub(t, p)) ==> z in links && z in links' && links'[z] == links[z]
    requires p in links && p in links' && links'[p].parent == links[p].parent
    requires a in Pre(Replace(t, p, ks)) && p in Pre(Sub(Replace(t, p, ks), a))
    ensures LeftOk(links', n', Replace(t, p, ks), a)
  {
    var r := Replace(t, p, ks);
    AncestorWas(t, p, ks, a);
    ReplaceAbove(t, p, ks, a, 0);
    NumberedLeftOk(links, n, t, a);
    ReadyAt(links', n', r, a);
    if a != p {
      AncestorNotBelow(t, a, p);
    }
    Env(links, t, a);
    if links[a].parent.Some? {
      var x, j := ParentAbove(links, t, a);
      assert p in Pre(Sub(t, x));
      if x == p {
        AncestorNotBelow(t, a, p);
        assert false;
      }
      AncestorNotBelow(t, x, p);
      EnvParent(links, t, a);
    }
    NewLeftLinks(links, links', n, n', a);
  }

  /**
   * After relinking the children of `p`, a table numbered for the old tree
   * is ready for `rebuild` from `p`: `p` and each of its ancestors in the new
   * tree would be given the left of the new numbering.
   */
  lemma GraftReady(links: Links, links': Links, n: Table, n': Table, t: Tree, p: Id, ks: seq<Tree>)
    requires Rooted(links, t) && p in Pre(t) && Rooted(links', Replace(t, p, ks))
    requires Numbered(n, t) && SameSpans(n, n')
    requires forall z :: z in Pre(Replace(t, p, ks)) ==> z in n'
    requires forall z :: z in Pre(t) && z !in Pre(Sub(t, p)) ==> z in links && z in links' && links'[z] == links[z]
    requires p in links && p in links' && links'[p].parent == links[p].parent
    ensures PathReady(links', n', Replace(t, p, ks), p)
  {
    var r := Replace(t, p, ks);
    forall a | a in Pre(r) && p in Pre(Sub(r, a)) ensures LeftOk(links', n', r, a) {
      GraftReadyAt(links, links', n, n', t, p, ks, a);
    }
  }

  // ---------------------------------------------------------------------------
  // After the walk

  /** Overwriting every node of `t` with the numbering of `t` gives a numbered table; nothing else changes. */
  lemma ApplyNumbered(n: Table, t: Tree)
    requires Distinct(Pre(t)) && forall z :: z in Pre(t) ==> z in n
    ensures Numbered(Apply(n, Number(t, 0), Elems(Pre(t))), t)
    ensures SameLabels(n, Apply(n, Number(t, 0), Elems(Pre(t))))
    ensures forall z :: z in n && z !in Pre(t) ==> Apply(n, Number(t, 0), Elems(Pre(t)))[z] == n[z]
  {
    NumberKeys(t, 0);
  }

  /** A table that is numbered already is left as it is. */
  lemma ApplyFixed(n: Table, t: Tree)
    requires Numbered(n, t)
    ensures Apply(n, Number(t, 0), Elems(Pre(t))) == n
  {
    var m := Apply(n, Number(t, 0), Elems(Pre(t)));
    forall z | z in n ensures m[z] == n[z] {
      if z in Pre(t) {
        assert Agrees(n, Number(t, 0), z);
      }
    }
  }

  /**
   * `rebuild()` on any node of a numbered tree changes nothing: the
   * renumbering is idempotent.
   */
  lemma RebuildIdempotent(links: Links, n: Table, t: Tree, x: Id)
    requires Rooted(links, t) && x in Pre(t) && Numbered(n, t)
    ensures WalkReq(links, n, [], x, t)
    ensures Walk(links, n, [], x, t).0 == n
  {
    forall z | z in Pre(t) ensures z in n {
      assert Agrees(n, Number(t, 0), z);
    }
    forall a | a in Pre(t) && x in Pre(Sub(t, a)) ensures LeftOk(links, n, t, a) {
      NumberedLeftOk(links, n, t, a);
    }
    WalkFromInner(links, n, t, x);
    ApplyFixed(n, t);
  }

  /**
   * `rebuild()` from any node of a whole tree returns every node of the tree
   * exactly once, whatever lefts and rights the table holds: the list does
   * not depend on the table, and from a numbered table it is a permutation
   * of the pre-order listing.
   */
  lemma ListAnyTable(links: Links, n: Table, t: Tree, p: Id)
    requires Rooted(links, t) && p in Pre(t) && forall z :: z in Pre(t) ==> z in n
    ensures WalkReq(links, n, [], p, t)
    ensures multiset(Walk(links, n, [], p, t).1) == multiset(Pre(t))
  {
    var m := Apply(n, Number(t, 0), Elems(Pre(t)));
    ApplyNumbered(n, t);
    forall z | z in Pre(t) ensures z in m {
      assert Agrees(m, Number(t, 0), z);
    }
    forall a | a in Pre(t) && p in Pre(Sub(t, a)) ensures LeftOk(links, m, t, a) {
      NumberedLeftOk(links, m, t, a);
    }
    WalkFromInner(links, m, t, p);
    WalkList(links, n, m, [], p, t);
  }

  /**
   * `rebuild()` from `p` after relinking the children of `p` in a numbered
   * tree: the table ends numbered for the new tree, with titles and depths
   * untouched and nodes outside the new tree unchanged.
   */
  lemma Renumbered(links: Links, links': Links, n: Table, n': Table, t: Tree, p: Id, ks: seq<Tree>)
    requires Rooted(links, t) && p in Pre(t) && Rooted(links', Replace(t, p, ks))
    requires Numbered(n, t) && SameSpans(n, n')
    requires forall z :: z in Pre(Replace(t, p, ks)) ==> z in n'
    requires forall z :: z in Pre(t) && z !in Pre(Sub(t, p)) ==> z in links && z in links' && links'[z] == links[z]
    requires p in links && p in links' && links'[p].parent == links[p].parent
    ensures WalkReq(links', n', [], p, Replace(t, p, ks))
    ensures var r := Replace(t, p, ks); var m := Walk(links', n', [], p, r).0;
      && m == Apply(n', Number(r, 0), Elems(Pre(r)))
      && Numbered(m, r) && SameLabels(n', m)
      && forall z :: z in n' && z !in Pre(r) ==> m[z] == n'[z]
  {
    var r := Replace(t, p, ks);
    var a, b := ReplaceSplit(t, p, ks);
    assert p in Pre(r);
    GraftReady(links, links', n, n', t, p, ks);
    WalkFromInner(links', n', r, p);
    ApplyNumbered(n', r);
  }

  /** Inserting a block `m` into a sequence keeps it free of repeats exactly when `m` is and shares nothing with it. */
  lemma DistinctInsert(x: seq<Id>, m: seq<Id>, y: seq<Id>)
    ensures Distinct(x + m + y) <==> Distinct(x + y) && Distinct(m) && Disjoint(m, x + y)
  {
    DistinctConcat(x, m);
    DistinctConcat(x + m, y);
    DistinctConcat(x, y);
    DistinctConcat(m, y);
    DistinctConcat(x, m + y);
    assert x + m + y == x + (m + y);
  }

  /** Adding the block `m` after `u` between `x` and `y`. */
  lemma AddAfter(x: seq<Id>, u: seq<Id>, m: seq<Id>, y: seq<Id>)
    requires Distinct(x + u + y) && Distinct(m) && Disjoint(m, x + u + y)
    ensures Distinct(x + (u + m) + y)
    ensures Elems(x + (u + m) + y) == Elems(x + u + y) + Elems(m)
  {
    assert x + (u + m) + y == (x + u) + m + y;
    DistinctInsert(x + u, m, y);
  }

  /** Adding the block `m` before `u` between `x` and `y`. */
  lemma AddBefore(x: seq<Id>, u: seq<Id>, m: seq<Id>, y: seq<Id>)
    requires Distinct(x + u + y) && Distinct(m) && Disjoint(m, x + u + y)
    ensures Distinct(x + (m + u) + y)
    ensures Elems(x + (m + u) + y) == Elems(x + u + y) + Elems(m)
  {
    assert x + (m + u) + y == x + m + (u + y);
    assert x + u + y == x + (u + y);
    DistinctInsert(x, m, u + y);
  }

  /** Dropping the block `m` from between `u` and `w`. */
  lemma DropBlock(x: seq<Id>, u: seq<Id>, m: seq<Id>, w: seq<Id>, y: seq<Id>)
    requires Distinct(x + (u + m + w) + y)
    ensures Distinct(x + (u + w) + y)
    ensures Elems(x + (u + w) + y) == Elems(x + (u + m + w) + y) - Elems(m)
  {
    assert x + (u + m + w) + y == (x + u) + m + (w + y);
    assert x + (u + w) + y == (x + u) + (w + y);
    DistinctInsert(x + u, m, w + y);
  }
}
