/**
 * The nested-set numbering that a correct rebuild must produce, defined
 * directly by recursion on the tree shape (pre-order): a node's span starts at
 * `l`, its first child starts at `l + 1`, each later child starts right after
 * the previous sibling's span, and every span covers `SpanSize` integers.
 */
module Numbering {
  import opened Shape

  datatype Span = Span(left: int, right: int)

  type Spans = map<Id, Span>

  /** `N` numbers the tree `s` in pre-order, with `s` itself starting at `l`. */
  ghost predicate NumberedAt(N: Spans, s: Tree, l: int)
    decreases s
  {
    && s.id in N
    && N[s.id] == Span(l, l + SpanSize(s) - 1)
    && forall i :: 0 <= i < |s.kids| ==> NumberedAt(N, s.kids[i], l + 1 + SpanSum(s.kids[..i]))
  }

  /** The simple recursive pre-order numbering of `s`, starting at `l`. */
  ghost function Number(s: Tree, l: int): (N: Spans)
    decreases s, 1
  {
    NumberAll(s.kids, l + 1)[s.id := Span(l, l + SpanSize(s) - 1)]
  }

  ghost function NumberAll(ts: seq<Tree>, l: int): (N: Spans)
    decreases ts, 0
  {
    if ts == [] then map[] else Number(ts[0], l) + NumberAll(ts[1..], l + SpanSize(ts[0]))
  }

  lemma {:induction false} NumberKeys(s: Tree, l: int)
    ensures forall y :: y in Number(s, l) <==> y in Pre(s)
    decreases s, 1
  {
    NumberAllKeys(s.kids, l + 1);
  }

  lemma {:induction false} NumberAllKeys(ts: seq<Tree>, l: int)
    ensures forall y :: y in NumberAll(ts, l) <==> y in PreAll(ts)
    decreases ts, 0
  {
    if ts != [] {
      NumberKeys(ts[0], l);
      NumberAllKeys(ts[1..], l + SpanSize(ts[0]));
    }
  }

  /** Inside the `i`-th sibling, the sibling numbering is that sibling's own numbering. */
  lemma {:induction false} NumberAllAt(ts: seq<Tree>, l: int, i: nat, y: Id)
    requires Distinct(PreAll(ts))
    requires i < |ts| && y in Pre(ts[i])
    ensures y in NumberAll(ts, l) && y in Number(ts[i], l + SpanSum(ts[..i]))
    ensures NumberAll(ts, l)[y] == Number(ts[i], l + SpanSum(ts[..i]))[y]
    decreases i
  {
    NumberKeys(ts[i], l + SpanSum(ts[..i]));
    if i == 0 {
      NumberAllHead(ts, l, y);
      assert ts[..0] == [];
    } else {
      DistinctConcat(Pre(ts[0]), PreAll(ts[1..]));
      assert ts[1..][i - 1] == ts[i];
      InPreAll(ts[1..], i - 1);
      NumberAllTail(ts, l, y);
      NumberAllAt(ts[1..], l + SpanSize(ts[0]), i - 1, y);
      SpanSumCons(ts, i);
      var lk := l + SpanSum(ts[..i]);
      var l1 := l + SpanSize(ts[0]) + SpanSum(ts[1..][..i - 1]);
      assert lk == l1;
      var k1 := ts[1..][i - 1];
      assert Number(k1, l1) == Number(ts[i], lk);
    }
  }

  lemma NumberAllHead(ts: seq<Tree>, l: int, y: Id)
    requires ts != [] && Distinct(PreAll(ts)) && y in Pre(ts[0])
    ensures y in NumberAll(ts, l) && y in Number(ts[0], l)
    ensures NumberAll(ts, l)[y] == Number(ts[0], l)[y]
  {
    var A, B := Number(ts[0], l), NumberAll(ts[1..], l + SpanSize(ts[0]));
    assert NumberAll(ts, l) == A + B;
    assert y in A && y !in B by {
      DistinctConcat(Pre(ts[0]), PreAll(ts[1..]));
      NumberKeys(ts[0], l);
      NumberAllKeys(ts[1..], l + SpanSize(ts[0]));
    }
  }

  lemma NumberAllTail(ts: seq<Tree>, l: int, y: Id)
    requires ts != [] && y in PreAll(ts[1..])
    ensures y in NumberAll(ts, l) && y in NumberAll(ts[1..], l + SpanSize(ts[0]))
    ensures NumberAll(ts, l)[y] == NumberAll(ts[1..], l + SpanSize(ts[0]))[y]
  {
    NumberAllKeys(ts[1..], l + SpanSize(ts[0]));
  }

  lemma SpanSumCons(ts: seq<Tree>, i: nat)
    requires 1 <= i <= |ts|
    ensures SpanSum(ts[..i]) == SpanSize(ts[0]) + SpanSum(ts[1..][..i - 1])
  {
    assert ts[..i][1..] == ts[1..][..i - 1];
  }

  /** Numberings that agree on a tree's nodes number it alike. */
  lemma {:induction false} NumberedFrame(N: Spans, M: Spans, s: Tree, l: int)
    requires NumberedAt(N, s, l)
    requires forall y :: y in Pre(s) ==> y in N && y in M && M[y] == N[y]
    ensures NumberedAt(M, s, l)
    decreases s
  {
    forall i | 0 <= i < |s.kids| ensures NumberedAt(M, s.kids[i], l + 1 + SpanSum(s.kids[..i])) {
      InPreAll(s.kids, i);
      NumberedFrame(N, M, s.kids[i], l + 1 + SpanSum(s.kids[..i]));
    }
  }

  /** The recursive numbering function meets the numbering predicate. */
  lemma {:induction false} NumberIsNumbered(s: Tree, l: int)
    requires Distinct(Pre(s))
    ensures NumberedAt(Number(s, l), s, l)
    decreases s
  {
    DistinctTop(s);
    var N := Number(s, l);
    forall i | 0 <= i < |s.kids| ensures NumberedAt(N, s.kids[i], l + 1 + SpanSum(s.kids[..i])) {
      var k := s.kids[i];
      var lk := l + 1 + SpanSum(s.kids[..i]);
      NumberIsNumbered(k, lk);
      forall y | y in Pre(k) ensures y in N && y in Number(k, lk) && N[y] == Number(k, lk)[y] {
        NumberAllAt(s.kids, l + 1, i, y);
      }
      NumberedFrame(Number(k, lk), N, k, lk);
    }
  }

  /** A numbering of the whole tree numbers every subtree, starting at that subtree's left. */
  lemma {:induction false} NumberedSub(N: Spans, t: Tree, l: int, x: Id)
    requires NumberedAt(N, t, l) && x in Pre(t)
    ensures x in N && NumberedAt(N, Sub(t, x), N[x].left)
    decreases t
  {
    if t.id != x {
      var j := KidWith(t.kids, x);
      NumberedSub(N, t.kids[j], l + 1 + SpanSum(t.kids[..j]), x);
    }
  }

  /**
   * The nested-set laws between a node and its children under a numbering:
   * first child starts one after the parent's left, each later child one after
   * the previous sibling's right, the last child ends one before the parent's
   * right, each child's span lies strictly inside the parent's, and a span
   * covers `SpanSize` integers (two for a childless node).
   */
  lemma NumberedKids(N: Spans, s: Tree, l: int)
    requires NumberedAt(N, s, l)
    ensures N[s.id].right == N[s.id].left + SpanSize(s) - 1
    ensures s.kids == [] ==> N[s.id].right == N[s.id].left + 1
    ensures forall i :: 0 <= i < |s.kids| ==> s.kids[i].id in N
    ensures |s.kids| > 0 ==> N[s.kids[0].id].left == N[s.id].left + 1
    ensures |s.kids| > 0 ==> N[s.kids[|s.kids| - 1].id].right + 1 == N[s.id].right
    ensures forall i :: 0 <= i < |s.kids| - 1 ==> N[s.kids[i + 1].id].left == N[s.kids[i].id].right + 1
    ensures forall i :: 0 <= i < |s.kids| ==>
              N[s.id].left < N[s.kids[i].id].left && N[s.kids[i].id].right < N[s.id].right
  {
    var ks := s.kids;
    forall i | 0 <= i < |ks|
      ensures N[s.id].left < N[ks[i].id].left && N[ks[i].id].right < N[s.id].right
    {
      KidSpan(N, s, l, i);
    }
    forall i | 0 <= i < |ks| - 1 ensures N[ks[i + 1].id].left == N[ks[i].id].right + 1 {
      KidSpan(N, s, l, i);
      KidSpan(N, s, l, i + 1);
    }
    if |ks| > 0 {
      KidSpan(N, s, l, 0);
      KidSpan(N, s, l, |ks| - 1);
      assert ks[..|ks|] == ks;
    }
  }

  ghost predicate KidAt(N: Spans, s: Tree, l: int, i: nat)
    requires i < |s.kids|
  {
    && s.kids[i].id in N
    && N[s.kids[i].id].left == l + 1 + SpanSum(s.kids[..i])
    && N[s.kids[i].id].right == l + SpanSum(s.kids[..i + 1])
    && SpanSum(s.kids[..i + 1]) <= SpanSum(s.kids)
  }

  lemma KidSpan(N: Spans, s: Tree, l: int, i: nat)
    requires NumberedAt(N, s, l) && i < |s.kids|
    ensures KidAt(N, s, l, i)
  {
    SpanSumSnoc(s.kids, i);
    SpanSumPrefix(s.kids, i + 1);
  }

  lemma {:induction false} SpanSumPrefix(ts: seq<Tree>, i: nat)
    requires i <= |ts|
    ensures SpanSum(ts[..i]) <= SpanSum(ts)
    decreases |ts| - i
  {
    if i < |ts| {
      SpanSumSnoc(ts, i);
      SpanSumPrefix(ts, i + 1);
    } else {
      assert ts[..i] == ts;
    }
  }
}
