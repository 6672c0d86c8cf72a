/** The order in which a tree is freed. */
module FreeOrder {
  import opened Nodes

  /** All nodes of a list of trees, each before those below it. */
  ghost function Preorder(ts: seq<Rose>): seq<Node> {
    if ts == [] then [] else [ts[0].node] + Preorder(ts[0].kids) + Preorder(ts[1..])
  }

  /**
   What is below the first tree goes first; then the other trees from the last to the second, each after
   what is below it; and the first node at the end.
   */
  ghost function Order(ts: seq<Rose>): seq<Node> {
    if ts == [] then [] else Order(ts[0].kids) + Tail(ts[1..]) + [ts[0].node]
  }

  ghost function Tail(us: seq<Rose>): seq<Node> {
    if us == [] then []
    else var n := |us| - 1; Order(us[n].kids) + [us[n].node] + Tail(us[..n])
  }

  /** The node freed next. */
  ghost function NextFreed(ts: seq<Rose>): Node
    requires ts != []
  {
    var last := ts[|ts| - 1];
    if ts[0].kids != [] then NextFreed(ts[0].kids)
    else if last.kids != [] then NextFreed(last.kids)
    else last.node
  }

  /** What remains without it. */
  ghost function Rest(ts: seq<Rose>): seq<Rose>
    requires ts != []
  {
    var n := |ts| - 1;
    if ts[0].kids != [] then [Rose(ts[0].node, Rest(ts[0].kids))] + ts[1..]
    else if ts[n].kids != [] then ts[..n] + [Rose(ts[n].node, Rest(ts[n].kids))]
    else ts[..n]
  }

  lemma OrderCons(t: Rose, us: seq<Rose>)
    ensures Order([t] + us) == Order(t.kids) + Tail(us) + [t.node]
  {
    assert ([t] + us)[1..] == us;
  }

  lemma TailSnoc(us: seq<Rose>, t: Rose)
    ensures Tail(us + [t]) == Order(t.kids) + [t.node] + Tail(us)
  {
    assert (us + [t])[..|us|] == us;
  }

  lemma {:induction false} OrderStep(ts: seq<Rose>)
    requires ts != []
    ensures Order(ts) == [NextFreed(ts)] + Order(Rest(ts))
  {
    hide Order, Tail;
    var n, t := |ts| - 1, ts[0];
    assert ts == [t] + ts[1..];
    if t.kids != [] {
      OrderStep(t.kids);
      OrderCons(t, ts[1..]);
      OrderCons(Rose(t.node, Rest(t.kids)), ts[1..]);
    } else if n > 0 {
      var us, l := ts[1..n], ts[n];
      assert ts == [t] + (us + [l]) && ts[..n] == [t] + us;
      OrderCons(t, us + [l]);
      TailSnoc(us, l);
      OrderEmpty();
      if l.kids != [] {
        OrderStep(l.kids);
        var l' := Rose(l.node, Rest(l.kids));
        assert Rest(ts) == [t] + (us + [l']);
        OrderCons(t, us + [l']);
        TailSnoc(us, l');
      } else {
        OrderCons(t, us);
        assert l.kids == [] && t.kids == [];
        assert NextFreed(ts) == l.node && Rest(ts) == [t] + us;
      }
    } else {
      OrderCons(t, []);
      OrderEmpty();
      assert ts[..n] == [] && ts == [t] + [];
    }
  }

  lemma OrderEmpty()
    ensures Order([]) == [] == Tail([])
  {
  }

  lemma PreorderOne(t: Rose)
    ensures Preorder([t]) == [t.node] + Preorder(t.kids)
  {
    assert [t][1..] == [];
  }

  lemma {:induction false} PreorderLast(ts: seq<Rose>)
    requires ts != []
    ensures var n := |ts| - 1; Preorder(ts) == Preorder(ts[..n]) + [ts[n].node] + Preorder(ts[n].kids)
  {
    var n := |ts| - 1;
    if n == 0 {
      PreorderOne(ts[0]);
      assert ts == [ts[0]];
    } else {
      PreorderLast(ts[1..]);
      assert ts[1..][..n - 1] == ts[..n][1..];
    }
  }

  /** The order is a permutation of the nodes: every node is freed exactly as often as it is in the tree. */
  lemma {:induction false} OrderIsPermutation(ts: seq<Rose>)
    ensures multiset(Order(ts)) == multiset(Preorder(ts))
    decreases ts, 1
  {
    if ts != [] {
      OrderIsPermutation(ts[0].kids);
      TailIsPermutation(ts[1..]);
      assert Order(ts) == Order(ts[0].kids) + Tail(ts[1..]) + [ts[0].node];
    }
  }

  lemma {:induction false} TailIsPermutation(us: seq<Rose>)
    ensures multiset(Tail(us)) == multiset(Preorder(us))
    decreases us, 0
  {
    if us != [] {
      var n := |us| - 1;
      OrderIsPermutation(us[n].kids);
      TailIsPermutation(us[..n]);
      PreorderLast(us);
    }
  }

  /** `t` occurs somewhere in the trees. */
  ghost predicate Within(ts: seq<Rose>, t: Rose) {
    exists i | 0 <= i < |ts| :: ts[i] == t || Within(ts[i].kids, t)
  }

  /** Wherever a tree occurs, what is below its root is freed before its root. */
  lemma {:induction false} BelowGoesFirst(ts: seq<Rose>, t: Rose, x: Node) returns (i: nat, j: nat)
    requires Within(ts, t) && x in Preorder(t.kids)
    ensures i < j < |Order(ts)| && Order(ts)[i] == x && Order(ts)[j] == t.node
    decreases ts, 1
  {
    var a, b := Order(ts[0].kids), Tail(ts[1..]);
    assert Order(ts) == a + b + [ts[0].node];
    hide Order, Tail, Preorder;
    if ts[0] == t {
      i := InOrder(t.kids, x);
      j := |a| + |b|;
    } else if Within(ts[0].kids, t) {
      i, j := BelowGoesFirst(ts[0].kids, t, x);
    } else {
      var k :| 0 <= k < |ts| && (ts[k] == t || Within(ts[k].kids, t));
      assert ts[1..][k - 1] == ts[k];
      i, j := BelowGoesFirstInTail(ts[1..], t, x);
      i, j := |a| + i, |a| + j;
    }
  }

  lemma {:induction false} BelowGoesFirstInTail(us: seq<Rose>, t: Rose, x: Node) returns (i: nat, j: nat)
    requires Within(us, t) && x in Preorder(t.kids)
    ensures i < j < |Tail(us)| && Tail(us)[i] == x && Tail(us)[j] == t.node
    decreases us, 0
  {
    var n := |us| - 1;
    assert Tail(us) == Order(us[n].kids) + [us[n].node] + Tail(us[..n]);
    hide Order, Tail, Preorder;
    if us[n] == t {
      i := InOrder(t.kids, x);
      j := |Order(t.kids)|;
    } else if Within(us[n].kids, t) {
      i, j := BelowGoesFirst(us[n].kids, t, x);
    } else {
      var k :| 0 <= k < |us| && (us[k] == t || Within(us[k].kids, t));
      assert us[..n][k] == us[k];
      i, j := BelowGoesFirstInTail(us[..n], t, x);
      i, j := |Order(us[n].kids)| + 1 + i, |Order(us[n].kids)| + 1 + j;
    }
  }

  lemma InOrder(ts: seq<Rose>, x: Node) returns (i: nat)
    requires x in Preorder(ts)
    ensures i < |Order(ts)| && Order(ts)[i] == x
  {
    OrderIsPermutation(ts);
    assert x in multiset(Order(ts));
    i :| i < |Order(ts)| && Order(ts)[i] == x;
  }

  // ----- how far this is from reverse document order

  ghost function Reverse(s: seq<Node>): seq<Node> {
    if s == [] then [] else Reverse(s[1..]) + [s[0]]
  }

  lemma {:induction false} ReverseConcat(a: seq<Node>, b: seq<Node>)
    ensures Reverse(a + b) == Reverse(b) + Reverse(a)
  {
    if a == [] {
      assert a + b == b;
    } else {
      ReverseConcat(a[1..], b);
      assert (a + b)[1..] == a[1..] + b;
    }
  }

  lemma {:induction false} ReverseMultiset(s: seq<Node>)
    ensures multiset(Reverse(s)) == multiset(s) && |Reverse(s)| == |s|
  {
    if s != [] {
      ReverseMultiset(s[1..]);
      assert s == [s[0]] + s[1..];
    }
  }

  /** No first child with a sibling after it has children. */
  ghost predicate Lean(ts: seq<Rose>) {
    && (ts != [] ==> ts[0].kids == [] || |ts| == 1)
    && forall i | 0 <= i < |ts| :: Lean(ts[i].kids)
  }

  ghost predicate AllLean(us: seq<Rose>) {
    forall i | 0 <= i < |us| :: Lean(us[i].kids)
  }

  ghost predicate NoDup(s: seq<Node>) {
    forall i, j | 0 <= i < j < |s| :: s[i] != s[j]
  }

  lemma NoDupParts(a: seq<Node>, b: seq<Node>)
    requires NoDup(a + b)
    ensures NoDup(a) && NoDup(b) && forall x | x in a :: x !in b
  {
    forall i, j | 0 <= i < j < |b| ensures b[i] != b[j] {
      assert (a + b)[|a| + i] == b[i] && (a + b)[|a| + j] == b[j];
    }
    forall i, j | 0 <= i < |a| && 0 <= j < |b| ensures a[i] != b[j] {
      assert (a + b)[i] == a[i] && (a + b)[|a| + j] == b[j];
    }
    forall i, j | 0 <= i < j < |a| ensures a[i] != a[j] {
      assert (a + b)[i] == a[i] && (a + b)[j] == a[j];
    }
  }

  lemma NoDupConcat(a: seq<Node>, b: seq<Node>)
    requires NoDup(a) && NoDup(b) && forall x | x in a :: x !in b
    ensures NoDup(a + b)
  {
    forall i, j | 0 <= i < j < |a + b| ensures (a + b)[i] != (a + b)[j] {
      assert (a + b)[i] == if i < |a| then a[i] else b[i - |a|];
      assert (a + b)[j] == if j < |a| then a[j] else b[j - |a|];
      assert i < |a| ==> a[i] in a;
      assert j >= |a| ==> b[j - |a|] in b;
    }
  }

  lemma SplitEqual(a: seq<Node>, b: seq<Node>, c: seq<Node>, d: seq<Node>)
    requires |a| == |c|
    ensures a + b == c + d <==> a == c && b == d
  {
    if a + b == c + d {
      assert a == (a + b)[..|a|] == c;
      assert b == (a + b)[|a|..] == d;
    }
  }

  lemma SameLength(a: seq<Node>, b: seq<Node>)
    requires multiset(a) == multiset(b)
    ensures |a| == |b|
  {
    assert |multiset(a)| == |a| && |multiset(b)| == |b|;
  }

  /** The order is the exact reverse of document order for the lean trees and for no others. */
  lemma {:induction false} ReverseIffLean(ts: seq<Rose>)
    requires NoDup(Preorder(ts))
    ensures Order(ts) == Reverse(Preorder(ts)) <==> Lean(ts)
    decreases ts, 1
  {
    if ts != [] {
      var k, u := Preorder(ts[0].kids), Preorder(ts[1..]);
      var n := ts[0].node;
      assert Preorder(ts) == [n] + (k + u);
      NoDupParts([n], k + u);
      NoDupParts(k, u);
      ReverseIffLean(ts[0].kids);
      TailIffLean(ts[1..]);
      ReverseConcat([n], k + u);
      ReverseConcat(k, u);
      assert Reverse([n]) == [n];
      assert Lean(ts) <==> (ts[0].kids == [] || |ts| == 1) && Lean(ts[0].kids) && AllLean(ts[1..]) by {
        assert forall i | 1 <= i < |ts| :: ts[1..][i - 1] == ts[i];
      }
      OrderIsPermutation(ts[0].kids);
      TailIsPermutation(ts[1..]);
      FirstPart(Order(ts[0].kids), Tail(ts[1..]), k, u, n);
    }
  }

  lemma FirstPart(o: seq<Node>, t: seq<Node>, k: seq<Node>, u: seq<Node>, n: Node)
    requires multiset(o) == multiset(k) && multiset(t) == multiset(u) && forall x | x in k :: x !in u
    ensures o + t + [n] == Reverse(u) + Reverse(k) + [n] <==>
              (k == [] || u == []) && o == Reverse(k) && t == Reverse(u)
  {
    ReverseMultiset(k);
    ReverseMultiset(u);
    hide Reverse;
    var rk, ru := Reverse(k), Reverse(u);
    forall x | x in rk ensures x !in ru {
      assert x in multiset(rk);
      assert x in k;
      assert x !in multiset(u);
    }
    SwapEqual(o, t, rk, ru);
    SameLength(o + t, ru + rk);
    SplitEqual(o + t, [n], ru + rk, [n]);
  }

  /** Two disjoint lists swap only if one is empty. */
  lemma SwapEqual(o: seq<Node>, t: seq<Node>, k: seq<Node>, u: seq<Node>)
    requires multiset(o) == multiset(k) && multiset(t) == multiset(u)
    ensures (forall x | x in k :: x !in u) ==> (o + t == u + k <==> (k == [] || u == []) && o == k && t == u)
  {
    SameLength(o, k);
    SameLength(t, u);
    if k == [] {
      assert o + t == t && u + k == u;
    } else if u == [] {
      assert o + t == o && u + k == k;
    } else if forall x | x in k :: x !in u {
      assert o[0] in multiset(k);
      assert o[0] in k && u[0] in u;
      assert (o + t)[0] == o[0] && (u + k)[0] == u[0];
    }
  }

  lemma {:induction false} TailIffLean(us: seq<Rose>)
    requires NoDup(Preorder(us))
    ensures Tail(us) == Reverse(Preorder(us)) <==> AllLean(us)
    decreases us, 0
  {
    if us != [] {
      var n := |us| - 1;
      var a, k := Preorder(us[..n]), Preorder(us[n].kids);
      PreorderLast(us);
      var x := [us[n].node];
      assert Preorder(us) == a + (x + k);
      NoDupParts(a, x + k);
      NoDupParts(x, k);
      ReverseIffLean(us[n].kids);
      TailIffLean(us[..n]);
      ReverseConcat(a, x + k);
      ReverseConcat(x, k);
      assert Reverse(x) == x;
      assert AllLean(us) <==> Lean(us[n].kids) && AllLean(us[..n]);
      OrderIsPermutation(us[n].kids);
      ReverseMultiset(k);
      SameLength(Order(us[n].kids), k);
      SplitEqual(Order(us[n].kids) + x, Tail(us[..n]), Reverse(k) + x, Reverse(a));
      SplitEqual(Order(us[n].kids), x, Reverse(k), x);
      assert Tail(us) == Order(us[n].kids) + x + Tail(us[..n]);
    }
  }

  /** A root with a first child that has a child, and a second child: the second child is freed before the first. */
  lemma NotAlwaysReverse(r: Node, a: Node, b: Node, c: Node)
    requires NoDup([r, a, b, c])
    ensures var t := Rose(r, [Rose(a, [Rose(b, [])]), Rose(c, [])]);
            Preorder([t]) == [r, a, b, c] && Order([t]) == [b, c, a, r] && Reverse(Preorder([t])) == [c, b, a, r]
  {
    var ts := [Rose(a, [Rose(b, [])]), Rose(c, [])];
    PreorderOne(Rose(r, ts));
    PreorderOne(Rose(b, []));
    PreorderOne(Rose(c, []));
    assert ts[1..] == [Rose(c, [])];
    assert Preorder(ts) == [a, b, c];
    assert Order([Rose(b, [])]) == [b];
    assert Tail([Rose(c, [])]) == [c];
    assert Order(ts) == [b, c, a];
    assert Reverse([r, a, b, c]) == Reverse([a, b, c]) + [r];
    assert Reverse([a, b, c]) == Reverse([b, c]) + [a];
    assert Reverse([b, c]) == Reverse([c]) + [b];
  }
}
