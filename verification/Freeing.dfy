/** Freeing a tree without recursion. */
module Freeing {
  import opened Nodes
  import opened Forests
  import opened NodeOps
  import opened FreeOrder

  // ----- trees of a forest

  /** No node is below two children of one node. */
  lemma {:induction false} Disjoint(f: Forest, n: Node, i: nat, j: nat, x: Node)
    requires WF(f) && n in f && i < |f[n].kids| && j < |f[n].kids| && i != j
    requires f[n].kids[i] in f && f[n].kids[j] in f
    requires Has(f[f[n].kids[i]].tree, x)
    ensures !Has(f[f[n].kids[j]].tree, x)
    decreases Size(f[f[n].kids[i]].tree) - (if x in f then Size(f[x].tree) else 0)
  {
    Ok(f, n);
    var a, b := f[n].kids[i], f[n].kids[j];
    if Has(f[b].tree, x) {
      HasInForest(f, a, x);
      NotBelowKid(f, n, i);
      NotBelowKid(f, n, j);
      if x != a {
        BelowByParent(f, a, x);
      }
      if x != b {
        BelowByParent(f, b, x);
      }
      if x != a && x != b {
        Ok(f, x);
        HasInForest(f, a, f[x].par);
        LargerAbove(f, x);
        Disjoint(f, n, i, j, f[x].par);
      }
    }
  }

  lemma LargerAbove(f: Forest, x: Node)
    requires WF(f) && x in f && f[x].par != null
    ensures f[x].par in f && Size(f[x].tree) < Size(f[f[x].par].tree)
  {
    Ok(f, x);
    Ok(f, f[x].par);
    SizeOf(f[f[x].par].tree.kids, f[x].pos);
  }

  lemma {:induction false} InPreorder(ts: seq<Rose>, x: Node)
    ensures x in Preorder(ts) <==> HasAny(ts, x)
  {
    if ts != [] {
      InPreorder(ts[0].kids, x);
      InPreorder(ts[1..], x);
      HasFirst(ts, x);
    }
  }

  /** A tree of the forest holds no node twice. */
  lemma {:induction false} TreeNoDup(f: Forest, n: Node)
    requires WF(f) && n in f
    ensures NoDup(Preorder([f[n].tree]))
    decreases f[n].tree, 1
  {
    Ok(f, n);
    PreorderOne(f[n].tree);
    var ts := f[n].tree.kids;
    KidsNoDup(f, n, 0);
    assert ts[0..] == ts;
    InPreorder(ts, n);
    if HasAny(ts, n) {
      var i :| 0 <= i < |ts| && Has(ts[i], n);
      NotBelowKid(f, n, i);
    }
  }

  lemma {:induction false} KidsNoDup(f: Forest, n: Node, i: nat)
    requires WF(f) && n in f && i <= |f[n].tree.kids|
    ensures NoDup(Preorder(f[n].tree.kids[i..]))
    decreases f[n].tree, 0, |f[n].tree.kids| - i
  {
    Ok(f, n);
    var ts := f[n].tree.kids;
    if i < |ts| {
      var k := f[n].kids[i];
      TreeNoDup(f, k);
      KidsNoDup(f, n, i + 1);
      PreorderOne(ts[i]);
      assert ts[i..][1..] == ts[i + 1..];
      var a, b := Preorder([ts[i]]), Preorder(ts[i + 1..]);
      assert Preorder(ts[i..]) == a + b;
      forall x | x in a ensures x !in b {
        InPreorder([ts[i]], x);
        Edits.HasOne(ts[i], x);
        InPreorder(ts[i + 1..], x);
        if HasAny(ts[i + 1..], x) {
          var j :| 0 <= j < |ts[i + 1..]| && Has(ts[i + 1..][j], x);
          Disjoint(f, n, i, i + 1 + j, x);
        }
      }
      NoDupConcat(a, b);
    }
  }

  lemma {:induction false} NextFreedIn(ts: seq<Rose>)
    requires ts != []
    ensures HasAny(ts, NextFreed(ts))
  {
    var n := |ts| - 1;
    if ts[0].kids != [] {
      NextFreedIn(ts[0].kids);
      assert Has(ts[0], NextFreed(ts));
    } else {
      if ts[n].kids != [] {
        NextFreedIn(ts[n].kids);
      }
      assert Has(ts[n], NextFreed(ts));
    }
  }

  // ----- finding the next node to free

  lemma FollowingHead(f: Forest, c: Node)
    requires WF(f) && c in f
    ensures Following(f, c) != [] && Following(f, c)[0] == f[c].tree
    ensures SizeAll(Following(f, c)) == Size(f[c].tree) + SizeAll(Following(f, c)[1..])
  {
    ChainFrom(f, c);
    assert ChainAt(f, Following(f, c), 0);
  }

  /** From a node to its first child. */
  lemma GoDown(f: Forest, c: Node)
    requires WF(f) && c in f && f[c].kids != []
    ensures var k := f[c].kids[0];
            && k in f && Following(f, k) == f[c].tree.kids && f[c].tree.kids != []
            && NextFreed(Following(f, c)) == NextFreed(Following(f, k))
            && SizeAll(Following(f, k)) < SizeAll(Following(f, c))
  {
    FollowingHead(f, c);
    Ok(f, c);
    Ok(f, f[c].kids[0]);
  }

  ghost function LastTree(ts: seq<Rose>): Rose
    requires ts != []
  {
    ts[|ts| - 1]
  }

  /** From a node to its next sibling. */
  lemma GoRight(f: Forest, c: Node)
    requires WF(f) && c in f
    ensures Following(f, c) != []
    ensures Next(f, c) == null ==> Following(f, c) == [f[c].tree]
    ensures Next(f, c) != null ==>
              && Next(f, c) in f && Following(f, Next(f, c)) == Following(f, c)[1..] != []
              && SizeAll(Following(f, Next(f, c))) < SizeAll(Following(f, c))
  {
    FollowingHead(f, c);
    ChainFrom(f, c);
    assert ChainAt(f, Following(f, c), 0);
    var x := Next(f, c);
    if x != null {
      assert ChainAt(f, Following(f, c), 1);
      Ok(f, c);
      Ok(f, x);
      NextOf(f, c);
    } else {
      assert |Following(f, c)| == 1;
    }
  }

  lemma NextOf(f: Forest, c: Node)
    requires WF(f) && c in f && Next(f, c) != null
    ensures var x := Next(f, c);
            x in f && f[x].par == f[c].par && f[x].hold == f[c].hold && f[x].pos == f[c].pos + 1
            && (f[c].par != null || f[c].hold != null)
  {
    Ok(f, c);
    EitherList(f, c);
    if f[c].par != null {
      Ok(f, f[c].par);
    } else if f[c].hold != null {
      Ok(f, f[c].hold);
    }
  }

  /** Where the search stands: at `curr` or, if there is none, at the childless `prev`. */
  ghost predicate Searching(f: Forest, curr: Node?, prev: Node, x: Node)
    requires WF(f)
  {
    if curr != null then curr in f && Following(f, curr) != [] && NextFreed(Following(f, curr)) == x
    else prev in f && f[prev].kids == [] && Following(f, prev) != [] && NextFreed(Following(f, prev)) == x
  }

  ghost predicate Ends(f: Forest, x: Node)
    requires WF(f)
  {
    x in f && f[x].kids == [] && Next(f, x) == null
  }

  /** Down to a childless first descendant. */
  method Descend(curr: Node?, prev: Node, ghost f: Forest, ghost x: Node) returns (p: Node)
    requires Holds(f) && Searching(f, curr, prev, x)
    ensures Searching(f, null, p, x)
    ensures SizeAll(Following(f, p)) <= SizeAll(Following(f, if curr != null then curr else prev))
  {
    hide WF, Following, NextFreed, Next, Prev;
    p := prev;
    var c := curr;
    while c != null
      invariant Searching(f, c, p, x)
      invariant SizeAll(Following(f, if c != null then c else p))
             <= SizeAll(Following(f, if curr != null then curr else prev))
      decreases if c == null then 0 else SizeAll(Following(f, c)) + 1
    {
      assert RepNode(f, c);
      if f[c].kids != [] {
        GoDown(f, c);
      }
      p := c;
      c := c.firstChild;
    }
  }

  /** Along to the last sibling. */
  method GoToLast(start: Node, ghost f: Forest) returns (p: Node)
    requires Holds(f) && start in f && Following(f, start) != []
    ensures p in f && f[p].tree == LastTree(Following(f, start)) && p == f[p].tree.node
    ensures Next(f, p) == null && Following(f, p) == [f[p].tree]
    ensures p == start || SizeAll(Following(f, p)) < SizeAll(Following(f, start))
  {
    hide WF, Following, Next, Prev;
    p := start;
    var c: Node? := start;
    while c != null
      invariant c != null ==> c in f && Following(f, c) != []
      invariant c != null ==> LastTree(Following(f, c)) == LastTree(Following(f, start))
      invariant c != null && c != start ==> SizeAll(Following(f, c)) < SizeAll(Following(f, start))
      invariant c == null ==> p in f && Next(f, p) == null && Following(f, p) == [f[p].tree]
      invariant c == null ==> LastTree(Following(f, p)) == LastTree(Following(f, start))
      invariant c == null && p != start ==> SizeAll(Following(f, p)) < SizeAll(Following(f, start))
      decreases if c == null then 0 else SizeAll(Following(f, c)) + 1
    {
      assert RepNode(f, c);
      GoRight(f, c);
      p := c;
      c := c.nextSibling;
    }
    Ok(f, p);
  }

  /** The search for the next node to free: the last sibling of the last child, whose own children come first. */
  method NextToFree(nextChild: Node?, prevChild: Node, ghost f: Forest, ghost x: Node) returns (curr: Node)
    requires Holds(f) && Searching(f, nextChild, prevChild, x)
    ensures curr == x && Ends(f, x)
  {
    hide WF, Rep, Following, Next, Prev;
    var c := nextChild;
    curr := prevChild;
    var again := true;
    while again
      invariant again ==> Searching(f, c, curr, x)
      invariant !again ==> curr == x && Ends(f, x)
      decreases again, if again then SizeAll(Following(f, if c != null then c else curr)) else 0
    {
      var p := Descend(c, curr, f, x);
      curr := GoToLast(p, f);
      assert RepNode(f, curr) by { Represented(f, curr); }
      LastKids(f, curr, p, x);
      again := curr.firstChild != null;
      c := curr;
    }
  }

  /** What is freed next, seen from the last sibling of a childless node. */
  lemma LastKids(f: Forest, l: Node, p: Node, x: Node)
    requires WF(f) && l in f && Searching(f, null, p, x)
    requires f[l].tree == LastTree(Following(f, p)) && Following(f, l) == [f[l].tree]
    ensures if f[l].kids != [] then Searching(f, l, l, x) && l != p else l == x
  {
    FollowingHead(f, p);
    Ok(f, p);
    Ok(f, l);
  }

  // ----- a node taken out of the forest

  ghost predicate Leaf(f: Forest, c: Node)
    requires WF(f)
  {
    c in f && f[c].par != null && f[c].kids == []
  }

  /** The forest without a childless node and its attributes. */
  ghost function Dropped(f: Forest, c: Node): Forest
    requires WF(f) && Leaf(f, c)
  {
    Detached(f, c) - Gone(f, c)
  }

  ghost function Gone(f: Forest, c: Node): set<Node>
    requires c in f
  {
    {c} + set a | a in f[c].attrs
  }

  lemma DroppedKids(g: Forest, gone: set<Node>, c: Node, n: Node)
    requires WF(g) && Free(g, c) && g[c].kids == [] && gone == Gone(g, c) && n in g && n !in gone
    ensures var h := g - gone; n in h && KidsOk(h, n) && TreeOk(h, n)
  {
    Ok(g, n);
    Ok(g, c);
    hide WF, UpOk;
    forall i | 0 <= i < |g[n].kids| ensures g[n].kids[i] !in gone {
      assert g[g[n].kids[i]].par == n;
    }
  }

  lemma DroppedUp(g: Forest, gone: set<Node>, c: Node, n: Node)
    requires WF(g) && Free(g, c) && g[c].kids == [] && gone == Gone(g, c) && n in g && n !in gone
    ensures var h := g - gone; n in h && AttrsOk(h, n) && UpOk(h, n)
  {
    Ok(g, n);
    Ok(g, c);
    hide WF, TreeOk;
    forall i | 0 <= i < |g[n].attrs| ensures g[n].attrs[i] !in gone {
      assert g[g[n].attrs[i]].hold == n;
    }
  }

  lemma DroppedOk(g: Forest, c: Node)
    requires WF(g) && Free(g, c) && g[c].kids == []
    ensures WF(g - Gone(g, c))
  {
    var h := g - Gone(g, c);
    hide KidsOk, AttrsOk, UpOk, TreeOk;
    forall n | n in h ensures KidsOk(h, n) && AttrsOk(h, n) && UpOk(h, n) && TreeOk(h, n) {
      DroppedKids(g, Gone(g, c), c, n);
      DroppedUp(g, Gone(g, c), c, n);
    }
  }

  lemma DroppedKeeps(f: Forest, c: Node)
    requires WF(f) && Leaf(f, c)
    ensures WF(Dropped(f, c)) && Dropped(f, c).Keys == f.Keys - Gone(f, c)
    ensures WF(Detached(f, c)) && forall x | x in Dropped(f, c) :: x in f && Dropped(f, c)[x] == Detached(f, c)[x]
  {
    DetachedKeeps(f, c);
    var g := Detached(f, c);
    DetachedRest(f, c, c);
    assert g[c].kids == [] by {
      Edits.RemoveActs(f, c);
      NotOwnParent(f, c);
    }
    assert Gone(g, c) == Gone(f, c);
    DroppedOk(g, c);
  }

  lemma DroppedLinks(f: Forest, c: Node, x: Node)
    requires WF(f) && Leaf(f, c) && WF(Dropped(f, c)) && WF(Detached(f, c)) && x in Dropped(f, c) && x in Detached(f, c)
    requires Dropped(f, c)[x] == Detached(f, c)[x]
    ensures Next(Dropped(f, c), x) == Next(Detached(f, c), x) && Prev(Dropped(f, c), x) == Prev(Detached(f, c), x)
  {
    Ok(Dropped(f, c), x);
    hide WF, Detached;
  }

  /** Splicing out the rest of the nodes is enough. */
  lemma DroppedRep(f: Forest, c: Node)
    requires WF(f) && Leaf(f, c) && forall x | x in f && x !in Gone(f, c) :: SplicedOut(f, c, x)
    ensures Holds(Dropped(f, c))
  {
    DroppedKeeps(f, c);
    hide WF, Detached, Dropped, Gone, Next, Prev, KidsOk, AttrsOk, UpOk, TreeOk;
    var h := Dropped(f, c);
    forall x | x in h ensures RepNode(h, x) {
      assert SplicedOut(f, c, x);
      DetachedLinks(f, c, x);
      DetachedRest(f, c, x);
      DroppedLinks(f, c, x);
    }
  }

  // ----- the tree after a node is taken out

  /** Regrowing a node in a tree regrows the one child it is below. */
  lemma SubstKid(f: Forest, n: Node, i: nat, p: Node, ks: seq<Rose>)
    requires WF(f) && n in f && i < |f[n].tree.kids| && Has(f[n].tree.kids[i], p)
    ensures Subst(f[n].tree, p, ks) == Rose(n, f[n].tree.kids[i := Subst(f[n].tree.kids[i], p, ks)])
    ensures Has(f[n].tree, p)
  {
    Ok(f, n);
    var ts, k := f[n].tree.kids, f[n].kids[i];
    NotBelowKid(f, n, i);
    forall j | 0 <= j < |ts| && j != i ensures Subst(ts[j], p, ks) == ts[j] {
      Disjoint(f, n, i, j, p);
      SubstElsewhere(ts[j], p, ks);
    }
    assert Subst(f[n].tree, p, ks).kids == ts[i := Subst(ts[i], p, ks)];
  }

  lemma RestKid(ts: seq<Rose>)
    requires ts != []
    ensures var i := if ts[0].kids != [] then 0 else |ts| - 1;
            ts[i].kids != [] ==>
              Rest(ts) == ts[i := Rose(ts[i].node, Rest(ts[i].kids))] && NextFreed(ts) == NextFreed(ts[i].kids)
  {
  }

  /** Taking out the node freed next leaves the rest of the tree below `n`. */
  lemma {:induction false} RestOfTree(f: Forest, n: Node, c: Node, ks: seq<Rose>)
    requires WF(f) && n in f && f[n].tree.kids != [] && c == NextFreed(f[n].tree.kids)
    requires c in f && f[c].par != null && f[c].par in f && f[c].pos < |f[f[c].par].tree.kids|
    requires ks == Remove(f[f[c].par].tree.kids, f[c].pos)
    ensures Subst(f[n].tree, f[c].par, ks) == Rose(n, Rest(f[n].tree.kids)) && Has(f[n].tree, f[c].par)
    decreases f[n].tree
  {
    Ok(f, n);
    var ts, l := f[n].tree.kids, |f[n].kids| - 1;
    var i := if ts[0].kids != [] then 0 else l;
    var k := f[n].kids[i];
    RestKid(ts);
    if ts[i].kids != [] {
      hide WF, Rest, NextFreed, Subst, KidsOk;
      RestOfTree(f, k, c, ks);
      SubstKid(f, n, i, f[c].par, ks);
      Ok(f, k);
    } else {
      Ok(f, k);
      assert c == k;
      assert ks == ts[..l];
    }
  }

  lemma DetachedTree(f: Forest, n: Node, c: Node)
    requires WF(f) && n in f && c in f && f[c].par != null
    ensures f[c].par in f && f[c].pos < |f[f[c].par].tree.kids| && n in Detached(f, c)
    ensures var p := f[c].par;
            Detached(f, c)[n].tree == Subst(f[n].tree, p, Remove(f[p].tree.kids, f[c].pos))
  {
    Ok(f, c);
    var p, i := f[c].par, f[c].pos;
    Ok(f, p);
    hide WF, Subst;
    assert Trees(f, Remove(f[p].kids, i)) == Remove(f[p].tree.kids, i);
  }

  lemma StaysIn(f: Forest, n: Node, c: Node)
    requires WF(f) && n in f && f[n].tree.kids != [] && Leaf(f, c)
    ensures n !in Gone(f, c)
  {
    Ok(f, n);
    Ok(f, c);
  }

  /** What the trees become when the node freed next is dropped. */
  lemma DroppedTree(f: Forest, n: Node, c: Node)
    requires WF(f) && n in f && f[n].tree.kids != [] && c == NextFreed(f[n].tree.kids) && Leaf(f, c)
    ensures WF(Dropped(f, c)) && n in Dropped(f, c) && Dropped(f, c)[n].tree == Rose(n, Rest(f[n].tree.kids))
  {
    hide WF, Detached, Gone, Subst, NextFreed, Rest, Remove;
    DetachedTree(f, n, c);
    DroppedKeeps(f, c);
    StaysIn(f, n, c);
    RestOfTree(f, n, c, Remove(f[f[c].par].tree.kids, f[c].pos));
  }

  /** The child lists after it. */
  lemma DroppedLists(f: Forest, c: Node)
    requires WF(f) && Leaf(f, c) && Next(f, c) == null
    ensures f[c].par in f && f[f[c].par].kids != [] && LastNode(f[f[c].par].kids) == c
    ensures Dropped(f, c).Keys == f.Keys - Gone(f, c) && f[c].par !in Gone(f, c)
    ensures forall n | n in Dropped(f, c) ::
              && Dropped(f, c)[n].kids == (if n == f[c].par then Front(f[n].kids) else f[n].kids)
              && Dropped(f, c)[n].attrs == f[n].attrs
    ensures Prev(f, c) == if |f[f[c].par].kids| == 1 then null else LastNode(Front(f[f[c].par].kids))
  {
    Ok(f, c);
    Ok(f, f[c].par);
    hide WF, Subst, TreeOk;
  }

  ghost function Front(s: seq<Node>): seq<Node>
    requires s != []
  {
    s[..|s| - 1]
  }

  ghost function LastNode(s: seq<Node>): Node
    requires s != []
  {
    s[|s| - 1]
  }

  /** Where the search goes on: at the sibling before the node that was freed, or else at its parent. */
  ghost function Resumption(f: Forest, c: Node): Node?
    requires WF(f) && c in f
  {
    if Prev(f, c) != null then Prev(f, c) else f[c].par
  }

  /** The search from there finds what the search from the top of the tree would find. */
  ghost predicate Resumes(g: Forest, n: Node, r: Node)
    requires WF(g) && n in g && r in g
  {
    if g[n].tree.kids != [] then Following(g, r) != [] && NextFreed(Following(g, r)) == NextFreed(g[n].tree.kids)
    else r == n
  }

  lemma LastAlone(g: Forest, n: Node)
    requires WF(g) && n in g
    ensures |g[n].tree.kids| == |g[n].kids|
    ensures g[n].kids != [] ==>
              && g[n].kids[0] in g && LastNode(g[n].kids) in g
              && g[n].tree.kids[0] == g[g[n].kids[0]].tree && LastTree(g[n].tree.kids) == g[LastNode(g[n].kids)].tree
              && Following(g, LastNode(g[n].kids)) == [LastTree(g[n].tree.kids)]
  {
    Ok(g, n);
    if g[n].kids != [] {
      KidTree(g, n, 0);
      KidTree(g, n, |g[n].kids| - 1);
    }
  }

  lemma FromLast(ts: seq<Rose>)
    requires ts != [] && ts[0].kids == []
    ensures NextFreed(ts) == NextFreed([LastTree(ts)])
  {
  }

  /** The last step of the descent to `c`. */
  lemma ResumeHere(f: Forest, n: Node, c: Node)
    requires WF(f) && n in f && Leaf(f, c) && f[c].par == n && Next(f, c) == null && WF(Dropped(f, c))
    requires f[n].kids != [] && f[n].kids[0] in f && f[f[n].kids[0]].kids == []
    ensures n in Dropped(f, c) && Resumption(f, c) in Dropped(f, c)
    ensures Resumes(Dropped(f, c), n, Resumption(f, c))
  {
    hide WF, Dropped, Gone, KidsOk, AttrsOk, UpOk, TreeOk, Next, Prev, Following, NextFreed;
    DroppedLists(f, c);
    var g := Dropped(f, c);
    LastAlone(g, n);
    if g[n].kids != [] {
      LastAlone(g, g[n].kids[0]);
      FromLast(g[n].tree.kids);
    }
  }

  /** The search resumes correctly wherever below `n` a node was dropped. */
  lemma {:induction false} Resume(f: Forest, n: Node, c: Node)
    requires WF(f) && n in f && f[n].tree.kids != [] && c == NextFreed(f[n].tree.kids)
    requires Leaf(f, c) && Next(f, c) == null && WF(Dropped(f, c))
    ensures n in Dropped(f, c) && Resumption(f, c) in Dropped(f, c)
    ensures Resumes(Dropped(f, c), n, Resumption(f, c))
    decreases f[n].tree
  {
    hide WF, Dropped, Gone, KidsOk, AttrsOk, UpOk, TreeOk, Next, Prev, Following, Resumption;
    LastAlone(f, n);
    var ks, ts := f[n].kids, f[n].tree.kids;
    var k, l := ks[0], LastNode(ks);
    LastAlone(f, k);
    LastAlone(f, l);
    if ts[0].kids != [] {
      Resume(f, k, c);
      ResumeFirst(f, n, c);
    } else if l != k && LastTree(ts).kids != [] {
      Resume(f, l, c);
      ResumeLast(f, n, c);
    } else {
      assert c == l by { Ok(f, l); }
      assert f[c].par == n by { Ok(f, n); }
      ResumeHere(f, n, c);
    }
  }

  lemma ResumeFirst(f: Forest, n: Node, c: Node)
    requires WF(f) && n in f && f[n].kids != [] && Leaf(f, c) && Next(f, c) == null && WF(Dropped(f, c))
    requires f[n].kids[0] in f && f[f[n].kids[0]].kids != []
    requires f[n].kids[0] in Dropped(f, c) && Resumption(f, c) in Dropped(f, c)
    requires Resumes(Dropped(f, c), f[n].kids[0], Resumption(f, c))
    ensures n in Dropped(f, c) && Resumes(Dropped(f, c), n, Resumption(f, c))
  {
    var g, k := Dropped(f, c), f[n].kids[0];
    assert n !in Gone(f, c) && k != c by {
      Ok(f, n);
      Ok(f, c);
    }
    DroppedLists(f, c);
    assert g[n].kids != [] && g[n].kids[0] == k;
    hide WF, Dropped, Gone, KidsOk, AttrsOk, UpOk, TreeOk, Next, Prev, Resumption;
    LastAlone(g, n);
    LastAlone(g, k);
    if g[k].tree.kids == [] {
      FollowingFirst(g, n);
    }
  }

  lemma FollowingFirst(g: Forest, n: Node)
    requires WF(g) && n in g && g[n].kids != []
    ensures g[n].kids[0] in g && Following(g, g[n].kids[0]) == g[n].tree.kids
  {
    Ok(g, n);
    Ok(g, g[n].kids[0]);
  }

  /** A list whose first child has no children and whose last child has some stays as it is. */
  lemma ListStays(f: Forest, n: Node, c: Node)
    requires WF(f) && n in f && f[n].kids != [] && Leaf(f, c) && Next(f, c) == null
    requires f[n].kids[0] in f && f[f[n].kids[0]].kids == []
    requires LastNode(f[n].kids) in f && f[LastNode(f[n].kids)].kids != [] && LastNode(f[n].kids) in Dropped(f, c)
    ensures n in Dropped(f, c) && Dropped(f, c)[n].kids == f[n].kids
    ensures f[n].kids[0] in Dropped(f, c) ==> Dropped(f, c)[f[n].kids[0]].kids == []
  {
    hide WF, Dropped, Gone, KidsOk, AttrsOk, UpOk, Next, Prev;
    Ok(f, n);
    StaysIn(f, n, c);
    DroppedLists(f, c);
  }

  lemma ResumeLast(f: Forest, n: Node, c: Node)
    requires WF(f) && n in f && f[n].kids != [] && Leaf(f, c) && Next(f, c) == null && WF(Dropped(f, c))
    requires f[n].kids[0] in f && f[f[n].kids[0]].kids == []
    requires LastNode(f[n].kids) in f && f[LastNode(f[n].kids)].kids != []
    requires LastNode(f[n].kids) in Dropped(f, c) && Resumption(f, c) in Dropped(f, c)
    requires Resumes(Dropped(f, c), LastNode(f[n].kids), Resumption(f, c))
    ensures n in Dropped(f, c) && Resumes(Dropped(f, c), n, Resumption(f, c))
  {
    hide WF, Dropped, Gone, KidsOk, AttrsOk, UpOk, TreeOk, Next, Prev, Resumption, Following;
    var g, k, l := Dropped(f, c), f[n].kids[0], LastNode(f[n].kids);
    ListStays(f, n, c);
    LastAlone(g, n);
    LastAlone(g, k);
    LastAlone(g, l);
    FromLast(g[n].tree.kids);
    if g[l].tree.kids == [] {
      Ok(g, l);
    }
  }
}
