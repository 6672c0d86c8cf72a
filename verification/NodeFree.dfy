/** Freeing a tree: the loop, and what it does to memory. */
module NodeFree {
  import opened Bytes
  import opened Nodes
  import opened Forests
  import opened NodeOps
  import opened FreeOrder
  import opened Freeing

  /** The nodes with their attributes, which go just before them. */
  ghost function WithAttrs(f: Forest, s: seq<Node>): seq<Node>
    requires forall i | 0 <= i < |s| :: s[i] in f
  {
    if s == [] then []
    else var n := |s| - 1; WithAttrs(f, s[..n]) + f[s[n]].attrs + [s[n]]
  }

  /** After this nothing is known of any field of the node: what is read from it later cannot be relied on. */
  method FreeSingleNode(n: Node)
    modifies n
  {
    n.nodeName, n.parentNode, n.firstChild, n.prevSibling := [], null, null, null;
    n.nextSibling, n.firstAttr, n.ownerDocument := null, null, null;
  }

  /** Attributes are freed from the first to the last, each link being read before its node is freed. */
  method FreeAttrs(c: Node, ghost s: seq<Node>) returns (freed: seq<Node>)
    requires c.firstAttr == First(s) && c !in s && NoDup(s)
    requires forall i | 0 <= i < |s| :: s[i].nextSibling == After(s, i)
    modifies s
    ensures freed == s
  {
    freed := [];
    var attr := c.firstAttr;
    while attr != null
      invariant |freed| <= |s| && freed == s[..|freed|]
      invariant attr == if |freed| < |s| then s[|freed|] else null
      invariant forall i | |freed| <= i < |s| :: s[i].nextSibling == After(s, i)
      decreases |s| - |freed|
    {
      var nextAttr := attr.nextSibling;
      FreeSingleNode(attr);
      freed := freed + [attr];
      attr := nextAttr;
    }
  }

  lemma AttrsSpelled(f: Forest, c: Node)
    requires Holds(f) && c in f
    ensures c.firstAttr == First(f[c].attrs) && NoDup(f[c].attrs)
    ensures forall i | 0 <= i < |f[c].attrs| :: f[c].attrs[i] in f && f[c].attrs[i].nextSibling == After(f[c].attrs, i)
    ensures c !in f[c].attrs
  {
    Ok(f, c);
    assert RepNode(f, c);
    forall i | 0 <= i < |f[c].attrs|
      ensures f[c].attrs[i] in f && f[c].attrs[i].nextSibling == After(f[c].attrs, i)
    {
      AttrListed(f, c, i);
      assert RepNode(f, f[c].attrs[i]);
    }
  }

  /** Unlinking and freeing, told of the fields alone. */
  method UnlinkAndFree(c: Node, nodeptr: Node, ghost attrs: seq<Node>, ghost around: set<Node>)
    returns (next: Node?, freed: seq<Node>)
    requires c.firstAttr == First(attrs) && c !in attrs && NoDup(attrs)
    requires forall i | 0 <= i < |attrs| :: attrs[i].nextSibling == After(attrs, i)
    requires c != nodeptr ==> c.parentNode != null
    requires c != nodeptr ==> around == {if c.prevSibling != null then c.prevSibling else c.parentNode}
    requires c !in around && forall x | x in around :: x !in attrs
    modifies c, attrs
    modifies around`nextSibling, around`firstChild
    ensures freed == attrs + [c]
    ensures c != nodeptr ==> next == old(if c.prevSibling != null then c.prevSibling else c.parentNode)
    ensures forall x | x in around ::
              && x.nextSibling == (if c != nodeptr && old(c.prevSibling) != null then null else old(x.nextSibling))
              && x.firstChild == (if c != nodeptr && old(c.prevSibling) == null then null else old(x.firstChild))
  {
    freed := FreeAttrs(c, attrs);
    c.firstAttr := null;
    next := null;
    if c != nodeptr {
      if c.prevSibling != null {
        next := c.prevSibling;
        next.nextSibling := null;
      } else {
        next := c.parentNode;
        next.firstChild := null;
      }
    }
    FreeSingleNode(c);
    freed := freed + [c];
  }

  ghost function AroundOf(f: Forest, c: Node, nodeptr: Node): set<Node>
    requires WF(f) && c in f
  {
    var r := Resumption(f, c);
    if c != nodeptr && r != null then {r} else {}
  }

  /** Frees the attributes of `c`, unlinks it if it is not the root, and frees it. */
  method FreeLeaf(c: Node, nodeptr: Node, ghost f: Forest) returns (next: Node?, freed: seq<Node>)
    requires Holds(f) && nodeptr in f && Ends(f, c) && (c != nodeptr ==> f[c].par != null)
    modifies Gone(f, c), AroundOf(f, c, nodeptr)
    ensures freed == f[c].attrs + [c]
    ensures c != nodeptr ==> next == Resumption(f, c) && Holds(Dropped(f, c))
  {
    hide WF, Dropped, Next, Prev, KidsOk, AttrsOk, UpOk, TreeOk;
    AttrsSpelled(f, c);
    assert RepNode(f, c);
    Around(f, c);
    ghost var r := Resumption(f, c);
    next, freed := UnlinkAndFree(c, nodeptr, f[c].attrs, AroundOf(f, c, nodeptr));
    if c != nodeptr {
      forall x | x in f && x !in Gone(f, c) ensures SplicedOut(f, c, x) {
        assert old(RepNode(f, x));
        OnlyChild(f, c, x);
        if x != r {
          assert x.nextSibling == old(x.nextSibling) && x.firstChild == old(x.firstChild);
        }
      }
      DroppedRep(f, c);
    }
  }

  /** The nodes around a childless one are not freed with it. */
  lemma Around(f: Forest, c: Node)
    requires WF(f) && Ends(f, c)
    ensures Prev(f, c) != null ==> Prev(f, c) in f && Prev(f, c) != c
    ensures f[c].par != null ==>
              && Leaf(f, c) && f[c].par in f && f[c].par !in Gone(f, c)
              && Prev(f, c) !in Gone(f, c)
  {
    NeighboursIn(f, c);
    Ok(f, c);
    if f[c].par != null {
      Ok(f, f[c].par);
    }
  }

  /** A last child with no sibling before it is the first one. */
  lemma OnlyChild(f: Forest, c: Node, x: Node)
    requires WF(f) && Leaf(f, c) && Ends(f, c) && x in f && f[c].par in f
    ensures First(f[f[c].par].kids) == c <==> Prev(f, c) == null
    ensures Next(f, c) == null
  {
    Ok(f, c);
    Ok(f, f[c].par);
  }

  /** What is known between two rounds: `g` is what remains of `f`, and the search stands where it should. */
  ghost predicate Remains(f: Forest, g: Forest, nodeptr: Node, next: Node?, prev: Node)
    requires WF(g)
  {
    && nodeptr in g && Next(g, nodeptr) == null && g.Keys <= f.Keys
    && (forall x | x in g :: g[x].attrs == f[x].attrs)
    && Searching(g, next, prev, NextFreed([g[nodeptr].tree]))
  }

  /** One round on the forest. */
  lemma Round(f: Forest, g: Forest, nodeptr: Node, next: Node?, prev: Node, c: Node)
    requires WF(g) && Remains(f, g, nodeptr, next, prev) && c == NextFreed([g[nodeptr].tree]) && Ends(g, c)
    ensures Order([g[nodeptr].tree]) == [c] + (if c == nodeptr then [] else Order(Rest([g[nodeptr].tree])))
    ensures c != nodeptr ==> g[c].par != null && Leaf(g, c) && Resumption(g, c) != null
    ensures c != nodeptr ==>
              var h := Dropped(g, c);
              && WF(h) && h.Keys == g.Keys - Gone(g, c) && Remains(f, h, nodeptr, Resumption(g, c), c)
              && [h[nodeptr].tree] == Rest([g[nodeptr].tree])
  {
    var t := g[nodeptr].tree;
    OrderStep([t]);
    Ok(g, nodeptr);
    Ok(g, c);
    if t.kids != [] {
      assert NextFreed([t]) == NextFreed(t.kids);
      NextFreedIn(t.kids);
      assert Has(t, c) by {
        var i :| 0 <= i < |t.kids| && Has(t.kids[i], c);
      }
      assert c != nodeptr;
      Above(g, nodeptr, c);
      RoundDown(f, g, nodeptr, c);
    } else {
      assert Rest([t]) == [];
    }
  }

  lemma RoundDown(f: Forest, g: Forest, nodeptr: Node, c: Node)
    requires WF(g) && nodeptr in g && Next(g, nodeptr) == null && g.Keys <= f.Keys && nodeptr != c
    requires forall x | x in g :: g[x].attrs == f[x].attrs
    requires g[nodeptr].tree.kids != [] && g[nodeptr].tree.node == nodeptr
    requires c == NextFreed(g[nodeptr].tree.kids) && Ends(g, c) && g[c].par != null
    ensures Leaf(g, c) && Resumption(g, c) != null
    ensures var h := Dropped(g, c);
            && WF(h) && h.Keys == g.Keys - Gone(g, c) && Remains(f, h, nodeptr, Resumption(g, c), c)
            && [h[nodeptr].tree] == Rest([g[nodeptr].tree])
  {
    var t, h := g[nodeptr].tree, Dropped(g, c);
    hide WF, Dropped, Gone, KidsOk, AttrsOk, UpOk, TreeOk, Following, Prev, Rest, Resumption, Detached, NextFreed, Next;
    DroppedKeeps(g, c);
    DroppedTree(g, nodeptr, c);
    DroppedLists(g, c);
    Resume(g, nodeptr, c);
    RootStays(g, nodeptr, c);
    RestOne(t);
    ResumptionIs(g, c);
    SearchGoesOn(h, nodeptr, Resumption(g, c), c);
    hide Searching, Leaf, Resumes;
  }

  lemma SearchGoesOn(h: Forest, n: Node, r: Node, prev: Node)
    requires WF(h) && n in h && r in h && Next(h, n) == null && Resumes(h, n, r)
    ensures Searching(h, r, prev, NextFreed([h[n].tree]))
  {
    hide WF, NextFreed, Next, Following;
    NextOne(h[n].tree);
    if h[n].tree.kids == [] {
      GoRight(h, n);
    }
  }

  lemma ResumptionIs(g: Forest, c: Node)
    requires WF(g) && c in g && g[c].par != null
    ensures Resumption(g, c) != null
  {
  }

  lemma NextOne(t: Rose)
    ensures NextFreed([t]) == if t.kids != [] then NextFreed(t.kids) else t.node
  {
  }

  lemma RestOne(t: Rose)
    requires t.kids != []
    ensures Rest([t]) == [Rose(t.node, Rest(t.kids))]
  {
  }

  lemma RootStays(g: Forest, n: Node, c: Node)
    requires WF(g) && n in g && Next(g, n) == null && Leaf(g, c) && c != n
    requires WF(Dropped(g, c)) && n in Dropped(g, c) && Next(g, c) == null
    ensures Next(Dropped(g, c), n) == null
  {
    DroppedKeeps(g, c);
    DetachedLinks(g, c, n);
    DroppedLinks(g, c, n);
  }

  lemma {:induction false} WithAttrsSame(f: Forest, s: seq<Node>, c: Node)
    requires (forall i | 0 <= i < |s| :: s[i] in f) && c in f
    ensures WithAttrs(f, s + [c]) == WithAttrs(f, s) + (f[c].attrs + [c])
  {
    assert (s + [c])[..|s|] == s;
  }

  lemma WithAttrsEmpty(f: Forest)
    ensures WithAttrs(f, []) == []
  {
  }

  lemma OrderInForest(f: Forest, n: Node)
    requires WF(f) && n in f
    ensures forall i | 0 <= i < |Order([f[n].tree])| :: Order([f[n].tree])[i] in f
  {
    var s := Order([f[n].tree]);
    OrderIsPermutation([f[n].tree]);
    forall i | 0 <= i < |s| ensures s[i] in f {
      assert s[i] in multiset(s);
      assert s[i] in Preorder([f[n].tree]);
      InPreorder([f[n].tree], s[i]);
      Edits.HasOne(f[n].tree, s[i]);
      HasInForest(f, n, s[i]);
    }
  }

  /**
   Frees a node without a next sibling and everything below it. The order in which nodes are handed to the
   before-free handler is that of `Order`, each node is freed right after its attributes, and no other node
   is touched.
   */
  method NodeFree(nodeptr: Node?, ghost f: Forest) returns (freed: seq<Node>, handled: seq<Node>)
    requires nodeptr != null ==> Holds(f) && nodeptr in f && Next(f, nodeptr) == null
    modifies f.Keys
    ensures nodeptr == null ==> freed == [] && handled == []
    ensures nodeptr != null ==> handled == Order([f[nodeptr].tree])
    ensures nodeptr != null ==> (forall i | 0 <= i < |handled| :: handled[i] in f) && freed == WithAttrs(f, handled)
    ensures forall x | x in f && x !in freed :: unchanged(x)
  {
    hide WF, Rep, Next, Order, Preorder, Searching, WithAttrs, Remains;
    freed, handled := [], [];
    if nodeptr == null {
      return;
    }
    var next, prev: Node, done := nodeptr.firstChild, nodeptr, false;
    ghost var g: Forest := f;
    OrderInForest(f, nodeptr);
    StartOf(f, nodeptr);
    assert WithAttrs(f, []) == [] by { WithAttrsEmpty(f); }
    ghost var all := WithAttrs(f, Order([f[nodeptr].tree]));
    while !done
      invariant !done ==> Holds(g) && nodeptr in g && Remains(f, g, nodeptr, next, prev)
      invariant !done ==> handled + Order([g[nodeptr].tree]) == Order([f[nodeptr].tree])
      invariant done ==> handled == Order([f[nodeptr].tree])
      invariant g.Keys <= f.Keys && (forall i | 0 <= i < |handled| :: handled[i] in f)
      invariant freed == WithAttrs(f, handled)
      invariant forall x | x in f && x !in all :: unchanged(x)
      decreases !done, |g.Keys|
    {
      var c: Node, now: seq<Node>;
      ghost var h: Forest;
      c, next, now, h := FreeNext(nodeptr, next, prev, f, g, handled);
      WithAttrsSame(f, handled, c);
      Assoc(handled, [c], if c == nodeptr then [] else Order([h[nodeptr].tree]));
      ConcatNone(handled + [c]);
      handled := handled + [c];
      freed := freed + now;
      prev := c;
      done := c == nodeptr;
      g := h;
    }
  }

  /** One round: the node freed next is found and freed with its attributes. */
  method FreeNext(nodeptr: Node, next: Node?, prev: Node, ghost f: Forest, ghost g: Forest, ghost handled: seq<Node>)
    returns (c: Node, next': Node?, now: seq<Node>, ghost h: Forest)
    requires WF(f) && nodeptr in f && Holds(g) && nodeptr in g && Remains(f, g, nodeptr, next, prev) && g.Keys <= f.Keys
    requires handled + Order([g[nodeptr].tree]) == Order([f[nodeptr].tree])
    requires forall i | 0 <= i < |Order([f[nodeptr].tree])| :: Order([f[nodeptr].tree])[i] in f
    modifies g.Keys
    ensures c in f && now == f[c].attrs + [c] && h.Keys <= g.Keys
    ensures c != nodeptr ==> Holds(h) && nodeptr in h && Remains(f, h, nodeptr, next', c) && |h.Keys| < |g.Keys|
    ensures Order([g[nodeptr].tree]) == [c] + (if c == nodeptr then [] else Order([h[nodeptr].tree]))
    ensures forall x | x in g && x !in WithAttrs(f, Order([f[nodeptr].tree])) :: unchanged(x)
  {
    hide WF, Rep, Next, Order, Preorder, Dropped, Gone, Searching, Following, WithAttrs, AroundOf, Rest, NextFreed,
         Resumption, Leaf;
    c := NextToFree(next, prev, g, NextFreed([g[nodeptr].tree]));
    Round(f, g, nodeptr, next, prev, c);
    GoneIn(g, c, nodeptr);
    TouchedIn(f, g, nodeptr, c, handled);
    h := if c == nodeptr then g else Dropped(g, c);
    next', now := FreeLeaf(c, nodeptr, g);
    if c != nodeptr {
      FewerKeys(g.Keys, Gone(g, c), c);
    }
  }

  lemma FewerKeys(s: set<Node>, gone: set<Node>, c: Node)
    requires c in s && c in gone
    ensures |s - gone| < |s| && s - gone <= s
  {
    assert s == (s - gone) + (s * gone);
    assert c in s * gone;
  }

  lemma {:induction false} InWithAttrs(f: Forest, s: seq<Node>, k: nat)
    requires (forall i | 0 <= i < |s| :: s[i] in f) && k < |s|
    ensures s[k] in WithAttrs(f, s) && forall a | a in f[s[k]].attrs :: a in WithAttrs(f, s)
  {
    var n := |s| - 1;
    if k < n {
      InWithAttrs(f, s[..n], k);
    }
  }

  /** What is still in the tree is freed sooner or later, with its attributes. */
  lemma StillToCome(f: Forest, g: Forest, nodeptr: Node, x: Node, handled: seq<Node>)
    requires WF(f) && WF(g) && nodeptr in f && nodeptr in g && Has(g[nodeptr].tree, x)
    requires handled + Order([g[nodeptr].tree]) == Order([f[nodeptr].tree])
    requires forall i | 0 <= i < |Order([f[nodeptr].tree])| :: Order([f[nodeptr].tree])[i] in f
    ensures x in f && x in WithAttrs(f, Order([f[nodeptr].tree]))
    ensures forall a | a in f[x].attrs :: a in WithAttrs(f, Order([f[nodeptr].tree]))
  {
    hide WF, Order, WithAttrs, Has;
    var s := Order([f[nodeptr].tree]);
    var k := OrderHas(g, nodeptr, x);
    assert s[|handled| + k] == x;
    InWithAttrs(f, s, |handled| + k);
  }

  /** A round touches only nodes that are freed sooner or later. */
  lemma TouchedIn(f: Forest, g: Forest, nodeptr: Node, c: Node, handled: seq<Node>)
    requires WF(f) && WF(g) && nodeptr in f && nodeptr in g && Ends(g, c)
    requires forall x | x in g :: x in f && g[x].attrs == f[x].attrs
    requires handled + Order([g[nodeptr].tree]) == Order([f[nodeptr].tree])
    requires c == NextFreed([g[nodeptr].tree])
    requires forall i | 0 <= i < |Order([f[nodeptr].tree])| :: Order([f[nodeptr].tree])[i] in f
    ensures var all := WithAttrs(f, Order([f[nodeptr].tree]));
            && (forall x | x in Gone(g, c) :: x in all) && (forall x | x in AroundOf(g, c, nodeptr) :: x in all)
  {
    hide WF, Order, WithAttrs, Has, NextFreed, Next, Resumption;
    NextFreedIn([g[nodeptr].tree]);
    Edits.HasOne(g[nodeptr].tree, c);
    StillToCome(f, g, nodeptr, c, handled);
    if c != nodeptr && Resumption(g, c) != null {
      ResumptionBelow(g, nodeptr, c);
      StillToCome(f, g, nodeptr, Resumption(g, c), handled);
    }
  }

  lemma OrderHas(g: Forest, n: Node, x: Node) returns (k: nat)
    requires WF(g) && n in g && Has(g[n].tree, x)
    ensures k < |Order([g[n].tree])| && Order([g[n].tree])[k] == x
  {
    Edits.HasOne(g[n].tree, x);
    InPreorder([g[n].tree], x);
    k := InOrder([g[n].tree], x);
  }

  lemma ResumptionBelow(g: Forest, n: Node, c: Node)
    requires WF(g) && n in g && c in g && Has(g[n].tree, c) && c != n && Resumption(g, c) != null
    ensures Has(g[n].tree, Resumption(g, c))
  {
    Above(g, n, c);
    Ok(g, c);
    Ok(g, g[c].par);
    var r := Resumption(g, c);
    if r != n {
      BelowByParent(g, n, r);
    }
  }

  lemma GoneIn(g: Forest, c: Node, nodeptr: Node)
    requires WF(g) && c in g
    ensures Gone(g, c) <= g.Keys && c in Gone(g, c) && AroundOf(g, c, nodeptr) <= g.Keys
  {
    AttrsIn(g, c);
    NeighboursIn(g, c);
    Ok(g, c);
  }

  lemma StartOf(f: Forest, n: Node)
    requires Holds(f) && n in f && Next(f, n) == null
    ensures Remains(f, f, n, n.firstChild, n)
  {
    assert RepNode(f, n);
    GoRight(f, n);
    Ok(f, n);
    if f[n].kids != [] {
      GoDown(f, n);
    }
  }

  // ----- what the order means

  /** Exactly the nodes of the tree are handed over, each once. */
  lemma HandledOnce(f: Forest, n: Node)
    requires WF(f) && n in f
    ensures NoDup(Order([f[n].tree])) && forall x :: x in Order([f[n].tree]) <==> Has(f[n].tree, x)
  {
    hide WF;
    var t := f[n].tree;
    TreeNoDup(f, n);
    OrderIsPermutation([t]);
    NoDupMultiset(Preorder([t]), Order([t]));
    forall x ensures x in Order([t]) <==> Has(t, x) {
      InPreorder([t], x);
      Edits.HasOne(t, x);
      assert x in Order([t]) <==> x in multiset(Preorder([t]));
    }
  }

  /** The number of times an element occurs. */
  lemma {:induction false} CountOne(s: seq<Node>, x: Node)
    ensures NoDup(s) ==> multiset(s)[x] <= 1
    ensures !NoDup(s) ==> exists y :: multiset(s)[y] > 1
  {
    if s != [] {
      var n := |s| - 1;
      CountOne(s[..n], x);
      assert s == s[..n] + [s[n]];
      if NoDup(s[..n]) && !NoDup(s) {
        var i, j :| 0 <= i < j < |s| && s[i] == s[j];
        assert j == n && s[i] in s[..n];
        assert multiset(s)[s[n]] > 1;
      } else if !NoDup(s[..n]) {
        var y :| multiset(s[..n])[y] > 1;
        assert multiset(s)[y] > 1;
      }
    }
  }

  lemma NoDupMultiset(a: seq<Node>, b: seq<Node>)
    requires NoDup(a) && multiset(a) == multiset(b)
    ensures NoDup(b)
  {
    forall i, j | 0 <= i < j < |b| ensures b[i] != b[j] {
      if b[i] == b[j] {
        CountOne(b, b[i]);
        CountOne(a, b[i]);
        var y :| multiset(b)[y] > 1;
        CountOne(a, y);
      }
    }
  }

  lemma {:induction false} InWithAttrsOf(f: Forest, s: seq<Node>, x: Node)
    requires (forall i | 0 <= i < |s| :: s[i] in f) && x in WithAttrs(f, s)
    ensures x in s || exists i | 0 <= i < |s| :: x in f[s[i]].attrs
  {
    var n := |s| - 1;
    if x in WithAttrs(f, s[..n]) {
      InWithAttrsOf(f, s[..n], x);
    }
  }

  /** Nodes that hold no member of the list have it and their attributes freed once. */
  lemma {:induction false} WithAttrsNoDup(f: Forest, s: seq<Node>)
    requires WF(f) && NoDup(s) && forall i | 0 <= i < |s| :: s[i] in f
    requires forall i, a | 0 <= i < |s| && a in f[s[i]].attrs :: a !in s
    ensures NoDup(WithAttrs(f, s))
  {
    if s != [] {
      var n := |s| - 1;
      var a, b, x := WithAttrs(f, s[..n]), f[s[n]].attrs, [s[n]];
      forall i, y | 0 <= i < n && y in f[s[..n][i]].attrs ensures y !in s[..n] {
        ghost var z := s[i];
        assert y in f[z].attrs && y !in s;
        assert s == s[..n] + [s[n]];
      }
      WithAttrsNoDup(f, s[..n]);
      Ok(f, s[n]);
      assert NoDup(b);
      assert forall y | y in b :: y !in x by {
        assert s[n] in s;
      }
      NoDupConcat(b, x);
      forall y | y in a ensures y !in b + x {
        InWithAttrsOf(f, s[..n], y);
        if y in s[..n] {
          var i :| 0 <= i < n && s[i] == y;
          assert y in s;
        } else {
          var i :| 0 <= i < n && y in f[s[..n][i]].attrs;
          Ok(f, s[i]);
          assert s[n] in s;
        }
      }
      NoDupConcat(a, b + x);
      assert WithAttrs(f, s) == a + (b + x);
    }
  }

  /** Every node of the tree and every attribute is freed exactly once. */
  lemma FreedOnce(f: Forest, n: Node)
    requires WF(f) && n in f
    ensures forall i | 0 <= i < |Order([f[n].tree])| :: Order([f[n].tree])[i] in f
    ensures NoDup(WithAttrs(f, Order([f[n].tree])))
  {
    var s := Order([f[n].tree]);
    HandledOnce(f, n);
    OrderInForest(f, n);
    hide WF, Order, Has, WithAttrs;
    forall i, a | 0 <= i < |s| && a in f[s[i]].attrs ensures a !in s {
      assert s[i] in s;
      AttrNotBelow(f, n, s[i], a);
    }
    WithAttrsNoDup(f, s);
  }

  lemma AttrNotBelow(f: Forest, n: Node, x: Node, a: Node)
    requires WF(f) && n in f && x in f && Has(f[n].tree, x) && a in f[x].attrs
    ensures !Has(f[n].tree, a)
  {
    Ok(f, x);
    Ok(f, n);
    if Has(f[n].tree, a) {
      if a != n {
        Above(f, n, a);
      }
      assert false;
    }
  }

  /** It is the reverse of document order exactly if no first child with a sibling after it has children. */
  lemma HandledInReverse(f: Forest, n: Node)
    requires WF(f) && n in f
    ensures Order([f[n].tree]) == Reverse(Preorder([f[n].tree])) <==> Lean([f[n].tree])
  {
    TreeNoDup(f, n);
    ReverseIffLean([f[n].tree]);
  }
}
