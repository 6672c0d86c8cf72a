/** Taking a child out of its list and freeing it, and what remains then. */
module Disposal {
  import opened Nodes
  import opened Forests
  import opened Edits
  import opened NodeOps
  import opened FreeOrder
  import opened Freeing
  import opened NodeFree

  /** The nodes that go with a tree: those in it, and their attributes. */
  ghost predicate GoesWith(f: Forest, c: Node, x: Node)
    requires c in f
  {
    x in f && (Has(f[c].tree, x) || (f[x].hold != null && Has(f[c].tree, f[x].hold)))
  }

  ghost function WithoutTree(f: Forest, c: Node): Forest
    requires c in f
  {
    map x | x in f && !GoesWith(f, c, x) :: f[x]
  }

  lemma KidsStay(f: Forest, c: Node, n: Node)
    requires WF(f) && Free(f, c) && n in f && !GoesWith(f, c, n)
    ensures KidsOk(WithoutTree(f, c), n) && TreeOk(WithoutTree(f, c), n)
  {
    Ok(f, n);
    hide WF, Has;
    forall i | 0 <= i < |f[n].kids| ensures !GoesWith(f, c, f[n].kids[i]) {
      var k := f[n].kids[i];
      if k != c {
        BelowByParent(f, c, k);
      }
    }
  }

  lemma AttrsStay(f: Forest, c: Node, n: Node)
    requires WF(f) && Free(f, c) && n in f && !GoesWith(f, c, n)
    ensures AttrsOk(WithoutTree(f, c), n)
  {
    Ok(f, n);
    hide WF, Has;
    forall i | 0 <= i < |f[n].attrs| ensures !GoesWith(f, c, f[n].attrs[i]) {
      var a := f[n].attrs[i];
      if a != c {
        BelowByParent(f, c, a);
      }
    }
  }

  lemma UpStays(f: Forest, c: Node, x: Node)
    requires WF(f) && Free(f, c) && x in f && !GoesWith(f, c, x)
    ensures UpOk(WithoutTree(f, c), x)
  {
    Ok(f, x);
    var p, h := f[x].par, f[x].hold;
    if p != null {
      ParentStays(f, c, x);
    }
    if h != null {
      HolderStays(f, c, x);
    }
  }

  lemma ParentStays(f: Forest, c: Node, x: Node)
    requires WF(f) && Free(f, c) && x in f && !GoesWith(f, c, x) && f[x].par != null
    ensures f[x].par in f && !GoesWith(f, c, f[x].par)
  {
    Ok(f, x);
    var p := f[x].par;
    Ok(f, p);
    EitherList(f, p);
    hide WF;
    if x != c {
      BelowByParent(f, c, x);
    }
  }

  lemma HolderStays(f: Forest, c: Node, x: Node)
    requires WF(f) && Free(f, c) && x in f && !GoesWith(f, c, x) && f[x].hold != null
    ensures f[x].hold in f && !GoesWith(f, c, f[x].hold)
  {
    Ok(f, x);
    EitherList(f, f[x].hold);
    hide WF, Has;
  }

  /** Without a detached tree a forest is still one. */
  lemma RestIsForest(f: Forest, c: Node)
    requires WF(f) && Free(f, c)
    ensures WF(WithoutTree(f, c))
  {
    hide GoesWith, KidsOk, AttrsOk, UpOk, TreeOk;
    var g := WithoutTree(f, c);
    forall n | n in g ensures KidsOk(g, n) && AttrsOk(g, n) && UpOk(g, n) && TreeOk(g, n) {
      KidsStay(f, c, n);
      AttrsStay(f, c, n);
      UpStays(f, c, n);
    }
  }

  lemma NeighboursStay(f: Forest, c: Node, x: Node)
    requires WF(f) && Free(f, c) && WF(WithoutTree(f, c)) && x in WithoutTree(f, c)
    ensures Next(WithoutTree(f, c), x) == Next(f, x) && Prev(WithoutTree(f, c), x) == Prev(f, x)
  {
    Ok(f, x);
    Ok(WithoutTree(f, c), x);
    hide WF, GoesWith;
  }

  lemma FreedGoes(f: Forest, c: Node, s: seq<Node>, x: Node)
    requires WF(f) && c in f && (forall i | 0 <= i < |s| :: s[i] in f) && x in WithAttrs(f, s)
    requires forall y | y in s :: Has(f[c].tree, y)
    ensures GoesWith(f, c, x)
  {
    hide WithAttrs, Has;
    InWithAttrsOf(f, s, x);
    if x !in s {
      var i :| 0 <= i < |s| && x in f[s[i]].attrs;
      Ok(f, s[i]);
      hide WF;
      assert s[i] in s;
    }
  }

  lemma GoesFreed(f: Forest, c: Node, s: seq<Node>, x: Node)
    requires WF(f) && c in f && (forall i | 0 <= i < |s| :: s[i] in f) && GoesWith(f, c, x)
    requires forall y :: Has(f[c].tree, y) ==> y in s
    ensures x in WithAttrs(f, s)
  {
    Ok(f, x);
    hide WithAttrs, Has, WF;
    var y := if Has(f[c].tree, x) then x else f[x].hold;
    assert y in s;
    var k :| 0 <= k < |s| && s[k] == y;
    InWithAttrs(f, s, k);
  }

  /** The nodes that are freed with a tree are those that go with it. */
  lemma FreedIffGoes(f: Forest, c: Node, x: Node)
    requires WF(f) && c in f
    requires forall i | 0 <= i < |Order([f[c].tree])| :: Order([f[c].tree])[i] in f
    ensures x in WithAttrs(f, Order([f[c].tree])) <==> GoesWith(f, c, x)
  {
    var s := Order([f[c].tree]);
    HandledOnce(f, c);
    hide Order, WithAttrs, Has, GoesWith, WF;
    if x in WithAttrs(f, s) {
      FreedGoes(f, c, s, x);
    }
    if GoesWith(f, c, x) {
      GoesFreed(f, c, s, x);
    }
  }

  /** What is freed with the child, and the forest that remains. */
  ghost predicate Disposed(g: Forest, c: Node, freed: seq<Node>, f': Forest)
    reads f'.Keys
  {
    && WF(g) && c in g && (forall i | 0 <= i < |Order([g[c].tree])| :: Order([g[c].tree])[i] in g)
    && freed == WithAttrs(g, Order([g[c].tree])) && f' == WithoutTree(g, c) && Holds(f')
  }

  method FreeDetached(c: Node, ghost g: Forest) returns (freed: seq<Node>, ghost f': Forest)
    requires Holds(g) && Free(g, c)
    modifies g.Keys
    ensures Disposed(g, c, freed, f')
  {
    hide WF, Next, Prev, Order, WithAttrs, GoesWith;
    FreeLinks(g, c);
    OrderInForest(g, c);
    var handled;
    freed, handled := NodeFree.NodeFree(c, g);
    RestIsForest(g, c);
    f' := WithoutTree(g, c);
    forall x | x in f' ensures RepNode(f', x) {
      FreedIffGoes(g, c, x);
      NeighboursStay(g, c, x);
      assert old(RepNode(g, x));
    }
  }

  /** ixmlNode_removeChild, called without a place for the old child. */
  method RemoveAndFree(nodeptr: Node?, oldChild: Node?, ghost f: Forest)
    returns (rc: Status, freed: seq<Node>, ghost f': Forest)
    requires Holds(f) && (oldChild != null ==> oldChild in f)
    modifies f.Keys
    ensures Holds(f')
    ensures rc == if nodeptr == null || oldChild == null then InvalidParameter
                  else if f[oldChild].par != nodeptr then NotFoundErr
                  else Success
    ensures rc == Success ==> Disposed(Detached(f, oldChild), oldChild, freed, f')
    ensures rc != Success ==> f' == f && freed == [] && Untouched(f)
  {
    hide WF, Rep, Detached, Disposed;
    freed := [];
    rc, f' := RemoveChild(nodeptr, oldChild, f);
    if rc == Success {
      DetachedKeeps(f, oldChild);
      freed, f' := FreeDetached(oldChild, f');
      DisposedHolds(Detached(f, oldChild), oldChild, freed, f');
    }
  }

  lemma DisposedHolds(g: Forest, c: Node, freed: seq<Node>, f': Forest)
    requires Disposed(g, c, freed, f')
    ensures Holds(f')
  {
  }

  /** ixmlNode_replaceChild, called without a place for the old child. */
  method ReplaceAndFree(nodeptr: Node?, newChild: Node?, oldChild: Node?, ghost f: Forest)
    returns (rc: Status, freed: seq<Node>, ghost g: Forest, ghost f': Forest)
    requires Holds(f) && (nodeptr != null ==> nodeptr in f) && (newChild != null ==> newChild in f)
    requires oldChild != null ==> oldChild in f
    requires ReplaceStatus(f, nodeptr, newChild, oldChild) == Success ==>
               Placeable(f, nodeptr, newChild) && newChild != oldChild
    modifies f.Keys
    ensures Holds(f')
    ensures rc == old(ReplaceStatus(f, nodeptr, newChild, oldChild))
    ensures rc == Success ==> Exchanged(f, nodeptr, newChild, oldChild, g) && Disposed(g, oldChild, freed, f')
    ensures rc != Success ==> f' == f && freed == [] && Untouched(f)
  {
    hide WF, Rep, Replaced, Disposed;
    freed := [];
    rc, g := ReplaceChild(nodeptr, newChild, oldChild, f);
    f' := g;
    if rc == Success {
      ReplacedKeeps(f, nodeptr, newChild, oldChild);
      freed, f' := FreeDetached(oldChild, g);
      DisposedHolds(g, oldChild, freed, f');
    }
  }
}
