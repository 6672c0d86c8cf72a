/** Changing the child lists of a document in place. */
module NodeOps {
  import opened Bytes
  import opened Nodes
  import opened Forests
  import opened Edits

  datatype Status =
    | Success | InvalidParameter | HierarchyRequestErr | WrongDocumentErr | NotFoundErr | InUseAttributeErr
    | InvalidCharacterErr | NotSupportedErr | Failed

  /** Nothing in the forest has changed. */
  twostate predicate Untouched(f: Forest)
    reads f.Keys
  {
    forall x | x in f :: unchanged(x)
  }

  /**
   Whether the parent of `toFind` is below `ancestorNode` or, because the recursion also follows
   siblings, below one of the siblings after it.
   */
  method IsAncestor(ancestorNode: Node?, toFind: Node, ghost f: Forest, ghost ts: seq<Rose>) returns (found: bool)
    requires Holds(f) && toFind in f && Chain(f, ancestorNode, ts)
    ensures found <==> f[toFind].par != null && HasAny(ts, f[toFind].par)
    decreases ts
  {
    hide WF, Chain, Has, HasAny, Next, Prev;
    if ancestorNode == null {
      ChainEmpty(f, ts);
      return false;
    }
    ChainStep(f, ancestorNode, ts);
    HasFirst(ts, f[toFind].par);
    assert RepNode(f, toFind) && RepNode(f, ancestorNode);
    if toFind.parentNode == ancestorNode {
      return true;
    }
    found := IsAncestor(ancestorNode.firstChild, toFind, f, ts[0].kids);
    if !found {
      found := IsAncestor(ancestorNode.nextSibling, toFind, f, ts[1..]);
    }
  }

  lemma ChainEmpty(f: Forest, ts: seq<Rose>)
    requires WF(f) && Chain(f, null, ts)
    ensures ts == [] && forall p: Node? :: p != null ==> !HasAny(ts, p)
  {
  }

  /** The lists the recursion goes on with. */
  lemma ChainStep(f: Forest, a: Node, ts: seq<Rose>)
    requires WF(f) && Chain(f, a, ts)
    ensures ts != [] && a in f && ts[0].node == a
    ensures Chain(f, First(f[a].kids), ts[0].kids) && Chain(f, Next(f, a), ts[1..])
  {
    ChainNext(f, a, ts);
    ChainKids(f, a);
    Ok(f, a);
  }

  lemma HasFirst(ts: seq<Rose>, p: Node?)
    requires ts != []
    ensures p != null ==> (HasAny(ts, p) <==> ts[0].node == p || HasAny(ts[0].kids, p) || HasAny(ts[1..], p))
  {
    if p != null && HasAny(ts, p) {
      var i :| 0 <= i < |ts| && Has(ts[i], p);
      if i > 0 {
        assert Has(ts[1..][i - 1], p);
      }
    }
    if p != null && HasAny(ts[1..], p) {
      var i :| 0 <= i < |ts[1..]| && Has(ts[1..][i], p);
      assert Has(ts[i + 1], p);
    }
    if p != null && (ts[0].node == p || HasAny(ts[0].kids, p)) {
      assert Has(ts[0], p);
    }
  }

  method IsParent(nodeptr: Node, toFind: Node, ghost f: Forest) returns (found: bool)
    requires Holds(f) && toFind in f
    ensures found <==> f[toFind].par == nodeptr
  {
    assert RepNode(f, toFind);
    found := toFind.parentNode == nodeptr;
  }

  /** The fields of `x` that link it to other nodes, and its label. */
  ghost predicate HasLinks(x: Node, par: Node?, firstChild: Node?, next: Node?, prev: Node?, firstAttr: Node?,
                           lab: Label)
    reads x
  {
    && x.parentNode == par && x.firstChild == firstChild && x.nextSibling == next && x.prevSibling == prev
    && x.firstAttr == firstAttr && x.nodeType == lab.typ && x.nodeName == lab.name && x.nodeValue == lab.value
  }

  /** What splicing out `c` makes of the links of `x`. */
  ghost predicate SplicedOut(f: Forest, c: Node, x: Node)
    requires WF(f) && c in f && x in f
    reads x
  {
    HasLinks(x, if x == c then null else f[x].par,
           if x == f[c].par && First(f[x].kids) == c then Next(f, c) else First(f[x].kids),
           if x == c then null else if x == Prev(f, c) then Next(f, c) else Next(f, x),
           if x == c then null else if x == Next(f, c) then Prev(f, c) else Prev(f, x),
           First(f[x].attrs), f[x].lab)
  }

  /** From the links `x` had, which were those of the forest, and those it has now. */
  lemma SplicedOutNow(f: Forest, c: Node, x: Node, par: Node?, first: Node?, next: Node?, prev: Node?)
    requires WF(f) && x in f && c in f
    requires par == f[x].par && first == First(f[x].kids) && next == Next(f, x) && prev == Prev(f, x)
    requires x.firstAttr == First(f[x].attrs) && Label(x.nodeType, x.nodeName, x.nodeValue) == f[x].lab
    requires x.parentNode == if x == c then null else par
    requires x.firstChild == if x == f[c].par && first == c then Next(f, c) else first
    requires x.nextSibling == if x == c then null else if x == Prev(f, c) then Next(f, c) else next
    requires x.prevSibling == if x == c then null else if x == Next(f, c) then Prev(f, c) else prev
    ensures SplicedOut(f, c, x)
  {
    hide WF, Next, Prev;
  }

  lemma SplicedOutRep(f: Forest, c: Node)
    requires WF(f) && c in f && f[c].par != null && forall x | x in f :: SplicedOut(f, c, x)
    ensures Holds(Detached(f, c)) && Detached(f, c).Keys == f.Keys
  {
    DetachedKeeps(f, c);
    hide WF, Detached, Next, Prev, KidsOk, AttrsOk, UpOk, TreeOk;
    var f' := Detached(f, c);
    forall x | x in f' ensures RepNode(f', x) {
      assert SplicedOut(f, c, x);
      DetachedLinks(f, c, x);
      DetachedRest(f, c, x);
    }
  }

  /** The assignments of removeChild, told of the fields alone. */
  method Unlink(nodeptr: Node, oldChild: Node, ghost nodes: set<Node>)
    requires nodeptr in nodes && oldChild in nodes && nodeptr != oldChild
    requires oldChild.prevSibling != null ==> oldChild.prevSibling in nodes && oldChild.prevSibling != oldChild
    requires oldChild.nextSibling != null ==> oldChild.nextSibling in nodes && oldChild.nextSibling != oldChild
    modifies nodes`parentNode, nodes`firstChild, nodes`prevSibling, nodes`nextSibling
    ensures forall x | x in nodes ::
              x.nextSibling == if x == oldChild then null
                               else if x == old(oldChild.prevSibling) then old(oldChild.nextSibling)
                               else old(x.nextSibling)
    ensures forall x | x in nodes ::
              x.prevSibling == if x == oldChild then null
                               else if x == old(oldChild.nextSibling) then old(oldChild.prevSibling)
                               else old(x.prevSibling)
    ensures forall x | x in nodes :: x.parentNode == if x == oldChild then null else old(x.parentNode)
    ensures forall x | x in nodes ::
              x.firstChild == if x == nodeptr && old(x.firstChild) == oldChild then old(oldChild.nextSibling)
                              else old(x.firstChild)
  {
    if oldChild.prevSibling != null {
      oldChild.prevSibling.nextSibling := oldChild.nextSibling;
    }
    if nodeptr.firstChild == oldChild {
      nodeptr.firstChild := oldChild.nextSibling;
    }
    if oldChild.nextSibling != null {
      oldChild.nextSibling.prevSibling := oldChild.prevSibling;
    }
    oldChild.nextSibling := null;
    oldChild.prevSibling := null;
    oldChild.parentNode := null;
  }

  /** Removing `oldChild` splices it out of the child list and leaves it without a parent and siblings. */
  method RemoveChild(nodeptr: Node?, oldChild: Node?, ghost f: Forest) returns (rc: Status, ghost f': Forest)
    requires Holds(f) && (oldChild != null ==> oldChild in f)
    modifies f.Keys`parentNode, f.Keys`firstChild, f.Keys`prevSibling, f.Keys`nextSibling
    ensures Holds(f')
    ensures rc == if nodeptr == null || oldChild == null then InvalidParameter
                  else if f[oldChild].par != nodeptr then NotFoundErr
                  else Success
    ensures rc == Success ==> f' == Detached(f, oldChild)
    ensures rc != Success ==> f' == f && Untouched(f)
  {
    hide WF, Rep, Detached;
    f' := f;
    if nodeptr == null || oldChild == null {
      return InvalidParameter, f;
    }
    var isParent := IsParent(nodeptr, oldChild, f);
    if !isParent {
      return NotFoundErr, f;
    }
    UnlinkChild(nodeptr, oldChild, f);
    return Success, Detached(f, oldChild);
  }

  method UnlinkChild(nodeptr: Node, oldChild: Node, ghost f: Forest)
    requires Holds(f) && oldChild in f && f[oldChild].par == nodeptr
    modifies f.Keys`parentNode, f.Keys`firstChild, f.Keys`prevSibling, f.Keys`nextSibling
    ensures Holds(Detached(f, oldChild)) && Detached(f, oldChild).Keys == f.Keys
  {
    hide WF, SplicedOut, Detached;
    SpliceOut(nodeptr, oldChild, f);
    SplicedOutRep(f, oldChild);
  }

  method SpliceOut(nodeptr: Node, oldChild: Node, ghost f: Forest)
    requires Holds(f) && oldChild in f && f[oldChild].par == nodeptr
    modifies f.Keys`parentNode, f.Keys`firstChild, f.Keys`prevSibling, f.Keys`nextSibling
    ensures forall x | x in f :: SplicedOut(f, oldChild, x)
  {
    hide WF, Next, Prev, SplicedOut;
    ParentIn(f, oldChild);
    NeighboursIn(f, oldChild);
    NotOwnParent(f, oldChild);
    Fields(f, oldChild);
    Unlink(nodeptr, oldChild, f.Keys);
    forall x | x in f ensures SplicedOut(f, oldChild, x) {
      assert old(RepNode(f, x));
      SplicedOutNow(f, oldChild, x, old(x.parentNode), old(x.firstChild), old(x.nextSibling), old(x.prevSibling));
    }
  }

  lemma ParentIn(f: Forest, x: Node)
    requires WF(f) && x in f
    ensures f[x].par != null ==> f[x].par in f
  {
    Ok(f, x);
  }

  lemma NotOwnParent(f: Forest, x: Node)
    requires WF(f) && x in f
    ensures f[x].par != x
  {
    Ok(f, x);
    var p := f[x].par;
    if p != null {
      NotBelowKid(f, p, f[x].pos);
      assert Has(f[x].tree, x);
    }
  }

  /** The neighbours of a node are in the forest, and look back at it. */
  lemma NeighboursIn(f: Forest, x: Node)
    requires WF(f) && x in f
    ensures Prev(f, x) != null ==> Prev(f, x) in f && Next(f, Prev(f, x)) == x && Prev(f, x) != x
    ensures Next(f, x) != null ==> Next(f, x) in f && Prev(f, Next(f, x)) == x && Next(f, x) != x
  {
    Ok(f, x);
    if f[x].par != null {
      Ok(f, f[x].par);
    } else if f[x].hold != null {
      Ok(f, f[x].hold);
    }
    EitherList(f, x);
    var p, n := Prev(f, x), Next(f, x);
    if p != null {
      assert p in f;
      Ok(f, p);
    }
    if n != null {
      assert n in f;
      Ok(f, n);
    }
    hide WF, TreeOk;
  }

  // ----- putting a child in

  /** What splicing in `c` between `prev` and `next` makes of the links of `x`. */
  ghost predicate SplicedIn(f: Forest, p: Node, c: Node, i: nat, x: Node)
    requires WF(f) && p in f && c in f && x in f && i <= |f[p].kids|
    reads x
  {
    var s := f[p].kids;
    HasLinks(x, if x == c then p else f[x].par,
           if x == p && i == 0 then c else First(f[x].kids),
           if x == c then if i < |s| then s[i] else null else if i > 0 && x == s[i - 1] then c else Next(f, x),
           if x == c then if i > 0 then s[i - 1] else null else if i < |s| && x == s[i] then c else Prev(f, x),
           First(f[x].attrs), f[x].lab)
  }

  lemma SplicedInNow(f: Forest, p: Node, c: Node, i: nat, x: Node, par: Node?, first: Node?, next: Node?, prev: Node?)
    requires WF(f) && p in f && x in f && c in f && i <= |f[p].kids| && Next(f, c) == null == Prev(f, c)
    requires par == f[x].par && first == First(f[x].kids) && next == Next(f, x) && prev == Prev(f, x)
    requires x.firstAttr == First(f[x].attrs) && Label(x.nodeType, x.nodeName, x.nodeValue) == f[x].lab
    requires var s := f[p].kids;
             && x.parentNode == (if x == c then p else par)
             && x.firstChild == (if x == p && i == 0 then c else first)
             && x.nextSibling == (if x == c then if i < |s| then s[i] else null
                                  else if i > 0 && x == s[i - 1] then c else next)
             && x.prevSibling == (if x == c then if i > 0 then s[i - 1] else null
                                  else if i < |s| && x == s[i] then c else prev)
    ensures SplicedIn(f, p, c, i, x)
  {
    hide WF, Next, Prev;
  }

  lemma SplicedInRep(f: Forest, p: Node, c: Node, i: nat)
    requires WF(f) && p in f && Free(f, c) && i <= |f[p].kids| && !Has(f[c].tree, p) && f[p].hold == null
    requires forall x | x in f :: SplicedIn(f, p, c, i, x)
    ensures Holds(Attached(f, p, c, i)) && Attached(f, p, c, i).Keys == f.Keys
  {
    AttachedKeeps(f, p, c, i);
    hide WF, Attached, Next, Prev, KidsOk, AttrsOk, UpOk, TreeOk, Has;
    var f' := Attached(f, p, c, i);
    forall x | x in f' ensures RepNode(f', x) {
      assert SplicedIn(f, p, c, i, x);
      AttachedLinks(f, p, c, i, x);
      AttachedRest(f, p, c, i, x);
    }
  }

  /** A child list as its links spell it. */
  ghost predicate Spelled(p: Node, s: seq<Node>)
    reads p, s
  {
    p.firstChild == First(s) && forall i | 0 <= i < |s| :: s[i].nextSibling == After(s, i)
  }

  /** The assignments of appendChild, told of the fields alone. */
  method LinkLast(nodeptr: Node, newChild: Node, ghost s: seq<Node>, ghost nodes: set<Node>)
    requires nodeptr in nodes && newChild in nodes && Spelled(nodeptr, s) && newChild !in s
    requires forall i | 0 <= i < |s| :: s[i] in nodes
    modifies nodes`parentNode, nodes`firstChild, nodes`prevSibling, nodes`nextSibling, newChild`ownerDocument
    ensures newChild.ownerDocument == old(nodeptr.ownerDocument)
    ensures forall x | x in nodes ::
              x.nextSibling == if s != [] && x == s[|s| - 1] then newChild else old(x.nextSibling)
    ensures forall x | x in nodes ::
              x.prevSibling == if s != [] && x == newChild then s[|s| - 1] else old(x.prevSibling)
    ensures forall x | x in nodes :: x.parentNode == if x == newChild then nodeptr else old(x.parentNode)
    ensures forall x | x in nodes :: x.firstChild == if x == nodeptr && s == [] then newChild else old(x.firstChild)
  {
    newChild.parentNode := nodeptr;
    newChild.ownerDocument := nodeptr.ownerDocument;
    if nodeptr.firstChild == null {
      nodeptr.firstChild := newChild;
    } else {
      var prev: Node := nodeptr.firstChild;
      var next := prev.nextSibling;
      ghost var i := 0;
      while next != null
        invariant i < |s| && prev == s[i] && next == After(s, i)
        decreases |s| - i
      {
        prev := next;
        next := prev.nextSibling;
        i := i + 1;
      }
      prev.nextSibling := newChild;
      newChild.prevSibling := prev;
    }
  }

  /** The links of a child list, as the fields of its members tell them. */
  lemma SpelledOut(f: Forest, p: Node)
    requires Holds(f) && p in f
    ensures Spelled(p, f[p].kids) && forall i | 0 <= i < |f[p].kids| :: f[p].kids[i] in f
  {
    forall i | 0 <= i < |f[p].kids|
      ensures f[p].kids[i] in f && f[p].kids[i].nextSibling == After(f[p].kids, i)
    {
      KidTree(f, p, i);
      assert RepNode(f, f[p].kids[i]);
    }
    assert RepNode(f, p);
  }

  lemma FreeLinks(f: Forest, c: Node)
    requires WF(f) && Free(f, c)
    ensures Next(f, c) == null && Prev(f, c) == null
    ensures forall p | p in f :: c !in f[p].kids
  {
    forall p | p in f && c in f[p].kids ensures false {
      Ok(f, p);
    }
  }

  /** The checks of appendChild, in its order. */
  ghost function AppendStatus(f: Forest, nodeptr: Node?, newChild: Node?): Status
    requires WF(f) && (nodeptr != null ==> nodeptr in f) && (newChild != null ==> newChild in f)
    reads nodeptr, newChild
  {
    if nodeptr == null || newChild == null then InvalidParameter
    else if newChild.ownerDocument != null && nodeptr.ownerDocument != newChild.ownerDocument then WrongDocumentErr
    else if Ancestral(f, newChild, nodeptr) then HierarchyRequestErr
    else if !Allows(f[nodeptr].lab.typ, f[newChild].lab.typ) then HierarchyRequestErr
    else Success
  }

  method AppendChild(nodeptr: Node?, newChild: Node?, ghost f: Forest) returns (rc: Status, ghost f': Forest)
    requires Holds(f) && (nodeptr != null ==> nodeptr in f) && (newChild != null ==> newChild in f)
    requires AppendStatus(f, nodeptr, newChild) == Success ==> Placeable(f, nodeptr, newChild)
    modifies f.Keys`parentNode, f.Keys`firstChild, f.Keys`prevSibling, f.Keys`nextSibling
    modifies (if newChild == null then {} else {newChild})`ownerDocument
    ensures Holds(f') && f'.Keys == f.Keys
    ensures rc == old(AppendStatus(f, nodeptr, newChild))
    ensures rc == Success ==> Fits(f, nodeptr, newChild) && f' == Appended(f, nodeptr, newChild)
    ensures rc == Success ==> newChild.ownerDocument == old(nodeptr.ownerDocument)
    ensures rc != Success ==> f' == f && Untouched(f)
  {
    hide WF, Rep, Appended, Taken, Detached, Next, Prev, Ancestral, Fits;
    f' := f;
    if nodeptr == null || newChild == null {
      return InvalidParameter, f;
    }
    if newChild.ownerDocument != null && nodeptr.ownerDocument != newChild.ownerDocument {
      return WrongDocumentErr, f;
    }
    var isAncestor := IsAncestorOf(newChild, nodeptr, f);
    if isAncestor {
      return HierarchyRequestErr, f;
    }
    var allowed := AllowChildren(nodeptr, newChild, f);
    if !allowed {
      return HierarchyRequestErr, f;
    }
    ChecksSuffice(f, nodeptr, newChild);
    ghost var g := TakeOut(nodeptr, newChild, f);
    AppendLinks(nodeptr, newChild, g);
    AppendedIs(f, nodeptr, newChild);
    return Success, Appended(f, nodeptr, newChild);
  }

  lemma AppendedIs(f: Forest, p: Node, c: Node)
    requires WF(f) && Fits(f, p, c)
    ensures AppendIn(Taken(f, p, c), p, c) && WF(Taken(f, p, c)) && p in Taken(f, p, c)
    ensures Appended(f, p, c) == Attached(Taken(f, p, c), p, c, |Taken(f, p, c)[p].kids|)
    ensures Appended(f, p, c).Keys == f.Keys
  {
    TakenKeeps(f, p, c);
    AppendedKeeps(f, p, c);
  }

  ghost predicate AppendIn(f: Forest, p: Node, c: Node) {
    WF(f) && Fits(f, p, c) && Free(f, c)
  }

  method IsAncestorOf(newChild: Node, nodeptr: Node, ghost f: Forest) returns (found: bool)
    requires Holds(f) && newChild in f && nodeptr in f
    ensures found == Ancestral(f, newChild, nodeptr)
  {
    ChainFrom(f, newChild);
    hide WF, Rep, Chain, HasAny;
    found := IsAncestor(newChild, nodeptr, f, Following(f, newChild));
  }

  method AllowChildren(nodeptr: Node, newChild: Node, ghost f: Forest) returns (allowed: bool)
    requires Holds(f) && newChild in f && nodeptr in f
    ensures allowed == Allows(f[nodeptr].lab.typ, f[newChild].lab.typ)
  {
    assert RepNode(f, nodeptr) && RepNode(f, newChild);
    allowed := Allows(nodeptr.nodeType, newChild.nodeType);
  }

  /** A child of `nodeptr` is taken out before it is put in again. */
  method TakeOut(nodeptr: Node, newChild: Node, ghost f: Forest) returns (ghost g: Forest)
    requires Holds(f) && Fits(f, nodeptr, newChild)
    modifies f.Keys`parentNode, f.Keys`firstChild, f.Keys`prevSibling, f.Keys`nextSibling
    ensures g == Taken(f, nodeptr, newChild) && Holds(g) && g.Keys == f.Keys
    ensures Fits(g, nodeptr, newChild) && Free(g, newChild)
  {
    hide WF, Rep, Detached;
    TakenKeeps(f, nodeptr, newChild);
    var isParent := IsParent(nodeptr, newChild, f);
    g := f;
    if isParent {
      var rc;
      rc, g := RemoveChild(nodeptr, newChild, f);
    }
  }

  method AppendLinks(nodeptr: Node, newChild: Node, ghost f: Forest)
    requires Holds(f) && Fits(f, nodeptr, newChild) && Free(f, newChild)
    modifies f.Keys`parentNode, f.Keys`firstChild, f.Keys`prevSibling, f.Keys`nextSibling, newChild`ownerDocument
    ensures Holds(Attached(f, nodeptr, newChild, |f[nodeptr].kids|))
    ensures Attached(f, nodeptr, newChild, |f[nodeptr].kids|).Keys == f.Keys
    ensures newChild.ownerDocument == old(nodeptr.ownerDocument)
  {
    hide WF, Next, Prev, Attached, Has, Spelled, SplicedIn;
    SpelledOut(f, nodeptr);
    FreeLinks(f, newChild);
    Fields(f, newChild);
    LinkLast(nodeptr, newChild, f[nodeptr].kids, f.Keys);
    forall x | x in f ensures SplicedIn(f, nodeptr, newChild, |f[nodeptr].kids|, x) {
      assert old(RepNode(f, x));
      SplicedInNow(f, nodeptr, newChild, |f[nodeptr].kids|, x,
                   old(x.parentNode), old(x.firstChild), old(x.nextSibling), old(x.prevSibling));
    }
    SplicedInRep(f, nodeptr, newChild, |f[nodeptr].kids|);
  }

  /** The assignments of insertBefore, told of the fields alone. */
  method LinkBefore(nodeptr: Node, newChild: Node, refChild: Node, ghost nodes: set<Node>)
    requires nodeptr in nodes && newChild in nodes && refChild in nodes && newChild != refChild
    requires newChild.prevSibling == null
    requires refChild.prevSibling != null ==>
               refChild.prevSibling in nodes && refChild.prevSibling != newChild && refChild.prevSibling != refChild
    modifies nodes`parentNode, nodes`firstChild, nodes`prevSibling, nodes`nextSibling
    ensures forall x | x in nodes ::
              x.nextSibling == if x == newChild then refChild
                               else if x == old(refChild.prevSibling) then newChild
                               else old(x.nextSibling)
    ensures forall x | x in nodes ::
              x.prevSibling == if x == newChild then old(refChild.prevSibling)
                               else if x == refChild then newChild
                               else old(x.prevSibling)
    ensures forall x | x in nodes :: x.parentNode == if x == newChild then nodeptr else old(x.parentNode)
    ensures forall x | x in nodes ::
              x.firstChild == if x == nodeptr && old(refChild.prevSibling) == null then newChild else old(x.firstChild)
  {
    newChild.nextSibling := refChild;
    if refChild.prevSibling != null {
      refChild.prevSibling.nextSibling := newChild;
      newChild.prevSibling := refChild.prevSibling;
    }
    refChild.prevSibling := newChild;
    if newChild.prevSibling == null {
      nodeptr.firstChild := newChild;
    }
    newChild.parentNode := nodeptr;
  }

  method InsertLinks(nodeptr: Node, newChild: Node, refChild: Node, ghost f: Forest)
    requires Holds(f) && Fits(f, nodeptr, newChild) && Free(f, newChild) && Marks(f, nodeptr, newChild, refChild)
    modifies f.Keys`parentNode, f.Keys`firstChild, f.Keys`prevSibling, f.Keys`nextSibling
    ensures f[refChild].pos < |f[nodeptr].kids|
    ensures Holds(Attached(f, nodeptr, newChild, f[refChild].pos))
    ensures Attached(f, nodeptr, newChild, f[refChild].pos).Keys == f.Keys
  {
    hide WF, Next, Prev, Attached, Has, SplicedIn;
    ListedAt(f, nodeptr, refChild);
    FreeLinks(f, newChild);
    NeighboursIn(f, refChild);
    PrevListed(f, nodeptr, refChild);
    Fields(f, newChild);
    Fields(f, refChild);
    LinkBefore(nodeptr, newChild, refChild, f.Keys);
    forall x | x in f ensures SplicedIn(f, nodeptr, newChild, f[refChild].pos, x) {
      assert old(RepNode(f, x));
      SplicedInNow(f, nodeptr, newChild, f[refChild].pos, x,
                   old(x.parentNode), old(x.firstChild), old(x.nextSibling), old(x.prevSibling));
    }
    SplicedInRep(f, nodeptr, newChild, f[refChild].pos);
  }

  lemma PrevListed(f: Forest, p: Node, r: Node)
    requires WF(f) && p in f && r in f && f[r].par == p
    ensures f[r].pos < |f[p].kids|
    ensures Prev(f, r) == (if f[r].pos > 0 then f[p].kids[f[r].pos - 1] else null)
  {
    Ok(f, r);
    Ok(f, p);
  }

  /** The checks of insertBefore, in its order; a missing reference child is not found. */
  ghost function InsertStatus(f: Forest, nodeptr: Node?, newChild: Node?, refChild: Node?): Status
    requires WF(f) && (nodeptr != null ==> nodeptr in f) && (newChild != null ==> newChild in f)
    requires refChild != null ==> refChild in f
    reads nodeptr, newChild
  {
    if nodeptr == null || newChild == null then InvalidParameter
    else if !Allows(f[nodeptr].lab.typ, f[newChild].lab.typ) then HierarchyRequestErr
    else if Ancestral(f, newChild, nodeptr) then HierarchyRequestErr
    else if nodeptr.ownerDocument != newChild.ownerDocument then WrongDocumentErr
    else if refChild == null || f[refChild].par != nodeptr then NotFoundErr
    else Success
  }

  ghost predicate Inserted(f: Forest, p: Node?, c: Node?, r: Node?, f': Forest)
    requires WF(f)
  {
    p != null && c != null && r != null && Fits(f, p, c) && Marks(f, p, c, r) && f' == InsertedBefore(f, p, c, r)
  }

  method InsertBefore(nodeptr: Node?, newChild: Node?, refChild: Node?, ghost f: Forest)
    returns (rc: Status, ghost f': Forest)
    requires Holds(f) && (nodeptr != null ==> nodeptr in f) && (newChild != null ==> newChild in f)
    requires refChild != null ==> refChild in f
    requires InsertStatus(f, nodeptr, newChild, refChild) == Success ==>
               Placeable(f, nodeptr, newChild) && newChild != refChild
    modifies f.Keys`parentNode, f.Keys`firstChild, f.Keys`prevSibling, f.Keys`nextSibling
    ensures Holds(f') && f'.Keys == f.Keys
    ensures rc == old(InsertStatus(f, nodeptr, newChild, refChild))
    ensures rc == Success ==> Inserted(f, nodeptr, newChild, refChild, f')
    ensures rc != Success ==> f' == f && Untouched(f)
  {
    hide WF, Rep, InsertedBefore, Taken, Detached, Next, Prev, Ancestral, Fits;
    f' := f;
    if nodeptr == null || newChild == null {
      return InvalidParameter, f;
    }
    var allowed := AllowChildren(nodeptr, newChild, f);
    if !allowed {
      return HierarchyRequestErr, f;
    }
    var isAncestor := IsAncestorOf(newChild, nodeptr, f);
    if isAncestor {
      return HierarchyRequestErr, f;
    }
    if nodeptr.ownerDocument != newChild.ownerDocument {
      return WrongDocumentErr, f;
    }
    if refChild == null {
      return NotFoundErr, f;
    }
    var isParent := IsParent(nodeptr, refChild, f);
    if !isParent {
      return NotFoundErr, f;
    }
    ChecksSuffice(f, nodeptr, newChild);
    ghost var g := TakeOut(nodeptr, newChild, f);
    InsertedIs(f, nodeptr, newChild, refChild);
    InsertLinks(nodeptr, newChild, refChild, g);
    return Success, InsertedBefore(f, nodeptr, newChild, refChild);
  }

  lemma InsertedIs(f: Forest, p: Node, c: Node, r: Node)
    requires WF(f) && Fits(f, p, c) && Marks(f, p, c, r)
    ensures var g := Taken(f, p, c);
            && AppendIn(g, p, c) && Marks(g, p, c, r) && g[r].pos <= |g[p].kids|
            && InsertedBefore(f, p, c, r) == Attached(g, p, c, g[r].pos)
    ensures InsertedBefore(f, p, c, r).Keys == f.Keys
  {
    TakenKeeps(f, p, c);
    InsertedBeforeKeeps(f, p, c, r);
    Ok(Taken(f, p, c), r);
  }

  ghost function ReplaceStatus(f: Forest, nodeptr: Node?, newChild: Node?, oldChild: Node?): Status
    requires WF(f) && (nodeptr != null ==> nodeptr in f) && (newChild != null ==> newChild in f)
    requires oldChild != null ==> oldChild in f
    reads nodeptr, newChild
  {
    if oldChild == null then InvalidParameter else InsertStatus(f, nodeptr, newChild, oldChild)
  }

  ghost predicate Exchanged(f: Forest, p: Node?, c: Node?, o: Node?, f': Forest)
    requires WF(f)
  {
    p != null && c != null && o != null && Fits(f, p, c) && Marks(f, p, c, o) && f' == Replaced(f, p, c, o)
  }

  method ReplaceChild(nodeptr: Node?, newChild: Node?, oldChild: Node?, ghost f: Forest)
    returns (rc: Status, ghost f': Forest)
    requires Holds(f) && (nodeptr != null ==> nodeptr in f) && (newChild != null ==> newChild in f)
    requires oldChild != null ==> oldChild in f
    requires ReplaceStatus(f, nodeptr, newChild, oldChild) == Success ==>
               Placeable(f, nodeptr, newChild) && newChild != oldChild
    modifies f.Keys`parentNode, f.Keys`firstChild, f.Keys`prevSibling, f.Keys`nextSibling
    ensures Holds(f') && f'.Keys == f.Keys
    ensures rc == old(ReplaceStatus(f, nodeptr, newChild, oldChild))
    ensures rc == Success ==> Exchanged(f, nodeptr, newChild, oldChild, f')
    ensures rc != Success ==> f' == f && Untouched(f)
  {
    hide WF, Rep, InsertedBefore, Taken, Detached, Next, Prev, Ancestral, Fits;
    f' := f;
    if nodeptr == null || newChild == null || oldChild == null {
      return InvalidParameter, f;
    }
    var isAncestor := IsAncestorOf(newChild, nodeptr, f);
    if isAncestor {
      return HierarchyRequestErr, f;
    }
    var allowed := AllowChildren(nodeptr, newChild, f);
    if !allowed {
      return HierarchyRequestErr, f;
    }
    if nodeptr.ownerDocument != newChild.ownerDocument {
      return WrongDocumentErr, f;
    }
    var isParent := IsParent(nodeptr, oldChild, f);
    if !isParent {
      return NotFoundErr, f;
    }
    ghost var g;
    rc, g := InsertBefore(nodeptr, newChild, oldChild, f);
    if rc != Success {
      return rc, g;
    }
    InsertedBeforeKeeps(f, nodeptr, newChild, oldChild);
    ReplacedKeeps(f, nodeptr, newChild, oldChild);
    rc, f' := RemoveChild(nodeptr, oldChild, g);
  }

  /** A change of fields that are neither links nor labels leaves the forest as it is. */
  twostate lemma LinksKept(f: Forest)
    requires old(Holds(f))
    requires forall x | x in f :: HasLinks(x, old(x.parentNode), old(x.firstChild), old(x.nextSibling),
             old(x.prevSibling), old(x.firstAttr), Label(old(x.nodeType), old(x.nodeName), old(x.nodeValue)))
    ensures Holds(f)
  {
    hide WF, Next, Prev;
    forall x | x in f ensures RepNode(f, x) {
      assert old(RepNode(f, x));
    }
  }
}
