/** The owner documents along a tree: whatever passes the checks of an edit keeps them in agreement. */
module Ownership {
  import opened Nodes
  import opened Forests
  import opened Edits
  import opened NodeOps

  /** A child belongs to the document of its parent, or to none yet. */
  ghost predicate Agree(f: Forest, docs: map<Node, Node?>) {
    && (forall x | x in f :: x in docs)
    && forall x | x in f && f[x].par != null && f[x].par in f :: docs[x] == null || docs[x] == docs[f[x].par]
  }

  ghost function Docs(f: Forest): map<Node, Node?>
    reads f.Keys
  {
    map x | x in f :: x.ownerDocument
  }

  lemma TakenPar(f: Forest, p: Node, c: Node, x: Node)
    requires WF(f) && Fits(f, p, c) && x in f
    ensures x in Taken(f, p, c) && (x != c ==> Taken(f, p, c)[x].par == f[x].par)
  {
    if f[c].par == p {
      DetachedRest(f, c, x);
    }
    hide WF, Detached;
  }

  lemma AppendedPar(f: Forest, p: Node, c: Node, x: Node)
    requires WF(f) && Fits(f, p, c) && x in f
    ensures x in Appended(f, p, c) && Appended(f, p, c)[x].par == if x == c then p else f[x].par
  {
    TakenKeeps(f, p, c);
    TakenPar(f, p, c, x);
    hide WF, Taken, Attached, Fits;
    AttachedRest(Taken(f, p, c), p, c, |Taken(f, p, c)[p].kids|, x) by { MarkedBoth(f, p, c); }
  }

  lemma InsertedPar(f: Forest, p: Node, c: Node, r: Node, x: Node)
    requires WF(f) && Fits(f, p, c) && Marks(f, p, c, r) && x in f
    ensures x in InsertedBefore(f, p, c, r) && InsertedBefore(f, p, c, r)[x].par == if x == c then p else f[x].par
  {
    TakenKeeps(f, p, c);
    TakenPar(f, p, c, x);
    TakenPar(f, p, c, r);
    var g := Taken(f, p, c);
    Ok(g, r);
    hide WF, Taken, Attached;
    AttachedRest(g, p, c, g[r].pos, x);
  }

  /** The edges of a forest after the edit are those before it, but for the child's. */
  lemma EdgesAgree(f: Forest, g: Forest, docs: map<Node, Node?>, p: Node, c: Node)
    requires Agree(f, docs) && g.Keys == f.Keys && p in f && c in f && p != c
    requires docs[c] == null || docs[c] == docs[p]
    requires forall x | x in f && x != c :: g[x].par == f[x].par || g[x].par == null
    requires g[c].par == p
    ensures Agree(g, docs[c := docs[p]]) && (docs[c] == docs[p] ==> Agree(g, docs))
  {
  }

  /** Appending takes only what belongs to the same document or to none, and gives it the document. */
  lemma AppendAgrees(f: Forest, p: Node, c: Node)
    requires WF(f) && p in f && c in f && Placeable(f, p, c) && Agree(f, Docs(f))
    requires AppendStatus(f, p, c) == Success
    ensures Fits(f, p, c) && Agree(Appended(f, p, c), Docs(f)[c := p.ownerDocument])
  {
    ChecksSuffice(f, p, c);
    AppendedKeeps(f, p, c);
    MarkedBoth(f, p, c);
    var g := Appended(f, p, c);
    forall x | x in f ensures g[x].par == if x == c then p else f[x].par {
      AppendedPar(f, p, c, x);
    }
    hide WF, Appended, Placeable, Ancestral, Fits;
    EdgesAgree(f, g, Docs(f), p, c);
  }

  /** Inserting takes only what belongs to the same document. */
  lemma InsertAgrees(f: Forest, p: Node, c: Node, r: Node)
    requires WF(f) && p in f && c in f && r in f && Placeable(f, p, c) && r != c && Agree(f, Docs(f))
    requires InsertStatus(f, p, c, r) == Success
    ensures Fits(f, p, c) && Marks(f, p, c, r) && Agree(InsertedBefore(f, p, c, r), Docs(f))
  {
    ChecksSuffice(f, p, c);
    InsertedBeforeKeeps(f, p, c, r);
    MarkedBoth(f, p, c);
    var g := InsertedBefore(f, p, c, r);
    forall x | x in f ensures g[x].par == if x == c then p else f[x].par {
      InsertedPar(f, p, c, r, x);
    }
    hide WF, InsertedBefore, Placeable, Ancestral, Fits;
    EdgesAgree(f, g, Docs(f), p, c);
  }

  /** Taking a child out leaves the other edges. */
  lemma RemoveAgrees(f: Forest, c: Node, docs: map<Node, Node?>)
    requires WF(f) && c in f && f[c].par != null && Agree(f, docs)
    ensures Agree(Detached(f, c), docs)
  {
    var g := Detached(f, c);
    forall x | x in g ensures x in f && g[x].par == if x == c then null else f[x].par {
      DetachedRest(f, c, x);
    }
    hide WF, Detached;
  }

  /** Replacing takes only what belongs to the same document. */
  lemma ReplaceAgrees(f: Forest, p: Node, c: Node, o: Node)
    requires WF(f) && p in f && c in f && o in f && Placeable(f, p, c) && o != c && Agree(f, Docs(f))
    requires ReplaceStatus(f, p, c, o) == Success
    ensures Fits(f, p, c) && Marks(f, p, c, o) && Agree(Replaced(f, p, c, o), Docs(f))
  {
    InsertAgrees(f, p, c, o);
    InsertedBeforeKeeps(f, p, c, o);
    InsertedPar(f, p, c, o, o);
    hide WF, InsertedBefore, Detached, Placeable, Ancestral, Fits;
    RemoveAgrees(InsertedBefore(f, p, c, o), o, Docs(f));
  }
}
