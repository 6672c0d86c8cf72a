/** The four edits of a child list, on forests and on child sequences. */
module Edits {
  import opened Nodes
  import opened Forests

  /** Which types of child a node may have. */
  predicate Allows(parent: NodeType, child: NodeType) {
    match parent
    case AttributeNode => false
    case TextNodeType => false
    case CDataSectionNode => false
    case ElementNode => child != AttributeNode && child != DocumentNode
    case DocumentNode => child == ElementNode
    case _ => true
  }

  /**
   What the recursive ancestor test finds: the parent of `p` is below `c` or, because the recursion
   also follows siblings, below a sibling after it.
   */
  ghost predicate Ancestral(f: Forest, c: Node, p: Node)
    requires WF(f) && c in f && p in f
  {
    f[p].par != null && HasAny(Following(f, c), f[p].par)
  }

  /** `c` has no parent, or already is a child of `p`; it is not held as an attribute and not `p` itself. */
  ghost predicate Placeable(f: Forest, p: Node, c: Node) {
    p in f && c in f && c != p && f[c].hold == null && (f[c].par == null || f[c].par == p)
  }

  /** For the nodes an edit may place, the test is exactly whether `p` is below `c`. */
  lemma AncestralIffBelow(f: Forest, p: Node, c: Node)
    requires WF(f) && Placeable(f, p, c)
    ensures Ancestral(f, c, p) <==> Has(f[c].tree, p)
  {
    Ok(f, c);
    if f[c].par == null {
      BelowByParent(f, c, p);
      var ts := Following(f, c);
      assert ts == [f[c].tree];
      if f[p].par != null {
        HasOne(f[c].tree, f[p].par);
      }
    } else {
      OwnChild(f, p, c);
    }
  }

  lemma HasOne(t: Rose, x: Node)
    ensures HasAny([t], x) <==> Has(t, x)
  {
    assert Has(t, x) ==> Has([t][0], x);
  }

  /** It never rejects a node that is a child of `p` already. */
  lemma OwnChild(f: Forest, p: Node, c: Node)
    requires WF(f) && c in f && p in f && f[c].par == p
    ensures !Ancestral(f, c, p) && !Has(f[c].tree, p)
  {
    Ok(f, c);
    Ok(f, p);
    NotBelowKid(f, p, f[c].pos);
    if Ancestral(f, c, p) {
      var q, ts := f[p].par, Following(f, c);
      var i :| 0 <= i < |ts| && Has(ts[i], q);
      var j := f[c].pos + i;
      var k := f[p].kids[j];
      assert ts[i] == f[k].tree;
      BelowByParent(f, k, p);
      NotBelowKid(f, p, j);
    }
  }

  /** The nodes an edit may link as parent and child. */
  ghost predicate Fits(f: Forest, p: Node, c: Node) {
    Placeable(f, p, c) && f[p].hold == null && !Has(f[c].tree, p)
  }

  /** What passes the checks fits. */
  lemma ChecksSuffice(f: Forest, p: Node, c: Node)
    requires WF(f) && Placeable(f, p, c) && Allows(f[p].lab.typ, f[c].lab.typ) && !Ancestral(f, c, p)
    ensures Fits(f, p, c)
  {
    AncestralIffBelow(f, p, c);
    Ok(f, p);
    if f[p].hold != null {
      Ok(f, f[p].hold);
    }
  }

  /** A node that is a child of `p` already is taken out first. */
  ghost function Taken(f: Forest, p: Node, c: Node): Forest
    requires WF(f) && Fits(f, p, c)
  {
    if f[c].par == p then Detached(f, c) else f
  }

  lemma TakenKeeps(f: Forest, p: Node, c: Node)
    requires WF(f) && Fits(f, p, c)
    ensures WF(Taken(f, p, c)) && Taken(f, p, c).Keys == f.Keys
    ensures Fits(Taken(f, p, c), p, c) && Free(Taken(f, p, c), c)
  {
    if f[c].par == p {
      DetachedKeeps(f, c);
      SubstElsewhere(f[c].tree, p, Trees(f, Remove(f[p].kids, f[c].pos))) by {
        Ok(f, c);
        Ok(f, p);
      }
    }
  }

  ghost function Appended(f: Forest, p: Node, c: Node): Forest
    requires WF(f) && Fits(f, p, c)
  {
    TakenKeeps(f, p, c);
    var g := Taken(f, p, c);
    Attached(g, p, c, |g[p].kids|)
  }

  ghost predicate Marks(f: Forest, p: Node, c: Node, r: Node) {
    r in f && f[r].par == p && r != c
  }

  ghost function InsertedBefore(f: Forest, p: Node, c: Node, r: Node): Forest
    requires WF(f) && Fits(f, p, c) && Marks(f, p, c, r)
  {
    TakenKeeps(f, p, c);
    var g := Taken(f, p, c);
    Ok(g, r);
    Attached(g, p, c, g[r].pos)
  }

  lemma AppendedKeeps(f: Forest, p: Node, c: Node)
    requires WF(f) && Fits(f, p, c)
    ensures WF(Appended(f, p, c)) && Appended(f, p, c).Keys == f.Keys
  {
    TakenKeeps(f, p, c);
    AttachedKeeps(Taken(f, p, c), p, c, |Taken(f, p, c)[p].kids|);
  }

  lemma InsertedBeforeKeeps(f: Forest, p: Node, c: Node, r: Node)
    requires WF(f) && Fits(f, p, c) && Marks(f, p, c, r)
    ensures WF(InsertedBefore(f, p, c, r)) && InsertedBefore(f, p, c, r).Keys == f.Keys
    ensures Marks(InsertedBefore(f, p, c, r), p, c, r)
  {
    TakenKeeps(f, p, c);
    var g := Taken(f, p, c);
    Ok(g, r);
    AttachedKeeps(g, p, c, g[r].pos);
  }

  ghost function Replaced(f: Forest, p: Node, c: Node, o: Node): Forest
    requires WF(f) && Fits(f, p, c) && Marks(f, p, c, o)
  {
    InsertedBeforeKeeps(f, p, c, o);
    Detached(InsertedBefore(f, p, c, o), o)
  }

  lemma ReplacedKeeps(f: Forest, p: Node, c: Node, o: Node)
    requires WF(f) && Fits(f, p, c) && Marks(f, p, c, o)
    ensures WF(Replaced(f, p, c, o)) && Replaced(f, p, c, o).Keys == f.Keys && Free(Replaced(f, p, c, o), o)
  {
    InsertedBeforeKeeps(f, p, c, o);
    DetachedKeeps(InsertedBefore(f, p, c, o), o);
  }

  // ----- on child sequences

  ghost function Without(s: seq<Node>, c: Node): seq<Node> {
    if s == [] then [] else (if s[0] == c then [] else [s[0]]) + Without(s[1..], c)
  }

  lemma {:induction false} WithoutAbsent(s: seq<Node>, c: Node)
    requires c !in s
    ensures Without(s, c) == s
  {
    if s != [] {
      WithoutAbsent(s[1..], c);
    }
  }

  lemma {:induction false} WithoutAt(s: seq<Node>, i: nat)
    requires i < |s| && forall j, k | 0 <= j < k < |s| :: s[j] != s[k]
    ensures Without(s, s[i]) == Remove(s, i)
  {
    if i == 0 {
      WithoutAbsent(s[1..], s[0]);
    } else {
      WithoutAt(s[1..], i - 1);
      assert Remove(s, i) == [s[0]] + Remove(s[1..], i - 1);
    }
  }

  /** No child occurs twice in a child list. */
  lemma KidsDistinct(f: Forest, p: Node)
    requires WF(f) && p in f
    ensures forall j, k | 0 <= j < k < |f[p].kids| :: f[p].kids[j] != f[p].kids[k]
  {
    Ok(f, p);
  }

  lemma TakenKids(f: Forest, p: Node, c: Node)
    requires WF(f) && Fits(f, p, c)
    ensures Taken(f, p, c).Keys == f.Keys && Taken(f, p, c)[p].kids == Without(f[p].kids, c)
    ensures forall x | x in f && x != p :: Taken(f, p, c)[x].kids == f[x].kids
  {
    Ok(f, c);
    Ok(f, p);
    if f[c].par == p {
      KidsDistinct(f, p);
      WithoutAt(f[p].kids, f[c].pos);
    } else {
      WithoutAbsent(f[p].kids, c);
    }
  }

  /** Appending puts the child last, and moves it there if it was in the list; no other list changes. */
  lemma AppendActs(f: Forest, p: Node, c: Node)
    requires WF(f) && Fits(f, p, c)
    ensures var f' := Appended(f, p, c);
            && f'.Keys == f.Keys && f'[p].kids == Without(f[p].kids, c) + [c] && f'[c].par == p
            && forall x | x in f && x != p :: f'[x].kids == f[x].kids
  {
    TakenKids(f, p, c);
    TakenKeeps(f, p, c);
    MarkedBoth(f, p, c);
    hide WF, Taken, Without, Attached, Fits;
    var g := Taken(f, p, c);
    AttachedAll(g, p, c, |g[p].kids|);
    InsertEnd(g[p].kids, c);
  }

  lemma MarkedBoth(f: Forest, p: Node, c: Node)
    requires Fits(f, p, c)
    ensures p in f && c in f && c != p
  {
  }

  lemma InsertEnd(s: seq<Node>, c: Node)
    ensures Insert(s, |s|, c) == s + [c]
  {
  }

  lemma AttachedAll(f: Forest, p: Node, c: Node, i: nat)
    requires WF(f) && p in f && Free(f, c) && i <= |f[p].kids|
    ensures var f' := Attached(f, p, c, i);
            && f'.Keys == f.Keys && f'[p].kids == Insert(f[p].kids, i, c) && f'[c].par == p
            && forall x | x in f && x != p :: f'[x].kids == f[x].kids
  {
    hide WF, Insert, Subst;
  }

  /** Inserting puts it just before the reference child. */
  lemma InsertActs(f: Forest, p: Node, c: Node, r: Node)
    requires WF(f) && Fits(f, p, c) && Marks(f, p, c, r)
    ensures var f', s := InsertedBefore(f, p, c, r), Without(f[p].kids, c);
            && f'.Keys == f.Keys && f'[c].par == p
            && (exists i | 0 <= i < |s| :: s[i] == r && f'[p].kids == Insert(s, i, c))
            && forall x | x in f && x != p :: f'[x].kids == f[x].kids
  {
    TakenKids(f, p, c);
    TakenKeeps(f, p, c);
    var g := Taken(f, p, c);
    Ok(g, r);
    hide WF, Without, Insert, Trees, Subst, KidsOk, AttrsOk, TreeOk;
    assert g[r].par == p;
    var i := g[r].pos;
    assert g[p].kids[i] == r && InsertedBefore(f, p, c, r)[p].kids == Insert(g[p].kids, i, c);
  }

  /** Replacing puts it in the place of the old child, which ends up without a parent. */
  lemma ReplaceActs(f: Forest, p: Node, c: Node, o: Node)
    requires WF(f) && Fits(f, p, c) && Marks(f, p, c, o)
    ensures var f', s := Replaced(f, p, c, o), Without(f[p].kids, c);
            && f'.Keys == f.Keys && f'[c].par == p && f'[o].par == null
            && (exists i | 0 <= i < |s| :: s[i] == o && f'[p].kids == s[i := c])
            && forall x | x in f && x != p :: f'[x].kids == f[x].kids
  {
    InsertActs(f, p, c, o);
    InsertedBeforeKeeps(f, p, c, o);
    MarkedOther(f, p, c, o);
    var g, s := InsertedBefore(f, p, c, o), Without(f[p].kids, c);
    var i :| 0 <= i < |s| && s[i] == o && g[p].kids == Insert(s, i, c);
    hide WF, InsertedBefore, Without, Insert, Detached, Fits, Marks;
    SwappedIn(g, p, c, o, s, i);
  }

  lemma SwappedIn(g: Forest, p: Node, c: Node, o: Node, s: seq<Node>, i: nat)
    requires WF(g) && p in g && c in g && i < |s| && s[i] == o && g[p].kids == Insert(s, i, c) && g[c].par == p
             && c != o
    ensures o in g && g[o].par != null
    ensures var f' := Detached(g, o);
            && f'.Keys == g.Keys && f'[p].kids == s[i := c] && f'[c].par == p && f'[o].par == null
            && forall x | x in g && x != p :: f'[x].kids == g[x].kids
  {
    hide WF, Insert, Remove, Detached;
    InsertRemove(s, i, c);
    TakenOut(g, p, i + 1);
  }

  lemma MarkedOther(f: Forest, p: Node, c: Node, o: Node)
    requires Fits(f, p, c) && Marks(f, p, c, o)
    ensures p in f && c in f && c != o
  {
  }

  lemma InsertRemove(s: seq<Node>, i: nat, c: Node)
    requires i < |s|
    ensures Insert(s, i, c)[i + 1] == s[i] && Remove(Insert(s, i, c), i + 1) == s[i := c]
  {
  }

  lemma TakenOut(f: Forest, p: Node, i: nat)
    requires WF(f) && p in f && i < |f[p].kids|
    ensures var o := f[p].kids[i]; o in f && f[o].par == p
    ensures var f', o := Detached(f, f[p].kids[i]), f[p].kids[i];
            && f'.Keys == f.Keys && f'[p].kids == Remove(f[p].kids, i) && f'[o].par == null
            && (forall x | x in f && x != p :: f'[x].kids == f[x].kids)
            && (forall x | x in f && x != o :: f'[x].par == f[x].par)
  {
    Ok(f, p);
    hide WF, Remove, Subst;
  }

  /** Removing takes it out. */
  lemma RemoveActs(f: Forest, c: Node)
    requires WF(f) && c in f && f[c].par != null
    ensures f[c].par in f
    ensures var f', p := Detached(f, c), f[c].par;
            && f'.Keys == f.Keys && f'[p].kids == Without(f[p].kids, c) && f'[c].par == null
            && forall x | x in f && x != p :: f'[x].kids == f[x].kids
  {
    Ok(f, c);
    KidsDistinct(f, f[c].par);
    WithoutAt(f[f[c].par].kids, f[c].pos);
  }

  // ----- runs of edits

  datatype Edit =
    | Append(p: Node, c: Node)
    | InsertBefore(p: Node, c: Node, r: Node)
    | Replace(p: Node, c: Node, o: Node)
    | Take(c: Node)

  ghost predicate Kinds(f: Forest, p: Node, c: Node) {
    p in f && c in f && Allows(f[p].lab.typ, f[c].lab.typ)
  }

  ghost predicate Applies(f: Forest, e: Edit) {
    match e
    case Append(p, c) => Fits(f, p, c) && Kinds(f, p, c)
    case InsertBefore(p, c, r) => Fits(f, p, c) && Kinds(f, p, c) && Marks(f, p, c, r)
    case Replace(p, c, o) => Fits(f, p, c) && Kinds(f, p, c) && Marks(f, p, c, o)
    case Take(c) => c in f && f[c].par != null
  }

  /** One edit; one that is refused changes nothing. */
  ghost function Apply(f: Forest, e: Edit): Forest
    requires WF(f)
  {
    if !Applies(f, e) then f
    else
      match e
      case Append(p, c) => Appended(f, p, c)
      case InsertBefore(p, c, r) => InsertedBefore(f, p, c, r)
      case Replace(p, c, o) => Replaced(f, p, c, o)
      case Take(c) => Detached(f, c)
  }

  lemma ApplyKeeps(f: Forest, e: Edit)
    requires WF(f)
    ensures WF(Apply(f, e)) && Apply(f, e).Keys == f.Keys
  {
    hide WF, Appended, InsertedBefore, Replaced, Detached, Fits, Marks;
    if Applies(f, e) {
      match e
      case Append(p, c) => AppendedKeeps(f, p, c);
      case InsertBefore(p, c, r) => InsertedBeforeKeeps(f, p, c, r);
      case Replace(p, c, o) => ReplacedKeeps(f, p, c, o);
      case Take(c) => DetachedKeeps(f, c);
    }
  }

  ghost function ApplyAll(f: Forest, es: seq<Edit>): (r: Forest)
    requires WF(f)
  {
    if es == [] then f else ApplyKeeps(f, es[0]); ApplyAll(Apply(f, es[0]), es[1..])
  }

  /** Any run of edits leaves a well-formed forest of the same nodes, in which no node is below a child of its own. */
  lemma {:induction false} EditsKeep(f: Forest, es: seq<Edit>, n: Node, i: nat)
    requires WF(f)
    ensures var f' := ApplyAll(f, es);
            && WF(f') && f'.Keys == f.Keys
            && (n in f' && i < |f'[n].kids| ==> f'[n].kids[i] in f' && !Has(f'[f'[n].kids[i]].tree, n))
    decreases |es|
  {
    hide WF, Apply;
    if es == [] {
      if n in f && i < |f[n].kids| {
        NotBelowKid(f, n, i);
      }
    } else {
      ApplyKeeps(f, es[0]);
      EditsKeep(Apply(f, es[0]), es[1..], n, i);
    }
  }

  /** Every child is of a type its parent may have. */
  ghost predicate Proper(f: Forest) {
    forall n | n in f :: ProperAt(f, n)
  }

  ghost predicate ProperAt(f: Forest, n: Node)
    requires n in f
  {
    forall i | 0 <= i < |f[n].kids| :: Kinds(f, n, f[n].kids[i])
  }

  lemma DetachedProper(f: Forest, c: Node)
    requires WF(f) && Proper(f) && c in f && f[c].par != null
    ensures Proper(Detached(f, c))
  {
    Ok(f, c);
    var f', p := Detached(f, c), f[c].par;
    forall n | n in f' ensures ProperAt(f', n) {
      assert ProperAt(f, n);
      DetachedKidsIn(f, c, n);
      hide WF, Detached;
      forall i | 0 <= i < |f'[n].kids| ensures Kinds(f', n, f'[n].kids[i]) {
        assert f'[n].kids[i] in f'[n].kids;
        var j :| 0 <= j < |f[n].kids| && f[n].kids[j] == f'[n].kids[i];
        assert Kinds(f, n, f[n].kids[j]);
        DetachedRest(f, c, f[n].kids[j]);
        DetachedRest(f, c, n);
      }
    }
  }

  lemma DetachedKidsIn(f: Forest, c: Node, n: Node)
    requires WF(f) && c in f && f[c].par != null && n in f
    ensures n in Detached(f, c)
    ensures forall x | x in Detached(f, c)[n].kids :: x in f[n].kids
  {
    Ok(f, c);
    Ok(f, f[c].par);
    hide WF, Subst, Remove;
    RemoveIn(f[f[c].par].kids, f[c].pos);
  }

  lemma RemoveIn(s: seq<Node>, i: nat)
    requires i < |s|
    ensures forall x | x in Remove(s, i) :: x in s
  {
  }

  lemma InsertIn(s: seq<Node>, i: nat, c: Node)
    requires i <= |s|
    ensures forall x | x in Insert(s, i, c) :: x == c || x in s
  {
  }

  lemma AttachedProper(f: Forest, p: Node, c: Node, i: nat)
    requires WF(f) && Proper(f) && p in f && Free(f, c) && i <= |f[p].kids| && Kinds(f, p, c)
    ensures Proper(Attached(f, p, c, i))
  {
    var f' := Attached(f, p, c, i);
    forall n | n in f' ensures ProperAt(f', n) {
      assert ProperAt(f, n);
      AttachedKidsIn(f, p, c, i, n);
      hide WF, Attached;
      forall k | 0 <= k < |f'[n].kids| ensures Kinds(f', n, f'[n].kids[k]) {
        AttachedRest(f, p, c, i, n);
        AttachedRest(f, p, c, i, c);
        assert f'[n].kids[k] in f'[n].kids;
        if n != p || f'[n].kids[k] != c {
          var j :| 0 <= j < |f[n].kids| && f[n].kids[j] == f'[n].kids[k];
          assert Kinds(f, n, f[n].kids[j]);
          AttachedRest(f, p, c, i, f[n].kids[j]);
        }
      }
    }
  }

  lemma AttachedKidsIn(f: Forest, p: Node, c: Node, i: nat, n: Node)
    requires WF(f) && p in f && Free(f, c) && i <= |f[p].kids| && n in f
    ensures n in Attached(f, p, c, i)
    ensures forall x | x in Attached(f, p, c, i)[n].kids :: (n == p && x == c) || x in f[n].kids
  {
    Ok(f, p);
    hide WF, Subst, Insert;
    InsertIn(f[p].kids, i, c);
  }

  lemma TakenProper(f: Forest, p: Node, c: Node)
    requires WF(f) && Proper(f) && Fits(f, p, c) && Kinds(f, p, c)
    ensures Proper(Taken(f, p, c)) && Kinds(Taken(f, p, c), p, c)
  {
    if f[c].par == p {
      DetachedProper(f, c);
      DetachedRest(f, c, p);
      DetachedRest(f, c, c);
    }
  }

  lemma AppendedProper(f: Forest, p: Node, c: Node)
    requires WF(f) && Proper(f) && Fits(f, p, c) && Kinds(f, p, c)
    ensures Proper(Appended(f, p, c))
  {
    TakenKeeps(f, p, c);
    TakenProper(f, p, c);
    hide WF, Proper, Kinds, Taken, Attached;
    var g := Taken(f, p, c);
    AttachedProper(g, p, c, |g[p].kids|);
  }

  lemma InsertedProper(f: Forest, p: Node, c: Node, r: Node)
    requires WF(f) && Proper(f) && Fits(f, p, c) && Kinds(f, p, c) && Marks(f, p, c, r)
    ensures Proper(InsertedBefore(f, p, c, r))
  {
    TakenKeeps(f, p, c);
    TakenProper(f, p, c);
    var g := Taken(f, p, c);
    Ok(g, r);
    assert g[r].pos <= |g[p].kids|;
    hide WF, Proper, Kinds, Taken, Attached;
    AttachedProper(g, p, c, g[r].pos);
  }

  lemma ApplyProper(f: Forest, e: Edit)
    requires WF(f) && Proper(f)
    ensures Proper(Apply(f, e))
  {
    hide WF, Proper, Appended, InsertedBefore, Detached, Fits, Marks, Kinds;
    if Applies(f, e) {
      match e
      case Append(p, c) => AppendedProper(f, p, c);
      case InsertBefore(p, c, r) => InsertedProper(f, p, c, r);
      case Replace(p, c, o) =>
        InsertedProper(f, p, c, o);
        InsertedBeforeKeeps(f, p, c, o);
        MarkedParent(f, p, c, o);
        DetachedProper(InsertedBefore(f, p, c, o), o);
      case Take(c) => DetachedProper(f, c);
    }
  }

  lemma MarkedParent(f: Forest, p: Node, c: Node, o: Node)
    requires WF(f) && Fits(f, p, c) && Marks(f, p, c, o) && Marks(InsertedBefore(f, p, c, o), p, c, o)
    ensures o in InsertedBefore(f, p, c, o) && InsertedBefore(f, p, c, o)[o].par != null
  {
    hide InsertedBefore;
  }

  /** Any run of edits keeps children to the types their parents may have. */
  lemma {:induction false} EditsProper(f: Forest, es: seq<Edit>)
    requires WF(f) && Proper(f)
    ensures Proper(ApplyAll(f, es))
    decreases |es|
  {
    hide WF, Apply, Proper;
    if es != [] {
      ApplyKeeps(f, es[0]);
      ApplyProper(f, es[0]);
      EditsProper(Apply(f, es[0]), es[1..]);
    }
  }
}
