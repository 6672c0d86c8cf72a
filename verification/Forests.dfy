/** Taking a node out of a child list and putting one in, on forests. */
module Forests {
  import opened Nodes

  function Remove<T>(s: seq<T>, i: nat): (r: seq<T>)
    requires i < |s|
    ensures |r| == |s| - 1 && forall j | 0 <= j < |r| :: r[j] == s[if j < i then j else j + 1]
  {
    s[..i] + s[i + 1..]
  }

  function Insert<T>(s: seq<T>, i: nat, x: T): (r: seq<T>)
    requires i <= |s|
    ensures |r| == |s| + 1 && forall j | 0 <= j < |r| :: r[j] == if j < i then s[j] else if j == i then x else s[j - 1]
  {
    s[..i] + [x] + s[i..]
  }

  /** The tree with the children of `p` replaced wherever it occurs. */
  ghost function Subst(t: Rose, p: Node, ks: seq<Rose>): Rose {
    if t.node == p then Rose(p, ks)
    else Rose(t.node, seq(|t.kids|, i requires 0 <= i < |t.kids| => Subst(t.kids[i], p, ks)))
  }

  lemma {:induction false} SubstElsewhere(t: Rose, p: Node, ks: seq<Rose>)
    requires !Has(t, p)
    ensures Subst(t, p, ks) == t
  {
    forall i | 0 <= i < |t.kids| ensures Subst(t.kids[i], p, ks) == t.kids[i] {
      assert !Has(t.kids[i], p);
      SubstElsewhere(t.kids[i], p, ks);
    }
    assert Subst(t, p, ks).kids == t.kids;
  }

  /** `c` taken out of the child list of its parent. */
  ghost function Detached(f: Forest, c: Node): Forest
    requires WF(f) && c in f && f[c].par != null
  {
    Ok(f, c);
    var p, i := f[c].par, f[c].pos;
    Ok(f, p);
    var s := Remove(f[p].kids, i);
    map x | x in f ::
      f[x].(kids := if x == p then s else f[x].kids,
            par := if x == c then null else f[x].par,
            pos := if f[x].par == p && f[x].pos > i then f[x].pos - 1 else f[x].pos,
            tree := Subst(f[x].tree, p, Trees(f, s)))
  }

  ghost predicate Free(f: Forest, c: Node) {
    c in f && f[c].par == null && f[c].hold == null
  }

  /** `c` put into the child list of `p` at position `i`. */
  ghost function Attached(f: Forest, p: Node, c: Node, i: nat): Forest
    requires WF(f) && p in f && Free(f, c) && i <= |f[p].kids|
  {
    Ok(f, p);
    var s := Insert(f[p].kids, i, c);
    map x | x in f ::
      f[x].(kids := if x == p then s else f[x].kids,
            par := if x == c then p else f[x].par,
            pos := if x == c then i else if f[x].par == p && f[x].pos >= i then f[x].pos + 1 else f[x].pos,
            tree := Subst(f[x].tree, p, Trees(f, s)))
  }

  /** Replacing one child list and regrowing every tree keeps the trees those of the child lists. */
  lemma RegrownOk(f: Forest, f': Forest, p: Node, s: seq<Node>, n: Node)
    requires WF(f) && f'.Keys == f.Keys && p in f && n in f
    requires forall i | 0 <= i < |s| :: s[i] in f && !Has(f[s[i]].tree, p)
    requires forall x | x in f ::
               f'[x].kids == (if x == p then s else f[x].kids) && f'[x].tree == Subst(f[x].tree, p, Trees(f, s))
    ensures TreeOk(f', n)
  {
    Ok(f, n);
    if n == p {
      forall i | 0 <= i < |s| ensures f'[n].tree.kids[i] == f'[s[i]].tree {
        SubstElsewhere(f[s[i]].tree, p, Trees(f, s));
      }
    }
  }

  /** A node is not both a child and an attribute, and an attribute has no children. */
  lemma EitherList(f: Forest, x: Node)
    requires WF(f) && x in f
    ensures f[x].par == null || f[x].hold == null
    ensures f[x].hold != null ==> f[x].kids == [] && f[x].attrs == []
  {
    Ok(f, x);
    if f[x].hold != null {
      Ok(f, f[x].hold);
    }
    hide WF;
  }

  lemma DetachedKids(f: Forest, c: Node, n: Node)
    requires WF(f) && c in f && f[c].par != null && n in f
    ensures KidsOk(Detached(f, c), n)
  {
    Ok(f, c);
    Ok(f, f[c].par);
    Ok(f, n);
    hide WF, Subst, AttrsOk, TreeOk;
    var f', p, i := Detached(f, c), f[c].par, f[c].pos;
    forall j | 0 <= j < |f'[n].kids|
      ensures var k := f'[n].kids[j]; k in f' && f'[k].par == n && f'[k].hold == null && f'[k].pos == j
    {
      var j0 := if n == p && j >= i then j + 1 else j;
      assert f'[n].kids[j] == f[n].kids[j0];
    }
  }

  lemma DetachedAttrs(f: Forest, c: Node, n: Node)
    requires WF(f) && c in f && f[c].par != null && n in f
    ensures AttrsOk(Detached(f, c), n)
  {
    Ok(f, c);
    Ok(f, n);
    EitherList(f, c);
    hide WF, Subst, KidsOk, TreeOk;
  }

  lemma DetachedFields(f: Forest, c: Node, x: Node)
    requires WF(f) && c in f && f[c].par != null && x in f
    ensures f[c].par in f && f[c].pos < |f[f[c].par].kids|
    ensures var f', p, i := Detached(f, c), f[c].par, f[c].pos;
            && x in f' && f'[x].attrs == f[x].attrs && f'[x].hold == f[x].hold && f'[x].lab == f[x].lab
            && f'[x].kids == (if x == p then Remove(f[p].kids, i) else f[x].kids)
            && f'[x].par == (if x == c then null else f[x].par)
            && f'[x].pos == if f[x].par == p && f[x].pos > i then f[x].pos - 1 else f[x].pos
  {
    Ok(f, c);
    hide WF, Subst, Remove;
  }

  lemma RemoveAt<T>(s: seq<T>, i: nat, j: nat)
    requires i < |s| && j < |s| && i != j
    ensures Remove(s, i)[if j > i then j - 1 else j] == s[j]
  {
  }

  lemma DetachedPar(f: Forest, c: Node, n: Node)
    requires WF(f) && c in f && f[c].par != null && n in f && f[n].par != null && n != c
    ensures var f' := Detached(f, c);
            n in f' && f'[n].par in f' && f'[n].pos < |f'[f'[n].par].kids| && f'[f'[n].par].kids[f'[n].pos] == n
  {
    Ok(f, c);
    Ok(f, n);
    DetachedFields(f, c, n);
    DetachedFields(f, c, f[n].par);
    hide WF, Detached, KidsOk, TreeOk, AttrsOk, Remove;
    if f[n].par == f[c].par {
      RemoveAt(f[f[c].par].kids, f[c].pos, f[n].pos);
    }
  }

  lemma DetachedHold(f: Forest, c: Node, n: Node)
    requires WF(f) && c in f && f[c].par != null && n in f && f[n].hold != null
    ensures var f' := Detached(f, c);
            n in f' && f'[n].hold in f' && f'[n].pos < |f'[f'[n].hold].attrs| && f'[f'[n].hold].attrs[f'[n].pos] == n
  {
    Ok(f, n);
    EitherList(f, n);
    DetachedFields(f, c, n);
    DetachedFields(f, c, f[n].hold);
    hide WF, Detached, KidsOk, TreeOk, AttrsOk, Remove;
  }

  lemma DetachedUp(f: Forest, c: Node, n: Node)
    requires WF(f) && c in f && f[c].par != null && n in f
    ensures UpOk(Detached(f, c), n)
  {
    DetachedFields(f, c, n);
    hide WF, Detached, Remove;
    if f[n].par != null && n != c {
      DetachedPar(f, c, n);
    }
    if f[n].hold != null {
      DetachedHold(f, c, n);
    }
  }

  lemma DetachedKeeps(f: Forest, c: Node)
    requires WF(f) && c in f && f[c].par != null
    ensures WF(Detached(f, c)) && Free(Detached(f, c), c) && Detached(f, c).Keys == f.Keys
  {
    var f', p, i := Detached(f, c), f[c].par, f[c].pos;
    Ok(f, c);
    Ok(f, p);
    EitherList(f, c);
    var s := Remove(f[p].kids, i);
    forall j | 0 <= j < |s| ensures s[j] in f && !Has(f[s[j]].tree, p) {
      NotBelowKid(f, p, if j < i then j else j + 1);
    }
    hide KidsOk, AttrsOk, UpOk, TreeOk, Subst;
    forall n | n in f ensures KidsOk(f', n) && AttrsOk(f', n) && UpOk(f', n) && TreeOk(f', n) {
      DetachedKids(f, c, n);
      DetachedAttrs(f, c, n);
      DetachedUp(f, c, n);
      RegrownOk(f, f', p, s, n);
    }
  }

  lemma AttachedKids(f: Forest, p: Node, c: Node, i: nat, n: Node)
    requires WF(f) && p in f && Free(f, c) && i <= |f[p].kids| && n in f
    ensures KidsOk(Attached(f, p, c, i), n)
  {
    Ok(f, n);
    hide WF, Subst, AttrsOk, TreeOk, UpOk, Insert;
    var f' := Attached(f, p, c, i);
    forall j | 0 <= j < |f'[n].kids|
      ensures var k := f'[n].kids[j]; k in f' && f'[k].par == n && f'[k].hold == null && f'[k].pos == j
    {
      if n == p && j == i {
        assert f'[n].kids[j] == c;
      } else {
        var j0 := if n == p && j > i then j - 1 else j;
        var k := f[n].kids[j0];
        assert f'[n].kids[j] == k;
        assert k in f && f[k].par == n && f[k].hold == null && f[k].pos == j0;
        assert k != c;
      }
    }
  }

  lemma AttachedFields(f: Forest, p: Node, c: Node, i: nat, x: Node)
    requires WF(f) && p in f && Free(f, c) && i <= |f[p].kids| && x in f
    ensures var f' := Attached(f, p, c, i);
            && x in f' && f'[x].attrs == f[x].attrs && f'[x].hold == f[x].hold && f'[x].lab == f[x].lab
            && f'[x].kids == (if x == p then Insert(f[p].kids, i, c) else f[x].kids)
            && f'[x].par == (if x == c then p else f[x].par)
            && f'[x].pos == if x == c then i else if f[x].par == p && f[x].pos >= i then f[x].pos + 1 else f[x].pos
  {
    hide WF, Subst, Insert;
  }

  lemma AttachedAttrs(f: Forest, p: Node, c: Node, i: nat, n: Node)
    requires WF(f) && p in f && Free(f, c) && i <= |f[p].kids| && n in f && f[p].hold == null
    ensures AttrsOk(Attached(f, p, c, i), n)
  {
    Ok(f, n);
    AttachedFields(f, p, c, i, n);
    hide WF, Attached, UpOk, KidsOk, TreeOk;
    var f' := Attached(f, p, c, i);
    forall j | 0 <= j < |f[n].attrs|
      ensures var a := f[n].attrs[j];
              && a in f' && f'[a].hold == n && f'[a].par == null && f'[a].pos == j && f'[a].kids == []
              && f'[a].attrs == [] && f'[a].lab.typ == AttributeNode
    {
      var a := f[n].attrs[j];
      AttachedFields(f, p, c, i, a);
    }
  }

  lemma AttachedUp(f: Forest, p: Node, c: Node, i: nat, n: Node)
    requires WF(f) && p in f && Free(f, c) && i <= |f[p].kids| && n in f && f[p].hold == null
    ensures UpOk(Attached(f, p, c, i), n)
  {
    Ok(f, n);
    EitherList(f, n);
    AttachedFields(f, p, c, i, n);
    AttachedFields(f, p, c, i, p);
    var u := if f[n].par != null then f[n].par else if f[n].hold != null then f[n].hold else n;
    AttachedFields(f, p, c, i, u);
    hide WF, Attached, KidsOk, TreeOk, AttrsOk, Insert;
    InsertAt(f[p].kids, i, c, f[n].pos);
  }

  lemma InsertAt<T>(s: seq<T>, i: nat, x: T, j: nat)
    requires i <= |s|
    ensures Insert(s, i, x)[i] == x
    ensures j < |s| ==> Insert(s, i, x)[if j >= i then j + 1 else j] == s[j]
  {
  }

  lemma AttachedKeeps(f: Forest, p: Node, c: Node, i: nat)
    requires WF(f) && p in f && Free(f, c) && i <= |f[p].kids| && !Has(f[c].tree, p) && f[p].hold == null
    ensures WF(Attached(f, p, c, i)) && Attached(f, p, c, i).Keys == f.Keys
  {
    var f' := Attached(f, p, c, i);
    Ok(f, p);
    var s := Insert(f[p].kids, i, c);
    forall j | 0 <= j < |s| ensures s[j] in f && !Has(f[s[j]].tree, p) {
      if j != i {
        NotBelowKid(f, p, if j < i then j else j - 1);
      }
    }
    hide KidsOk, AttrsOk, UpOk, TreeOk, Subst;
    forall n | n in f ensures KidsOk(f', n) && AttrsOk(f', n) && UpOk(f', n) && TreeOk(f', n) {
      AttachedKids(f, p, c, i, n);
      AttachedAttrs(f, p, c, i, n);
      AttachedUp(f, p, c, i, n);
      RegrownOk(f, f', p, s, n);
    }
  }

  /** A new node without links. */
  ghost function Added(f: Forest, n: Node, l: Label): Forest {
    f[n := Info(l, [], [], null, null, 0, Rose(n, []))]
  }

  lemma AddedKeeps(f: Forest, n: Node, l: Label)
    requires WF(f) && n !in f
    ensures WF(Added(f, n, l)) && Free(Added(f, n, l), n)
  {
    var f' := Added(f, n, l);
    forall x | x in f' ensures KidsOk(f', x) && AttrsOk(f', x) && UpOk(f', x) && TreeOk(f', x) {
      if x != n {
        Ok(f, x);
      }
    }
  }

  /** `a` appended to the attribute list of `e`. */
  ghost function AttrAdded(f: Forest, e: Node, a: Node): Forest
    requires e in f && a in f && a != e
  {
    f[e := f[e].(attrs := f[e].attrs + [a])][a := f[a].(hold := e, pos := |f[e].attrs|)]
  }

  lemma AttrAddedKids(f: Forest, e: Node, a: Node, n: Node)
    requires WF(f) && e in f && Free(f, a) && f[a].kids == [] && a != e && n in f
    ensures var f' := AttrAdded(f, e, a); KidsOk(f', n) && TreeOk(f', n)
  {
    Ok(f, n);
    hide WF, AttrsOk, UpOk;
  }

  lemma AttrAddedUp(f: Forest, e: Node, a: Node, n: Node)
    requires WF(f) && e in f && Free(f, a) && f[a].kids == [] && f[a].attrs == [] && f[a].lab.typ == AttributeNode
    requires a != e && f[e].hold == null && n in f
    ensures var f' := AttrAdded(f, e, a); AttrsOk(f', n) && UpOk(f', n)
  {
    Ok(f, n);
    hide WF, KidsOk, TreeOk;
  }

  lemma AttrAddedKeeps(f: Forest, e: Node, a: Node)
    requires WF(f) && e in f && Free(f, a) && f[a].kids == [] && f[a].attrs == [] && f[a].lab.typ == AttributeNode
             && a != e && f[e].hold == null
    ensures WF(AttrAdded(f, e, a)) && AttrAdded(f, e, a).Keys == f.Keys
  {
    var f' := AttrAdded(f, e, a);
    hide KidsOk, AttrsOk, UpOk, TreeOk;
    forall n | n in f' ensures KidsOk(f', n) && AttrsOk(f', n) && UpOk(f', n) && TreeOk(f', n) {
      AttrAddedKids(f, e, a, n);
      AttrAddedUp(f, e, a, n);
    }
  }

  /** A node with other values in its fields that are not links. */
  ghost function Relabelled(f: Forest, n: Node, l: Label): Forest
    requires n in f
  {
    f[n := f[n].(lab := l)]
  }

  lemma RelabelledKeeps(f: Forest, n: Node, l: Label)
    requires WF(f) && n in f && l.typ == f[n].lab.typ
    ensures WF(Relabelled(f, n, l)) && Relabelled(f, n, l).Keys == f.Keys
  {
    hide KidsOk, AttrsOk, UpOk, TreeOk;
    var f' := Relabelled(f, n, l);
    forall x | x in f' ensures KidsOk(f', x) && AttrsOk(f', x) && UpOk(f', x) && TreeOk(f', x) {
      RelabelledKids(f, n, l, x);
      RelabelledAttrs(f, n, l, x);
    }
  }

  lemma RelabelledKids(f: Forest, n: Node, l: Label, x: Node)
    requires WF(f) && n in f && x in f
    ensures x in Relabelled(f, n, l) && KidsOk(Relabelled(f, n, l), x) && TreeOk(Relabelled(f, n, l), x)
  {
    Ok(f, x);
    hide WF, AttrsOk, UpOk;
  }

  lemma RelabelledAttrs(f: Forest, n: Node, l: Label, x: Node)
    requires WF(f) && n in f && l.typ == f[n].lab.typ && x in f
    ensures x in Relabelled(f, n, l) && AttrsOk(Relabelled(f, n, l), x) && UpOk(Relabelled(f, n, l), x)
  {
    Ok(f, x);
    hide WF, KidsOk, TreeOk;
  }

  // ----- what the links become

  lemma DetachedLists(f: Forest, c: Node, x: Node)
    requires WF(f) && c in f && f[c].par != null && x in f && WF(Detached(f, c))
    ensures var f', p := Detached(f, c), f[c].par;
            && x in f' && p in f && f[c].pos < |f[p].kids| && f[p].kids[f[c].pos] == c
            && Siblings(f, c) == f[p].kids && Index(f, c) == f[c].pos
            && (x == c ==> Siblings(f', x) == [x] && Index(f', x) == 0)
            && (x != c && f[x].par == p ==>
                  && Siblings(f, x) == f[p].kids && f[x].pos == Index(f, x) != f[c].pos
                  && Siblings(f', x) == Remove(f[p].kids, f[c].pos)
                  && Index(f', x) == if f[x].pos > f[c].pos then f[x].pos - 1 else f[x].pos)
            && (x != c && f[x].par != p ==> Siblings(f', x) == Siblings(f, x) && Index(f', x) == Index(f, x))
  {
    Ok(f, c);
    Ok(f, x);
    Ok(f, f[c].par);
    EitherList(f, x);
    EitherList(f, c);
    hide WF, Subst, TreeOk, AttrsOk;
  }

  /** Neighbours in a list with one element taken out. */
  lemma RemoveNeighbours(s: seq<Node>, i: nat, j: nat)
    requires i < |s| && j < |s| && i != j
    ensures After(Remove(s, i), if j > i then j - 1 else j) == if j + 1 == i then After(s, i) else After(s, j)
    ensures Before(Remove(s, i), if j > i then j - 1 else j) == if j == i + 1 then Before(s, i) else Before(s, j)
  {
  }

  lemma InsertNeighbours(s: seq<Node>, i: nat, c: Node, j: nat)
    requires i <= |s| && j < |s|
    ensures After(Insert(s, i, c), if j >= i then j + 1 else j) == if j + 1 == i then c else After(s, j)
    ensures Before(Insert(s, i, c), if j >= i then j + 1 else j) == if j == i then c else Before(s, j)
    ensures After(Insert(s, i, c), i) == (if i < |s| then s[i] else null)
    ensures Before(Insert(s, i, c), i) == (if i > 0 then s[i - 1] else null)
  {
  }

  /** Where a node stands among its neighbours. */
  lemma Neighbour(f: Forest, c: Node, x: Node)
    requires WF(f) && c in f && f[c].par != null && x in f && x != c
    ensures x == Prev(f, c) <==> f[x].par == f[c].par && f[x].pos + 1 == f[c].pos
    ensures x == Next(f, c) <==> f[x].par == f[c].par && f[x].pos == f[c].pos + 1
  {
    Ok(f, c);
    Ok(f, f[c].par);
    Ok(f, x);
    hide WF, TreeOk, AttrsOk;
  }

  lemma DetachedLinks(f: Forest, c: Node, x: Node)
    requires WF(f) && c in f && f[c].par != null && x in f && WF(Detached(f, c))
    ensures var f' := Detached(f, c);
            && x in f'
            && Next(f', x) == (if x == c then null else if x == Prev(f, c) then Next(f, c) else Next(f, x))
            && Prev(f', x) == (if x == c then null else if x == Next(f, c) then Prev(f, c) else Prev(f, x))
  {
    hide WF, Detached, Siblings, Index, Remove, KidsOk, AttrsOk, UpOk, TreeOk;
    DetachedLists(f, c, x);
    if x != c {
      Neighbour(f, c, x);
      if f[x].par == f[c].par {
        hide After, Before;
        RemoveNeighbours(f[f[c].par].kids, f[c].pos, f[x].pos);
      }
    }
  }

  lemma DetachedRest(f: Forest, c: Node, x: Node)
    requires WF(f) && c in f && f[c].par != null && x in f
    ensures var f' := Detached(f, c);
            && x in f'
            && First(f'[x].kids) == (if x == f[c].par && First(f[x].kids) == c then Next(f, c) else First(f[x].kids))
            && f'[x].attrs == f[x].attrs && f'[x].lab == f[x].lab && f'[x].hold == f[x].hold
            && f'[x].par == (if x == c then null else f[x].par)
  {
    Ok(f, c);
    Ok(f, f[c].par);
    hide WF, Subst, TreeOk, AttrsOk;
  }

  lemma AttachedLists(f: Forest, p: Node, c: Node, i: nat, x: Node)
    requires WF(f) && p in f && Free(f, c) && i <= |f[p].kids| && x in f && WF(Attached(f, p, c, i))
    ensures var f' := Attached(f, p, c, i);
            && x in f'
            && (x == c ==> Siblings(f', x) == Insert(f[p].kids, i, c) && Index(f', x) == i)
            && (x != c && f[x].par == p ==>
                  && Siblings(f, x) == f[p].kids && f[x].pos == Index(f, x)
                  && Siblings(f', x) == Insert(f[p].kids, i, c)
                  && Index(f', x) == if f[x].pos >= i then f[x].pos + 1 else f[x].pos)
            && (x != c && f[x].par != p ==> Siblings(f', x) == Siblings(f, x) && Index(f', x) == Index(f, x))
  {
    Ok(f, x);
    EitherList(f, x);
    hide WF, Subst, TreeOk, AttrsOk, KidsOk;
  }

  lemma Listed(f: Forest, p: Node, j: nat, x: Node)
    requires WF(f) && p in f && x in f && j < |f[p].kids|
    ensures f[p].kids[j] == x <==> f[x].par == p && f[x].pos == j
  {
    Ok(f, p);
    Ok(f, x);
    hide WF;
  }

  lemma AttachedLinks(f: Forest, p: Node, c: Node, i: nat, x: Node)
    requires WF(f) && p in f && Free(f, c) && i <= |f[p].kids| && x in f && WF(Attached(f, p, c, i))
    ensures var f', s := Attached(f, p, c, i), f[p].kids;
            && x in f'
            && Next(f', x) == (if x == c then if i < |s| then s[i] else null
                               else if i > 0 && x == s[i - 1] then c else Next(f, x))
            && Prev(f', x) == (if x == c then if i > 0 then s[i - 1] else null
                               else if i < |s| && x == s[i] then c else Prev(f, x))
  {
    hide WF, Attached, Siblings, Index, KidsOk, AttrsOk, UpOk, TreeOk;
    AttachedLists(f, p, c, i, x);
    if i > 0 {
      Listed(f, p, i - 1, x);
    }
    if i < |f[p].kids| {
      Listed(f, p, i, x);
    }
    if x != c && f[x].par == p {
      ListedAt(f, p, x);
      hide After, Before, Insert;
      InsertNeighbours(f[p].kids, i, c, f[x].pos);
    }
  }

  lemma ListedAt(f: Forest, p: Node, x: Node)
    requires WF(f) && p in f && x in f && f[x].par == p
    ensures f[x].pos < |f[p].kids| && f[p].kids[f[x].pos] == x
  {
    Ok(f, x);
  }

  lemma AttachedRest(f: Forest, p: Node, c: Node, i: nat, x: Node)
    requires WF(f) && p in f && Free(f, c) && i <= |f[p].kids| && x in f
    ensures var f' := Attached(f, p, c, i);
            && x in f'
            && First(f'[x].kids) == (if x == p && i == 0 then c else First(f[x].kids))
            && f'[x].attrs == f[x].attrs && f'[x].lab == f[x].lab && f'[x].hold == f[x].hold
            && f'[x].par == (if x == c then p else f[x].par)
  {
    hide WF, Subst;
  }
}
