/** How the frames of the parser machine stand for the nodes built so far. */
module Building {
  import opened Bytes
  import opened Xml
  import opened Nodes
  import opened Forests
  import opened Edits
  import opened Attributes
  import opened AttrMaps
  import opened Printer
  import Freeing
  import Machine

  type Values = map<Node, Tree>

  ghost predicate Same(f: Forest, g: Forest, x: Node) {
    x in f && x in g && g[x].lab == f[x].lab && g[x].attrs == f[x].attrs && g[x].kids == f[x].kids
  }

  // ----- finished nodes

  ghost function KidValues(val: Values, s: seq<Node>): seq<Tree> {
    seq(|s|, i requires 0 <= i < |s| => if s[i] in val then val[s[i]] else Text([]))
  }

  /** A finished node has the value its fields and the values of its children say. */
  ghost predicate Finished(f: Forest, val: Values, k: Node) {
    && k in f && k in val && AttrsKnown(f, k)
    && match f[k].lab.typ
       case ElementNode =>
         && (forall i | 0 <= i < |f[k].kids| :: f[k].kids[i] in val)
         && val[k] == Element(f[k].lab.name, AttrValues(f, f[k].attrs), KidValues(val, f[k].kids))
       case TextNodeType => f[k].lab.value.Some? && val[k] == Text(f[k].lab.value.value) && f[k].kids == []
       case CDataSectionNode => f[k].lab.value.Some? && val[k] == CData(f[k].lab.value.value) && f[k].kids == []
       case _ => false
  }

  ghost predicate AttrsKnown(f: Forest, n: Node)
    requires n in f
  {
    forall i | 0 <= i < |f[n].attrs| :: f[n].attrs[i] in f
  }

  ghost predicate AllFinished(f: Forest, val: Values) {
    forall k | k in val :: Finished(f, val, k)
  }

  /** The value of a finished node is that of its tree. */
  lemma {:induction false} FinishedValue(f: Forest, val: Values, k: Node)
    requires WF(f) && AllFinished(f, val) && k in val
    ensures k in f && Value(f, f[k].tree) == val[k] && PlainTrees(f, [f[k].tree])
    decreases if k in f then f[k].tree else Rose(k, [])
  {
    assert Finished(f, val, k);
    Ok(f, k);
    var t := f[k].tree;
    ValueIs(f, t);
    if f[k].lab.typ == ElementNode {
      forall i | 0 <= i < |t.kids|
        ensures Value(f, t.kids[i]) == KidValues(val, f[k].kids)[i] && PlainTrees(f, [t.kids[i]])
      {
        FinishedValue(f, val, f[k].kids[i]);
      }
      assert Printer.Values(f, t.kids) == KidValues(val, f[k].kids);
      PlainAll(f, t.kids);
    }
  }

  lemma PlainAll(f: Forest, ts: seq<Rose>)
    requires forall i | 0 <= i < |ts| :: PlainTrees(f, [ts[i]])
    ensures PlainTrees(f, ts)
  {
    forall i | 0 <= i < |ts|
      ensures ts[i].node in f
      ensures match f[ts[i].node].lab.typ
              case ElementNode => PlainTrees(f, ts[i].kids)
              case TextNodeType => true
              case CDataSectionNode => f[ts[i].node].lab.value.Some?
              case _ => false
    {
      assert PlainTrees(f, [ts[i]]);
      assert [ts[i]][0] == ts[i];
    }
  }

  // ----- open nodes

  /** The node a frame stands for; all its children but the open one are finished. */
  ghost predicate Opened(f: Forest, val: Values, n: Node, fr: Machine.Frame, inner: Node?) {
    && n in f && n !in val && f[n].lab.name == fr.name && AttrsKnown(f, n) && AttrValues(f, f[n].attrs) == fr.attrs
    && (forall i | 0 <= i < |Done(f[n].kids, inner)| :: Done(f[n].kids, inner)[i] in val)
    && KidValues(val, Done(f[n].kids, inner)) == fr.kids
    && (inner != null ==> f[n].kids != [] && f[n].kids[|f[n].kids| - 1] == inner)
  }

  /** The children before the open one. */
  ghost function Done(s: seq<Node>, inner: Node?): seq<Node> {
    if inner == null || s == [] then s else s[..|s| - 1]
  }

  ghost predicate OpenAt(f: Forest, val: Values, ns: seq<Node>, open: seq<Machine.Frame>, i: nat)
    requires i < |ns| == |open|
  {
    && Opened(f, val, ns[i], open[i], if i > 0 then ns[i - 1] else null)
    && f[ns[i]].lab.typ == (if i == |ns| - 1 then DocumentNode else ElementNode)
    && f[ns[i]].par == (if i == |ns| - 1 then null else ns[i + 1])
  }

  /** `ns` is the parent chain from the current node to the document, and the frames say what has been built of each. */
  ghost predicate Mirrors(f: Forest, val: Values, ns: seq<Node>, open: seq<Machine.Frame>) {
    && WF(f) && AllFinished(f, val) && |ns| == |open| > 0
    && forall i | 0 <= i < |ns| :: OpenAt(f, val, ns, open, i)
  }

  lemma Outside(f: Forest, val: Values, ns: seq<Node>, open: seq<Machine.Frame>)
    requires Mirrors(f, val, ns, open)
    ensures ns[0] in f && f[ns[0]].hold == null && ns[0] !in val
    ensures f[ns[0]].lab.name == open[0].name && AttrsKnown(f, ns[0]) && AttrValues(f, f[ns[0]].attrs) == open[0].attrs
    ensures f[ns[0]].lab.typ == if |ns| == 1 then DocumentNode else ElementNode
    ensures f[ns[0]].par == if |ns| == 1 then null else ns[1]
  {
    assert OpenAt(f, val, ns, open, 0);
    Ok(f, ns[0]);
    if f[ns[0]].hold != null {
      Ok(f, f[ns[0]].hold);
    }
    hide WF;
  }

  // ----- how a forest grows

  /** `g` is `f` with the new node `c` at the end of the children of `p`. */
  ghost predicate Grew(f: Forest, g: Forest, p: Node, c: Node, l: Label) {
    && WF(g) && p in f && c !in f && g.Keys == f.Keys + {c}
    && g[c].lab == l && g[c].kids == [] && g[c].attrs == [] && g[c].par == p
    && g[p].kids == f[p].kids + [c]
    && (forall x | x in f && x != p :: g[x].kids == f[x].kids)
    && (forall x | x in f :: g[x].lab == f[x].lab && g[x].attrs == f[x].attrs && g[x].par == f[x].par)
  }

  lemma NewFits(f: Forest, p: Node, c: Node, l: Label)
    requires WF(f) && p in f && c !in f && f[p].hold == null
    ensures WF(Added(f, c, l)) && Fits(Added(f, c, l), p, c)
    ensures Taken(Added(f, c, l), p, c) == Added(f, c, l)
  {
    AddedKeeps(f, c, l);
  }

  lemma AppendGrows(f: Forest, p: Node, c: Node, l: Label)
    requires WF(f) && p in f && c !in f && f[p].hold == null
    requires WF(Added(f, c, l)) && Fits(Added(f, c, l), p, c)
    ensures Grew(f, Appended(Added(f, c, l), p, c), p, c, l)
  {
    hide WF, Appended, Taken, Fits, Attached, Without;
    AddedFields(f, c, l);
    var h := Added(f, c, l);
    AppendedKeeps(h, p, c);
    Edits.AppendActs(h, p, c);
    NotAmong(f, p, c);
    WithoutAbsent(f[p].kids, c);
    hide Added;
    var g := Appended(h, p, c);
    forall x | x in h
      ensures g[x].lab == h[x].lab && g[x].attrs == h[x].attrs && g[x].par == if x == c then p else h[x].par
    {
      AppendRest(f, h, p, c, l, x);
    }
  }

  lemma AddedFields(f: Forest, c: Node, l: Label)
    requires c !in f
    ensures var h := Added(f, c, l);
            && h.Keys == f.Keys + {c} && h[c].lab == l && h[c].kids == [] && h[c].attrs == []
            && forall x | x in f :: h[x] == f[x]
  {
  }

  lemma AppendRest(f: Forest, h: Forest, p: Node, c: Node, l: Label, x: Node)
    requires WF(f) && p in f && c !in f && f[p].hold == null && WF(h) && h == Added(f, c, l) && Fits(h, p, c) && x in h
    ensures var g := Appended(h, p, c);
            x in g && g[x].lab == h[x].lab && g[x].attrs == h[x].attrs && g[x].par == if x == c then p else h[x].par
  {
    NewFits(f, p, c, l);
    TakenKeeps(h, p, c);
    AttachedRest(h, p, c, |h[p].kids|, x);
  }

  lemma NotAmong(f: Forest, p: Node, c: Node)
    requires WF(f) && p in f && c !in f
    ensures c !in f[p].kids
  {
    Ok(f, p);
  }

  /** What is known of attributes stays known. */
  lemma AttrValuesStay(f: Forest, g: Forest, x: Node)
    requires x in f && x in g && AttrsKnown(f, x) && g[x].attrs == f[x].attrs
    requires forall a | a in f :: a in g && g[a].lab == f[a].lab
    ensures AttrsKnown(g, x) && AttrValues(g, g[x].attrs) == AttrValues(f, f[x].attrs)
  {
  }

  lemma KidValuesStay(val: Values, val': Values, s: seq<Node>)
    requires forall i | 0 <= i < |s| :: s[i] in val && s[i] in val' && val'[s[i]] == val[s[i]]
    ensures KidValues(val', s) == KidValues(val, s)
  {
  }

  /** A finished node stays finished as long as it and its attributes are as they were. */
  lemma FinishedStays(f: Forest, val: Values, g: Forest, val': Values, k: Node)
    requires Finished(f, val, k) && Same(f, g, k)
    requires forall a | a in f :: a in g && g[a].lab == f[a].lab
    requires forall x | x in val :: x in val' && val'[x] == val[x]
    ensures Finished(g, val', k)
  {
    AttrValuesStay(f, g, k);
    if f[k].lab.typ == ElementNode {
      KidValuesStay(val, val', f[k].kids);
    }
  }

  lemma OpenedStays(f: Forest, val: Values, g: Forest, val': Values, n: Node, fr: Machine.Frame, inner: Node?)
    requires Opened(f, val, n, fr, inner) && Same(f, g, n) && n !in val'
    requires forall a | a in f :: a in g && g[a].lab == f[a].lab
    requires forall x | x in val :: x in val' && val'[x] == val[x]
    ensures Opened(g, val', n, fr, inner)
  {
    AttrValuesStay(f, g, n);
    KidValuesStay(val, val', Done(f[n].kids, inner));
  }

  lemma GrewSame(f: Forest, g: Forest, p: Node, c: Node, l: Label, x: Node)
    requires Grew(f, g, p, c, l) && x in f
    ensures x in g && g[x].lab == f[x].lab && g[x].attrs == f[x].attrs && g[x].par == f[x].par
    ensures x != p ==> Same(f, g, x)
  {
    hide WF;
  }

  // ----- the four events

  /** The chain holds no node twice, and no finished one. */
  lemma ChainApart(f: Forest, val: Values, ns: seq<Node>, open: seq<Machine.Frame>, i: nat)
    requires Mirrors(f, val, ns, open) && i < |ns|
    ensures ns[i] in f && ns[i] !in val && (i > 0 ==> ns[i] != ns[0])
  {
    assert OpenAt(f, val, ns, open, i);
    if i > 0 && ns[i] == ns[0] {
      Descends(f, val, ns, open, 0, i);
    }
  }

  /** What the mirroring says of one open element. */
  lemma MirrorsAt(f: Forest, val: Values, ns: seq<Node>, open: seq<Machine.Frame>, i: nat)
    requires Mirrors(f, val, ns, open) && i < |ns|
    ensures WF(f) && |ns| == |open| && ns[i] in f && ns[i] !in val && (i > 0 ==> ns[i] != ns[0])
    ensures Opened(f, val, ns[i], open[i], if i > 0 then ns[i - 1] else null)
    ensures f[ns[i]].lab.typ == (if i == |ns| - 1 then DocumentNode else ElementNode)
    ensures f[ns[i]].par == (if i == |ns| - 1 then null else ns[i + 1])
  {
    ChainApart(f, val, ns, open, i);
    hide WF, AllFinished, Opened;
    assert OpenAt(f, val, ns, open, i);
  }

  lemma {:induction false} Descends(f: Forest, val: Values, ns: seq<Node>, open: seq<Machine.Frame>, i: nat, j: nat)
    requires Mirrors(f, val, ns, open) && i <= j < |ns|
    ensures ns[i] in f && ns[j] in f && Size(f[ns[i]].tree) + (j - i) <= Size(f[ns[j]].tree)
    decreases j - i
  {
    assert OpenAt(f, val, ns, open, i);
    if i < j {
      Freeing.LargerAbove(f, ns[i]);
      Descends(f, val, ns, open, i + 1, j);
    }
  }

  lemma AllFinishedGrew(f: Forest, g: Forest, val: Values, val': Values, p: Node, c: Node, l: Label, k: Node)
    requires Grew(f, g, p, c, l) && AllFinished(f, val) && p !in val && k in val
    requires forall x | x in val :: x in val' && val'[x] == val[x]
    ensures Finished(g, val', k)
  {
    assert Finished(f, val, k);
    GrewSame(f, g, p, c, l, k);
    hide WF;
    FinishedStays(f, val, g, val', k);
  }

  /** A start tag. */
  lemma OpenMirrors(f: Forest, g: Forest, val: Values, ns: seq<Node>, open: seq<Machine.Frame>, e: Node, l: Label)
    requires Mirrors(f, val, ns, open) && Grew(f, g, ns[0], e, l) && l.typ == ElementNode
    ensures Mirrors(g, val, [e] + ns, [Machine.Frame(l.name, [], [])] + open)
  {
    hide WF, Opened, Finished;
    ChainApart(f, val, ns, open, 0);
    var ns', open' := [e] + ns, [Machine.Frame(l.name, [], [])] + open;
    forall k | k in val ensures Finished(g, val, k) {
      AllFinishedGrew(f, g, val, val, ns[0], e, l, k);
    }
    forall i | 0 <= i < |ns'| ensures OpenAt(g, val, ns', open', i) {
      if i == 0 {
        NewOpened(f, g, val, ns[0], e, l);
      } else {
        assert ns'[i] == ns[i - 1] && open'[i] == open[i - 1];
        OpenBelow(f, g, val, ns, open, e, l, i - 1);
      }
    }
  }

  lemma NewOpened(f: Forest, g: Forest, val: Values, p: Node, e: Node, l: Label)
    requires Grew(f, g, p, e, l) && AllFinished(f, val)
    ensures Opened(g, val, e, Machine.Frame(l.name, [], []), null)
  {
    assert e in val ==> Finished(f, val, e);
  }

  lemma OpenBelow(f: Forest, g: Forest, val: Values, ns: seq<Node>, open: seq<Machine.Frame>, e: Node, l: Label, i: nat)
    requires Mirrors(f, val, ns, open) && Grew(f, g, ns[0], e, l) && i < |ns|
    ensures Opened(g, val, ns[i], open[i], if i > 0 then ns[i - 1] else e)
    ensures g[ns[i]].lab == f[ns[i]].lab && g[ns[i]].par == f[ns[i]].par
    ensures f[ns[i]].lab.typ == (if i == |ns| - 1 then DocumentNode else ElementNode)
    ensures f[ns[i]].par == (if i == |ns| - 1 then null else ns[i + 1])
  {
    MirrorsAt(f, val, ns, open, i);
    GrewSame(f, g, ns[0], e, l, ns[i]);
    hide WF, Mirrors, Opened, Same, Grew;
    if i > 0 {
      GrewLabels(f, g, ns[0], e, l);
      OpenedStays(f, val, g, val, ns[i], open[i], ns[i - 1]);
    } else {
      OpenInnermost(f, g, val, ns[0], open[0], e, l);
    }
  }

  lemma GrewLabels(f: Forest, g: Forest, p: Node, c: Node, l: Label)
    requires Grew(f, g, p, c, l)
    ensures forall a | a in f :: a in g && g[a].lab == f[a].lab
  {
    hide WF;
  }

  lemma OpenInnermost(f: Forest, g: Forest, val: Values, p: Node, fr: Machine.Frame, e: Node, l: Label)
    requires Opened(f, val, p, fr, null) && Grew(f, g, p, e, l)
    ensures Opened(g, val, p, fr, e)
  {
    hide WF;
    AttrValuesStay(f, g, p);
    hide AttrValues, KidValues;
    assert Done(g[p].kids, e) == f[p].kids;
  }

  /** Text or CDATA. */
  lemma LeafMirrors(f: Forest, g: Forest, val: Values, ns: seq<Node>, open: seq<Machine.Frame>, t: Node, l: Label,
                    v: Tree)
    requires Mirrors(f, val, ns, open) && Grew(f, g, ns[0], t, l) && l.value.Some?
    requires (l.typ == TextNodeType && v == Text(l.value.value))
             || (l.typ == CDataSectionNode && v == CData(l.value.value))
    ensures Mirrors(g, val[t := v], ns, [Machine.AddKid(open[0], v)] + open[1..])
  {
    hide WF, Opened, Finished;
    ChainApart(f, val, ns, open, 0);
    var val', open' := val[t := v], [Machine.AddKid(open[0], v)] + open[1..];
    forall k | k in val' ensures Finished(g, val', k) {
      ValStays(f, val, t);
      if k != t {
        AllFinishedGrew(f, g, val, val', ns[0], t, l, k);
      } else {
        LeafFinished(f, g, val', ns[0], t, l, v);
      }
    }
    forall i | 0 <= i < |ns| ensures OpenAt(g, val', ns, open', i) {
      if i > 0 {
        assert open'[i] == open[i];
      }
      LeafBelow(f, g, val, ns, open, t, l, v, i);
    }
  }

  lemma LeafFinished(f: Forest, g: Forest, val: Values, p: Node, t: Node, l: Label, v: Tree)
    requires Grew(f, g, p, t, l) && l.value.Some? && t in val && val[t] == v
    requires (l.typ == TextNodeType && v == Text(l.value.value))
             || (l.typ == CDataSectionNode && v == CData(l.value.value))
    ensures Finished(g, val, t)
  {
  }

  lemma ValStays(f: Forest, val: Values, t: Node)
    requires AllFinished(f, val) && t !in f
    ensures t !in val
  {
    assert t in val ==> Finished(f, val, t);
  }

  lemma LeafBelow(f: Forest, g: Forest, val: Values, ns: seq<Node>, open: seq<Machine.Frame>, t: Node, l: Label,
                  v: Tree, i: nat)
    requires Mirrors(f, val, ns, open) && Grew(f, g, ns[0], t, l) && i < |ns|
    ensures Opened(g, val[t := v], ns[i], if i > 0 then open[i] else Machine.AddKid(open[0], v),
                   if i > 0 then ns[i - 1] else null)
    ensures g[ns[i]].lab == f[ns[i]].lab && g[ns[i]].par == f[ns[i]].par
    ensures f[ns[i]].lab.typ == (if i == |ns| - 1 then DocumentNode else ElementNode)
    ensures f[ns[i]].par == (if i == |ns| - 1 then null else ns[i + 1])
  {
    hide WF, Mirrors, Opened, Same, Grew;
    MirrorsAt(f, val, ns, open, i);
    NewNode(f, g, val, ns, open, t, l);
    GrewSame(f, g, ns[0], t, l, ns[i]);
    if i > 0 {
      OuterStays(f, g, val, ns[0], t, l, v, ns[i], open[i], ns[i - 1]);
    } else {
      LeafInnermost(f, g, val, ns[0], open[0], t, l, v);
    }
  }

  lemma OuterStays(f: Forest, g: Forest, val: Values, p: Node, t: Node, l: Label, v: Tree,
                   n: Node, fr: Machine.Frame, inner: Node)
    requires Grew(f, g, p, t, l) && t !in val && n != p && n != t && n !in val && Opened(f, val, n, fr, inner)
    ensures Opened(g, val[t := v], n, fr, inner)
  {
    NodeOpened(f, val, n, fr, inner);
    GrewSame(f, g, p, t, l, n);
    GrewLabels(f, g, p, t, l);
    hide WF, Opened, Same, Grew;
    OpenedStays(f, val, g, val[t := v], n, fr, inner);
  }

  lemma NodeOpened(f: Forest, val: Values, n: Node, fr: Machine.Frame, inner: Node?)
    requires Opened(f, val, n, fr, inner)
    ensures n in f
  {
  }

  lemma NewNode(f: Forest, g: Forest, val: Values, ns: seq<Node>, open: seq<Machine.Frame>, t: Node, l: Label)
    requires Mirrors(f, val, ns, open) && Grew(f, g, ns[0], t, l)
    ensures t !in f && t !in val && forall i | 0 <= i < |ns| :: ns[i] != t
  {
    ValStays(f, val, t);
    hide WF, AllFinished;
    forall i | 0 <= i < |ns| ensures ns[i] != t {
      assert OpenAt(f, val, ns, open, i);
    }
  }

  lemma LeafInnermost(f: Forest, g: Forest, val: Values, p: Node, fr: Machine.Frame, t: Node, l: Label, v: Tree)
    requires Opened(f, val, p, fr, null) && Grew(f, g, p, t, l) && t !in val
    ensures Opened(g, val[t := v], p, Machine.AddKid(fr, v), null)
  {
    hide WF;
    AttrValuesStay(f, g, p);
    hide AttrValues;
    var s := f[p].kids;
    KidValuesStay(val, val[t := v], s);
    assert KidValues(val[t := v], s + [t]) == KidValues(val[t := v], s) + [v];
  }

  /** An end tag: the innermost node is finished. */
  lemma CloseMirrors(f: Forest, val: Values, ns: seq<Node>, open: seq<Machine.Frame>)
    requires Mirrors(f, val, ns, open) && |ns| > 1
    ensures Mirrors(f, val[ns[0] := Machine.Closed(open[0])], ns[1..],
                    [Machine.AddKid(open[1], Machine.Closed(open[0]))] + open[2..])
  {
    var v := Machine.Closed(open[0]);
    var val', open' := val[ns[0] := v], [Machine.AddKid(open[1], v)] + open[2..];
    ChainApart(f, val, ns, open, 0);
    assert OpenAt(f, val, ns, open, 0);
    KidValuesStay(val, val', f[ns[0]].kids);
    forall k | k in val' ensures Finished(f, val', k) {
      if k != ns[0] {
        assert Finished(f, val, k);
        FinishedStays(f, val, f, val', k);
      }
    }
    forall i | 0 <= i < |ns| - 1 ensures OpenAt(f, val', ns[1..], open', i) {
      ClosedBelow(f, val, ns, open, i + 1);
      if i > 0 {
        assert open'[i] == open[i + 1] && ns[1..][i - 1] == ns[i];
      }
    }
  }

  lemma ClosedBelow(f: Forest, val: Values, ns: seq<Node>, open: seq<Machine.Frame>, i: nat)
    requires Mirrors(f, val, ns, open) && 0 < i < |ns|
    ensures var v := Machine.Closed(open[0]);
            Opened(f, val[ns[0] := v], ns[i], if i > 1 then open[i] else Machine.AddKid(open[1], v),
                   if i > 1 then ns[i - 1] else null)
    ensures f[ns[i]].lab.typ == (if i == |ns| - 1 then DocumentNode else ElementNode)
    ensures f[ns[i]].par == (if i == |ns| - 1 then null else ns[i + 1])
  {
    var v := Machine.Closed(open[0]);
    ChainApart(f, val, ns, open, i);
    ChainApart(f, val, ns, open, 0);
    assert OpenAt(f, val, ns, open, i);
    hide WF, AllFinished;
    hide Opened, OpenAt;
    if i > 1 {
      OpenedStays(f, val, f, val[ns[0] := v], ns[i], open[i], ns[i - 1]);
    } else {
      ClosedInnermost(f, val, ns[1], open[1], ns[0], v);
    }
  }

  lemma ClosedInnermost(f: Forest, val: Values, p: Node, fr: Machine.Frame, c: Node, v: Tree)
    requires Opened(f, val, p, fr, c) && c !in val && p != c
    ensures Opened(f, val[c := v], p, Machine.AddKid(fr, v), null)
  {
    hide AttrValues;
    var s := f[p].kids;
    KidValuesStay(val, val[c := v], Done(s, c));
    assert s == Done(s, c) + [c];
    assert KidValues(val[c := v], s) == KidValues(val[c := v], Done(s, c)) + [v];
  }

  // ----- attributes

  ghost function WithAttr(f: Forest, e: Node, a: Node, l: Label): Forest
    requires e in f && a !in f
  {
    AttrAdded(Added(f, a, l), e, a)
  }

  /** `g` is `f` with the new node `a` at the end of the attributes of `e`. */
  ghost predicate GrewAttr(f: Forest, g: Forest, e: Node, a: Node, l: Label) {
    && WF(g) && e in f && a !in f && g.Keys == f.Keys + {a} && g[a].lab == l
    && g[e].attrs == f[e].attrs + [a]
    && (forall x | x in f && x != e :: g[x].attrs == f[x].attrs)
    && (forall x | x in f :: g[x].lab == f[x].lab && g[x].kids == f[x].kids && g[x].par == f[x].par)
  }

  lemma AttrGrows(f: Forest, e: Node, a: Node, l: Label)
    requires WF(f) && e in f && a !in f && f[e].hold == null && l.typ == AttributeNode
    ensures GrewAttr(f, WithAttr(f, e, a, l), e, a, l)
  {
    AddedKeeps(f, a, l);
    AttrAddedKeeps(Added(f, a, l), e, a);
    hide WF, AttrAdded;
    var g := WithAttr(f, e, a, l);
    AttrRest(f, e, a, l, e);
    forall x | x in f
      ensures g[x].lab == f[x].lab && g[x].kids == f[x].kids && g[x].par == f[x].par
      ensures x != e ==> g[x].attrs == f[x].attrs
    {
      AttrRest(f, e, a, l, x);
    }
  }

  lemma AttrRest(f: Forest, e: Node, a: Node, l: Label, x: Node)
    requires e in f && a !in f && x in f
    ensures var g := WithAttr(f, e, a, l);
            && a in g && g[a].lab == l && g.Keys == f.Keys + {a}
            && x in g && g[x].lab == f[x].lab && g[x].kids == f[x].kids && g[x].par == f[x].par
            && g[x].attrs == if x == e then f[e].attrs + [a] else f[x].attrs
  {
  }

  lemma AttrMirrors(f: Forest, g: Forest, val: Values, ns: seq<Node>, open: seq<Machine.Frame>, a: Node, l: Label,
                    value: bytes)
    requires Mirrors(f, val, ns, open) && GrewAttr(f, g, ns[0], a, l) && l.value == Some(value)
    ensures Mirrors(g, val, ns, [open[0].(attrs := open[0].attrs + [Attr(l.name, value)])] + open[1..])
  {
    ChainApart(f, val, ns, open, 0);
    var open' := [open[0].(attrs := open[0].attrs + [Attr(l.name, value)])] + open[1..];
    forall k | k in val ensures Finished(g, val, k) {
      assert Finished(f, val, k);
      assert Same(f, g, k);
      hide WF;
      FinishedStays(f, val, g, val, k);
    }
    forall i | 0 <= i < |ns| ensures OpenAt(g, val, ns, open', i) {
      if i > 0 {
        assert open'[i] == open[i];
      }
      AttrBelow(f, g, val, ns, open, a, l, value, i);
    }
  }

  lemma AttrBelow(f: Forest, g: Forest, val: Values, ns: seq<Node>, open: seq<Machine.Frame>, a: Node, l: Label,
                  value: bytes, i: nat)
    requires Mirrors(f, val, ns, open) && GrewAttr(f, g, ns[0], a, l) && l.value == Some(value) && i < |ns|
    ensures Opened(g, val, ns[i], if i > 0 then open[i] else open[0].(attrs := open[0].attrs + [Attr(l.name, value)]),
                   if i > 0 then ns[i - 1] else null)
    ensures g[ns[i]].lab == f[ns[i]].lab && g[ns[i]].par == f[ns[i]].par
    ensures f[ns[i]].lab.typ == (if i == |ns| - 1 then DocumentNode else ElementNode)
    ensures f[ns[i]].par == (if i == |ns| - 1 then null else ns[i + 1])
  {
    MirrorsAt(f, val, ns, open, i);
    GrewAttrSame(f, g, ns[0], a, l, ns[i]);
    hide WF, Mirrors, Opened, Same, GrewAttr;
    if i > 0 {
      OpenedStays(f, val, g, val, ns[i], open[i], ns[i - 1]);
    } else {
      AttrInnermost(f, g, val, ns[0], open[0], a, l, value);
    }
  }

  lemma GrewAttrSame(f: Forest, g: Forest, e: Node, a: Node, l: Label, x: Node)
    requires GrewAttr(f, g, e, a, l) && x in f
    ensures x in g && g[x].lab == f[x].lab && g[x].par == f[x].par && (x != e ==> Same(f, g, x))
    ensures forall y | y in f :: y in g && g[y].lab == f[y].lab
  {
    hide WF;
  }

  lemma AttrInnermost(f: Forest, g: Forest, val: Values, e: Node, fr: Machine.Frame, a: Node, l: Label, value: bytes)
    requires Opened(f, val, e, fr, null) && GrewAttr(f, g, e, a, l) && l.value == Some(value)
    ensures Opened(g, val, e, fr.(attrs := fr.attrs + [Attr(l.name, value)]), null)
  {
    hide WF, KidValues;
    var s := f[e].attrs;
    assert AttrValues(g, s + [a]) == AttrValues(f, s) + [Attr(l.name, value)];
  }

  // ----- the end

  /** When only the document is open, its children are what the machine has read. */
  lemma DocumentDone(f: Forest, val: Values, ns: seq<Node>, open: seq<Machine.Frame>)
    requires Mirrors(f, val, ns, open) && |ns| == 1
    ensures ns[0] in f && f[ns[0]].lab.typ == DocumentNode
    ensures Printer.Values(f, f[ns[0]].tree.kids) == open[0].kids && PlainTrees(f, f[ns[0]].tree.kids)
  {
    assert OpenAt(f, val, ns, open, 0);
    Ok(f, ns[0]);
    var ts := f[ns[0]].tree.kids;
    forall i | 0 <= i < |ts| ensures Value(f, ts[i]) == open[0].kids[i] && PlainTrees(f, [ts[i]]) {
      FinishedValue(f, val, f[ns[0]].kids[i]);
    }
    PlainAll(f, ts);
  }

  /** A document that has just been created. */
  lemma MirrorsStart(doc: Node, l: Label)
    requires l.typ == DocumentNode
    ensures Mirrors(Added(map[], doc, l), map[], [doc], [Machine.Frame(l.name, [], [])])
  {
    AddedKeeps(map[], doc, l);
    var f, ns, open := Added(map[], doc, l), [doc], [Machine.Frame(l.name, [], [])];
    assert OpenAt(f, map[], ns, open, 0);
  }
}
