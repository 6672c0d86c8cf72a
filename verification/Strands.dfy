/** Lists of sibling nodes that have no parent yet, as cloning builds them. */
module Strands {
  import opened Nodes
  import opened Forests
  import opened NodeOps

  ghost predicate Distinct(s: seq<Node>) {
    forall i, j | 0 <= i < j < |s| :: s[i] != s[j]
  }

  /** Where an element of the list stands. */
  ghost function Pos(s: seq<Node>, x: Node): (i: nat)
    requires x in s
    ensures i < |s| && s[i] == x
  {
    if s[0] == x then 0 else 1 + Pos(s[1..], x)
  }

  lemma PosAt(s: seq<Node>, i: nat)
    requires Distinct(s) && i < |s|
    ensures Pos(s, s[i]) == i
  {
  }

  /** The members of the list are roots of the forest. */
  ghost predicate Roots(g: Forest, s: seq<Node>) {
    WF(g) && Distinct(s) && forall i | 0 <= i < |s| :: Free(g, s[i])
  }

  /** The links of a node, where the roots are linked to their neighbours in the list. */
  ghost predicate StrandAt(g: Forest, s: seq<Node>, par: Node?, x: Node)
    requires WF(g) && x in g
    reads x
  {
    HasLinks(x, if x in s then par else g[x].par, First(g[x].kids),
           if x in s then After(s, Pos(s, x)) else Next(g, x),
           if x in s then Before(s, Pos(s, x)) else Prev(g, x),
           First(g[x].attrs), g[x].lab)
  }

  ghost predicate Strand(g: Forest, s: seq<Node>, par: Node?)
    reads g.Keys
  {
    Roots(g, s) && forall x | x in g :: StrandAt(g, s, par, x)
  }

  lemma NoStrand(par: Node?)
    ensures Strand(map[], [], par)
  {
  }

  /** A strand of one node is a forest as it stands. */
  lemma StrandOfOne(g: Forest, r: Node)
    requires Strand(g, [r], null)
    ensures Holds(g) && Free(g, r)
  {
    assert Free(g, [r][0]);
    forall x | x in g ensures RepNode(g, x) {
      assert StrandAt(g, [r], null, x);
    }
  }

  // ----- union of disjoint forests

  lemma UnionAt(a: Forest, b: Forest, n: Node)
    requires WF(a) && WF(b) && a.Keys !! b.Keys && n in a
    ensures KidsOk(a + b, n) && AttrsOk(a + b, n) && UpOk(a + b, n) && TreeOk(a + b, n)
    ensures n in b + a && KidsOk(b + a, n) && AttrsOk(b + a, n) && UpOk(b + a, n) && TreeOk(b + a, n)
    ensures WF(a + b) ==> Next(a + b, n) == Next(a, n) && Prev(a + b, n) == Prev(a, n)
    ensures WF(b + a) ==> Next(b + a, n) == Next(a, n) && Prev(b + a, n) == Prev(a, n)
  {
    Ok(a, n);
    hide WF;
  }

  lemma UnionOk(a: Forest, b: Forest)
    requires WF(a) && WF(b) && a.Keys !! b.Keys
    ensures WF(a + b)
  {
    hide KidsOk, AttrsOk, UpOk, TreeOk;
    forall n | n in a + b ensures KidsOk(a + b, n) && AttrsOk(a + b, n) && UpOk(a + b, n) && TreeOk(a + b, n) {
      if n in a {
        UnionAt(a, b, n);
      } else {
        UnionAt(b, a, n);
      }
    }
  }

  /** Disjoint forests hold together. */
  lemma UnionHolds(a: Forest, b: Forest)
    requires Holds(a) && Holds(b) && a.Keys !! b.Keys
    ensures Holds(a + b)
  {
    UnionOk(a, b);
    hide WF, Next, Prev, KidsOk, AttrsOk, UpOk, TreeOk;
    forall x | x in a + b ensures RepNode(a + b, x) {
      if x in a {
        UnionAt(a, b, x);
        assert RepNode(a, x);
      } else {
        UnionAt(b, a, x);
        assert RepNode(b, x);
      }
    }
  }

  // ----- a new node over its attributes and children

  ghost predicate AttrRoots(ga: Forest, sa: seq<Node>) {
    && Roots(ga, sa)
    && forall i | 0 <= i < |sa| ::
         ga[sa[i]].kids == [] && ga[sa[i]].attrs == [] && ga[sa[i]].lab.typ == AttributeNode
  }

  ghost predicate Parts(e: Node, sa: seq<Node>, ga: Forest, sk: seq<Node>, gk: Forest) {
    AttrRoots(ga, sa) && Roots(gk, sk) && ga.Keys !! gk.Keys && e !in ga && e !in gk
  }

  ghost function HeldBy(ga: Forest, e: Node, sa: seq<Node>, x: Node): Info
    requires x in ga
  {
    if x in sa then ga[x].(hold := e, pos := Pos(sa, x)) else ga[x]
  }

  ghost function ChildOf(gk: Forest, e: Node, sk: seq<Node>, x: Node): Info
    requires x in gk
  {
    if x in sk then gk[x].(par := e, pos := Pos(sk, x)) else gk[x]
  }

  ghost function Top(l: Label, e: Node, sa: seq<Node>, sk: seq<Node>, gk: Forest): Info
    requires forall i | 0 <= i < |sk| :: sk[i] in gk
  {
    Info(l, sk, sa, null, null, 0, Rose(e, Trees(gk, sk)))
  }

  ghost function Whole(e: Node, l: Label, sa: seq<Node>, ga: Forest, sk: seq<Node>, gk: Forest): Forest
    requires Parts(e, sa, ga, sk, gk)
  {
    map x | x in ga.Keys + gk.Keys + {e} ::
      if x == e then Top(l, e, sa, sk, gk) else if x in ga then HeldBy(ga, e, sa, x) else ChildOf(gk, e, sk, x)
  }

  lemma WholeTop(e: Node, l: Label, sa: seq<Node>, ga: Forest, sk: seq<Node>, gk: Forest)
    requires Parts(e, sa, ga, sk, gk)
    ensures var h := Whole(e, l, sa, ga, sk, gk); e in h && KidsOk(h, e) && AttrsOk(h, e) && UpOk(h, e) && TreeOk(h, e)
  {
    hide WF;
    var h := Whole(e, l, sa, ga, sk, gk);
    forall i | 0 <= i < |sa| ensures sa[i] in ga && sa[i] in sa && Pos(sa, sa[i]) == i {
      PosAt(sa, i);
    }
    forall i | 0 <= i < |sk| ensures sk[i] in gk && sk[i] in sk && sk[i] !in ga && Pos(sk, sk[i]) == i {
      PosAt(sk, i);
    }
  }

  lemma RootFree(g: Forest, s: seq<Node>, x: Node)
    requires Roots(g, s)
    ensures x in s ==> Free(g, x) && s[Pos(s, x)] == x
  {
    hide WF;
    if x in s {
      var i :| 0 <= i < |s| && s[i] == x;
      assert Free(g, s[i]);
    }
  }

  lemma TopInWhole(e: Node, l: Label, sa: seq<Node>, ga: Forest, sk: seq<Node>, gk: Forest)
    requires Parts(e, sa, ga, sk, gk)
    ensures var h := Whole(e, l, sa, ga, sk, gk);
            e in h && h[e].kids == sk && h[e].attrs == sa && h[e].lab == l && h[e].par == null && h[e].hold == null
  {
    hide WF, Trees;
  }

  /** What becomes of an attribute, or of what is linked to one. */
  lemma AttrInWhole(e: Node, l: Label, sa: seq<Node>, ga: Forest, sk: seq<Node>, gk: Forest, x: Node)
    requires Parts(e, sa, ga, sk, gk) && x in ga
    ensures var h := Whole(e, l, sa, ga, sk, gk);
            && x in h && h[x].kids == ga[x].kids && h[x].attrs == ga[x].attrs && h[x].lab == ga[x].lab
            && h[x].par == ga[x].par && h[x].tree == ga[x].tree
            && (x in sa ==> Free(ga, x) && h[x].hold == e && h[x].pos == Pos(sa, x) && sa[Pos(sa, x)] == x)
            && (x !in sa ==> h[x].hold == ga[x].hold && h[x].pos == ga[x].pos)
  {
    RootFree(ga, sa, x);
    hide WF, Top;
  }

  /** What becomes of a child, or of what is below one. */
  lemma KidInWhole(e: Node, l: Label, sa: seq<Node>, ga: Forest, sk: seq<Node>, gk: Forest, x: Node)
    requires Parts(e, sa, ga, sk, gk) && x in gk
    ensures var h := Whole(e, l, sa, ga, sk, gk);
            && x in h && h[x].kids == gk[x].kids && h[x].attrs == gk[x].attrs && h[x].lab == gk[x].lab
            && h[x].hold == gk[x].hold && h[x].tree == gk[x].tree
            && (x in sk ==> Free(gk, x) && h[x].par == e && h[x].pos == Pos(sk, x) && sk[Pos(sk, x)] == x)
            && (x !in sk ==> h[x].par == gk[x].par && h[x].pos == gk[x].pos)
  {
    RootFree(gk, sk, x);
    hide WF, Top;
  }

  lemma AttrKidsOk(e: Node, l: Label, sa: seq<Node>, ga: Forest, sk: seq<Node>, gk: Forest, n: Node)
    requires Parts(e, sa, ga, sk, gk) && n in ga
    ensures var h := Whole(e, l, sa, ga, sk, gk); n in h && KidsOk(h, n) && TreeOk(h, n)
  {
    Ok(ga, n);
    AttrInWhole(e, l, sa, ga, sk, gk, n);
    hide WF, Whole, Parts, UpOk, AttrsOk;
    forall i | 0 <= i < |ga[n].kids|
      ensures var k, h := ga[n].kids[i], Whole(e, l, sa, ga, sk, gk);
              k in h && h[k].par == n && h[k].hold == null && h[k].pos == i && h[k].tree == ga[k].tree
    {
      AttrInWhole(e, l, sa, ga, sk, gk, ga[n].kids[i]);
    }
  }

  lemma AttrAttrsOk(e: Node, l: Label, sa: seq<Node>, ga: Forest, sk: seq<Node>, gk: Forest, n: Node)
    requires Parts(e, sa, ga, sk, gk) && n in ga
    ensures var h := Whole(e, l, sa, ga, sk, gk); n in h && AttrsOk(h, n)
  {
    Ok(ga, n);
    AttrInWhole(e, l, sa, ga, sk, gk, n);
    hide WF, Whole, Parts, UpOk, KidsOk, TreeOk;
    forall i | 0 <= i < |ga[n].attrs|
      ensures var a, h := ga[n].attrs[i], Whole(e, l, sa, ga, sk, gk);
              && a in h && h[a].hold == n && h[a].par == null && h[a].pos == i && h[a].kids == [] && h[a].attrs == []
              && h[a].lab.typ == AttributeNode
    {
      AttrInWhole(e, l, sa, ga, sk, gk, ga[n].attrs[i]);
    }
  }

  lemma AttrUpOk(e: Node, l: Label, sa: seq<Node>, ga: Forest, sk: seq<Node>, gk: Forest, n: Node)
    requires Parts(e, sa, ga, sk, gk) && n in ga
    ensures var h := Whole(e, l, sa, ga, sk, gk); n in h && UpOk(h, n)
  {
    Ok(ga, n);
    AttrInWhole(e, l, sa, ga, sk, gk, n);
    TopInWhole(e, l, sa, ga, sk, gk);
    if ga[n].par != null {
      AttrInWhole(e, l, sa, ga, sk, gk, ga[n].par);
    }
    if ga[n].hold != null {
      AttrInWhole(e, l, sa, ga, sk, gk, ga[n].hold);
    }
    hide WF, Whole, Parts, AttrsOk, KidsOk, TreeOk;
  }

  lemma KidKidsOk(e: Node, l: Label, sa: seq<Node>, ga: Forest, sk: seq<Node>, gk: Forest, n: Node)
    requires Parts(e, sa, ga, sk, gk) && n in gk
    ensures var h := Whole(e, l, sa, ga, sk, gk); n in h && KidsOk(h, n) && TreeOk(h, n)
  {
    Ok(gk, n);
    KidInWhole(e, l, sa, ga, sk, gk, n);
    hide WF, Whole, Parts, UpOk, AttrsOk;
    forall i | 0 <= i < |gk[n].kids|
      ensures var k, h := gk[n].kids[i], Whole(e, l, sa, ga, sk, gk);
              k in h && h[k].par == n && h[k].hold == null && h[k].pos == i && h[k].tree == gk[k].tree
    {
      KidInWhole(e, l, sa, ga, sk, gk, gk[n].kids[i]);
    }
  }

  lemma KidAttrsOk(e: Node, l: Label, sa: seq<Node>, ga: Forest, sk: seq<Node>, gk: Forest, n: Node)
    requires Parts(e, sa, ga, sk, gk) && n in gk
    ensures var h := Whole(e, l, sa, ga, sk, gk); n in h && AttrsOk(h, n)
  {
    Ok(gk, n);
    KidInWhole(e, l, sa, ga, sk, gk, n);
    hide WF, Whole, Parts, UpOk, KidsOk, TreeOk;
    forall i | 0 <= i < |gk[n].attrs|
      ensures var a, h := gk[n].attrs[i], Whole(e, l, sa, ga, sk, gk);
              && a in h && h[a].hold == n && h[a].par == null && h[a].pos == i && h[a].kids == [] && h[a].attrs == []
              && h[a].lab.typ == AttributeNode
    {
      KidInWhole(e, l, sa, ga, sk, gk, gk[n].attrs[i]);
    }
  }

  lemma KidUpOk(e: Node, l: Label, sa: seq<Node>, ga: Forest, sk: seq<Node>, gk: Forest, n: Node)
    requires Parts(e, sa, ga, sk, gk) && n in gk
    ensures var h := Whole(e, l, sa, ga, sk, gk); n in h && UpOk(h, n)
  {
    Ok(gk, n);
    KidInWhole(e, l, sa, ga, sk, gk, n);
    TopInWhole(e, l, sa, ga, sk, gk);
    if gk[n].par != null {
      KidInWhole(e, l, sa, ga, sk, gk, gk[n].par);
    }
    if gk[n].hold != null {
      KidInWhole(e, l, sa, ga, sk, gk, gk[n].hold);
    }
    hide WF, Whole, Parts, AttrsOk, KidsOk, TreeOk;
  }

  lemma WholeOk(e: Node, l: Label, sa: seq<Node>, ga: Forest, sk: seq<Node>, gk: Forest)
    requires Parts(e, sa, ga, sk, gk)
    ensures var h := Whole(e, l, sa, ga, sk, gk); Roots(h, [e]) && h.Keys == ga.Keys + gk.Keys + {e}
  {
    var h := Whole(e, l, sa, ga, sk, gk);
    hide KidsOk, AttrsOk, UpOk, TreeOk, Parts;
    forall n | n in h ensures KidsOk(h, n) && AttrsOk(h, n) && UpOk(h, n) && TreeOk(h, n) {
      if n == e {
        WholeTop(e, l, sa, ga, sk, gk);
      } else if n in ga {
        AttrKidsOk(e, l, sa, ga, sk, gk, n);
        AttrAttrsOk(e, l, sa, ga, sk, gk, n);
        AttrUpOk(e, l, sa, ga, sk, gk, n);
      } else {
        KidKidsOk(e, l, sa, ga, sk, gk, n);
        KidAttrsOk(e, l, sa, ga, sk, gk, n);
        KidUpOk(e, l, sa, ga, sk, gk, n);
      }
    }
  }

  /** Where the attributes stand under the new node. */
  lemma LinksInAttrs(e: Node, l: Label, sa: seq<Node>, ga: Forest, sk: seq<Node>, gk: Forest, x: Node)
    requires Parts(e, sa, ga, sk, gk) && WF(Whole(e, l, sa, ga, sk, gk)) && x in ga
    ensures var h := Whole(e, l, sa, ga, sk, gk);
            && x in h && e in h
            && Next(h, x) == (if x in sa then After(sa, Pos(sa, x)) else Next(ga, x))
            && Prev(h, x) == (if x in sa then Before(sa, Pos(sa, x)) else Prev(ga, x))
  {
    Ok(ga, x);
    AttrInWhole(e, l, sa, ga, sk, gk, x);
    TopInWhole(e, l, sa, ga, sk, gk);
    if ga[x].par != null {
      AttrInWhole(e, l, sa, ga, sk, gk, ga[x].par);
    }
    if ga[x].hold != null {
      AttrInWhole(e, l, sa, ga, sk, gk, ga[x].hold);
    }
    hide WF, KidsOk, AttrsOk, TreeOk, Whole, Parts;
  }

  /** Where the children stand. */
  lemma LinksInKids(e: Node, l: Label, sa: seq<Node>, ga: Forest, sk: seq<Node>, gk: Forest, x: Node)
    requires Parts(e, sa, ga, sk, gk) && WF(Whole(e, l, sa, ga, sk, gk)) && x in gk
    ensures var h := Whole(e, l, sa, ga, sk, gk);
            && x in h && e in h
            && Next(h, x) == (if x in sk then After(sk, Pos(sk, x)) else Next(gk, x))
            && Prev(h, x) == (if x in sk then Before(sk, Pos(sk, x)) else Prev(gk, x))
  {
    Ok(gk, x);
    KidInWhole(e, l, sa, ga, sk, gk, x);
    TopInWhole(e, l, sa, ga, sk, gk);
    if gk[x].par != null {
      KidInWhole(e, l, sa, ga, sk, gk, gk[x].par);
    }
    if gk[x].hold != null {
      KidInWhole(e, l, sa, ga, sk, gk, gk[x].hold);
    }
    hide WF, KidsOk, AttrsOk, TreeOk, Whole, Parts;
  }

  lemma WholeRest(e: Node, l: Label, sa: seq<Node>, ga: Forest, sk: seq<Node>, gk: Forest, x: Node)
    requires Parts(e, sa, ga, sk, gk)
    ensures var h := Whole(e, l, sa, ga, sk, gk);
            && e in h && h[e].lab == l && h[e].kids == sk && h[e].attrs == sa && h[e].par == null
            && (x in ga ==> x in h && x != e && h[x].par == ga[x].par && h[x].kids == ga[x].kids
                            && h[x].attrs == ga[x].attrs && h[x].lab == ga[x].lab && (x in sa ==> ga[x].par == null))
            && (x in gk ==> x in h && x != e && h[x].par == (if x in sk then e else gk[x].par)
                            && h[x].kids == gk[x].kids && h[x].attrs == gk[x].attrs && h[x].lab == gk[x].lab
                            && x !in ga)
  {
    hide WF, Trees;
    if x in sa {
      var i := Pos(sa, x);
      assert Free(ga, sa[i]);
    }
  }

  ghost predicate IsWhole(h: Forest, e: Node, l: Label, sa: seq<Node>, ga: Forest, sk: seq<Node>, gk: Forest) {
    Parts(e, sa, ga, sk, gk) && h == Whole(e, l, sa, ga, sk, gk)
  }

  lemma WholeAt(h: Forest, e: Node, l: Label, sa: seq<Node>, ga: Forest, sk: seq<Node>, gk: Forest, x: Node)
    requires IsWhole(h, e, l, sa, ga, sk, gk) && Strand(ga, sa, null) && Strand(gk, sk, e)
    requires HasLinks(e, null, First(sk), null, null, First(sa), l) && WF(h) && x in h
    ensures StrandAt(h, [e], null, x)
  {
    hide WF, Whole, KidsOk, AttrsOk, UpOk, TreeOk, Next, Prev;
    WholeOk(e, l, sa, ga, sk, gk);
    WholeRest(e, l, sa, ga, sk, gk, x);
    if x == e {
      assert Pos([e], e) == 0;
    } else if x in ga {
      LinksInAttrs(e, l, sa, ga, sk, gk, x);
      assert StrandAt(ga, sa, null, x);
    } else {
      LinksInKids(e, l, sa, ga, sk, gk, x);
      assert StrandAt(gk, sk, e, x);
    }
  }

  lemma WholeRep(h: Forest, e: Node, l: Label, sa: seq<Node>, ga: Forest, sk: seq<Node>, gk: Forest)
    requires IsWhole(h, e, l, sa, ga, sk, gk) && Strand(ga, sa, null) && Strand(gk, sk, e)
    requires HasLinks(e, null, First(sk), null, null, First(sa), l)
    ensures Strand(h, [e], null) && h.Keys == ga.Keys + gk.Keys + {e}
  {
    WholeOk(e, l, sa, ga, sk, gk);
    hide WF, Parts, Whole, StrandAt, HasLinks;
    forall x | x in h ensures StrandAt(h, [e], null, x) {
      WholeAt(h, e, l, sa, ga, sk, gk, x);
    }
  }

  // ----- one more in front

  lemma JoinRoots(e: Node, g: Forest, s: seq<Node>, h: Forest)
    requires Roots(g, [e]) && Roots(h, s) && g.Keys !! h.Keys
    ensures Roots(g + h, [e] + s)
  {
    UnionOk(g, h);
    hide WF;
    assert Free(g, [e][0]);
    forall i | 0 <= i < |[e] + s| ensures Free(g + h, ([e] + s)[i]) && (i > 0 ==> ([e] + s)[i] in h) {
      if i > 0 {
        assert ([e] + s)[i] == s[i - 1];
        assert Free(h, s[i - 1]);
      }
    }
  }

  lemma PosJoin(e: Node, s: seq<Node>, x: Node)
    requires x in s && x != e
    ensures Pos([e] + s, x) == Pos(s, x) + 1
    ensures After([e] + s, Pos([e] + s, x)) == After(s, Pos(s, x))
    ensures Before([e] + s, Pos([e] + s, x)) == if Pos(s, x) == 0 then e else Before(s, Pos(s, x))
  {
    assert ([e] + s)[1..] == s;
  }

  /** The links of a node of the list, or below it, behind `e`. */
  ghost predicate JoinAt(h: Forest, s: seq<Node>, e: Node, x: Node)
    requires WF(h) && x in h
    reads x
  {
    HasLinks(x, if x in s then null else h[x].par, First(h[x].kids),
           if x in s then After(s, Pos(s, x)) else Next(h, x),
           if x in s then (if x == s[0] then e else Before(s, Pos(s, x))) else Prev(h, x),
           First(h[x].attrs), h[x].lab)
  }

  lemma JoinRep(e: Node, g: Forest, s: seq<Node>, h: Forest)
    requires Roots(g, [e]) && Roots(h, s) && g.Keys !! h.Keys && e in g
    requires forall x | x in g && x != e :: StrandAt(g, [e], null, x)
    requires HasLinks(e, null, First(g[e].kids), First(s), null, First(g[e].attrs), g[e].lab)
    requires forall x | x in h :: JoinAt(h, s, e, x)
    ensures Strand(g + h, [e] + s, null)
  {
    JoinRoots(e, g, s, h);
    assert Free(g, [e][0]);
    hide WF, KidsOk, AttrsOk, UpOk, TreeOk, Next, Prev;
    var u := g + h;
    forall x | x in u ensures StrandAt(u, [e] + s, null, x) {
      if x in g {
        UnionAt(g, h, x);
        InJoin(e, g, s, h, x);
        if x != e {
          assert StrandAt(g, [e], null, x);
        }
      } else {
        UnionAt(h, g, x);
        assert x != e && JoinAt(h, s, e, x);
        if x in s {
          PosJoin(e, s, x);
        }
      }
    }
  }

  lemma InJoin(e: Node, g: Forest, s: seq<Node>, h: Forest, x: Node)
    requires Roots(h, s) && g.Keys !! h.Keys && x in g
    ensures x in [e] + s <==> x == e
    ensures After([e] + s, 0) == First(s)
  {
    assert forall i | 0 <= i < |s| :: Free(h, s[i]);
  }
}
