/** The attributes of an element. */
module Attributes {
  import opened Bytes
  import opened NameTables
  import opened Nodes
  import opened Forests
  import opened NodeOps
  import opened AttrMaps

  /** A `char` as the signed number it is on most platforms. */
  function Signed(b: byte): int {
    if b < 128 then b else b - 256
  }

  method IsValidXmlName(name: bytes) returns (valid: bool)
    ensures valid == AcceptedName(name)
  {
    hide IsName;
    var begins := IsNameChar(Signed(At(name, 0)), false);
    if begins {
      var i := 1;
      while i < |name|
        invariant 1 <= i && forall j | 1 <= j < i && j < |name| :: IsName(Signed(name[j]), true)
      {
        var goesOn := IsNameChar(Signed(name[i]), true);
        if !goesOn {
          return false;
        }
        i := i + 1;
      }
    }
    return true;
  }

  /** What the check accepts: it looks at the rest of a name only if the first character can begin one. */
  predicate AcceptedName(name: bytes) {
    IsName(Signed(At(name, 0)), false) ==> forall j | 1 <= j < |name| :: IsName(Signed(name[j]), true)
  }

  /** Section 2.3 of XML 1.0, for names of ASCII characters. */
  predicate ProperName(name: bytes) {
    name != [] && IsName(Signed(name[0]), false) && forall j | 1 <= j < |name| :: IsName(Signed(name[j]), true)
  }

  /** The check meets its purpose exactly for the strings that begin like a name. */
  lemma ValidNameIffProper(name: bytes)
    ensures (AcceptedName(name) <==> ProperName(name)) <==> IsName(Signed(At(name, 0)), false)
    ensures AcceptedName([0x31]) && !ProperName([0x31]) && AcceptedName([]) && !ProperName([])
  {
    StartPunctuation(0x31);
    StartPunctuation(0);
    hide IsName;
  }

  // ----- the list

  ghost function EntryOf(l: Label): Entry {
    Entry(l.name, l.value)
  }

  ghost function AttrList(f: Forest, e: Node): seq<Entry>
    requires WF(f) && e in f
  {
    AttrsIn(f, e);
    seq(|f[e].attrs|, i requires 0 <= i < |f[e].attrs| => EntryOf(f[f[e].attrs[i]].lab))
  }

  /** The node of an entry, or none past the end. */
  ghost function AttrAt(f: Forest, e: Node, i: nat): Node?
    requires e in f
  {
    if i < |f[e].attrs| then f[e].attrs[i] else null
  }

  lemma AttrLinks(f: Forest, e: Node, i: nat)
    requires Holds(f) && e in f && i < |f[e].attrs|
    ensures var a := f[e].attrs[i];
            a in f && a != e && a.nextSibling == AttrAt(f, e, i + 1) && a.nodeName == f[a].lab.name
            && a.nodeValue == f[a].lab.value && f[a].hold == e
            && (i == |f[e].attrs| - 1 ==> Next(f, a) == null)
  {
    AttrListed(f, e, i);
    Ok(f, e);
    assert RepNode(f, f[e].attrs[i]);
  }

  /** The first attribute node of a name. */
  method FindAttr(element: Node, name: bytes, ghost f: Forest) returns (attr: Node?)
    requires Holds(f) && element in f
    ensures attr == AttrAt(f, element, IndexOf(AttrList(f, element), name))
    ensures attr != null <==> Contains(AttrList(f, element), name)
  {
    hide WF, Rep;
    assert RepNode(f, element) by { Represented(f, element); }
    attr := element.firstAttr;
    ghost var i := 0;
    while attr != null
      invariant i <= |f[element].attrs| && attr == AttrAt(f, element, i)
      invariant forall j | 0 <= j < i :: AttrList(f, element)[j].name != name
      decreases |f[element].attrs| - i
    {
      AttrLinks(f, element, i);
      if attr.nodeName == name {
        IndexIs(AttrList(f, element), name, i);
        return;
      }
      attr := attr.nextSibling;
      i := i + 1;
    }
    IndexIs(AttrList(f, element), name, i);
  }

  method GetAttribute(element: Node?, name: Option<bytes>, ghost f: Forest) returns (value: Option<bytes>)
    requires element != null ==> Holds(f) && element in f
    ensures value == if element == null || name.None? then None else Get(AttrList(f, element), name.value)
  {
    if element == null || name.None? {
      return None;
    }
    hide WF, Rep;
    var attr := FindAttr(element, name.value, f);
    if attr != null {
      AttrLinks(f, element, IndexOf(AttrList(f, element), name.value));
      return attr.nodeValue;
    }
    return None;
  }

  method HasAttribute(element: Node?, name: Option<bytes>, ghost f: Forest) returns (has: bool)
    requires element != null ==> Holds(f) && element in f
    ensures has == (element != null && name.Some? && Contains(AttrList(f, element), name.value))
  {
    if element == null || name.None? {
      return false;
    }
    hide WF, Rep;
    var attr := FindAttr(element, name.value, f);
    return attr != null;
  }

  // ----- changing a value

  lemma RelabelledLinks(f: Forest, n: Node, l: Label, x: Node)
    requires WF(f) && n in f && x in f && WF(Relabelled(f, n, l))
    ensures var f' := Relabelled(f, n, l); x in f' && Next(f', x) == Next(f, x) && Prev(f', x) == Prev(f, x)
  {
    Ok(f, x);
    hide WF;
  }

  ghost predicate OnlyValue(f: Forest, n: Node, value: Option<bytes>, x: Node)
    requires WF(f) && n in f && x in f
    reads x
  {
    HasLinks(x, f[x].par, First(f[x].kids), Next(f, x), Prev(f, x), First(f[x].attrs),
           if x == n then f[n].lab.(value := value) else f[x].lab)
  }

  lemma RelabelledRep(f: Forest, n: Node, value: Option<bytes>)
    requires WF(f) && n in f && forall x | x in f :: OnlyValue(f, n, value, x)
    ensures Holds(Relabelled(f, n, f[n].lab.(value := value)))
  {
    var l := f[n].lab.(value := value);
    RelabelledKeeps(f, n, l);
    hide WF, OnlyValue, RepNode, Relabelled;
    forall x | x in f ensures RepNode(Relabelled(f, n, l), x) {
      RelabelledNode(f, n, value, x);
    }
  }

  lemma RelabelledNode(f: Forest, n: Node, value: Option<bytes>, x: Node)
    requires WF(f) && n in f && x in f && OnlyValue(f, n, value, x)
    requires WF(Relabelled(f, n, f[n].lab.(value := value)))
    ensures var f' := Relabelled(f, n, f[n].lab.(value := value)); x in f' && RepNode(f', x)
  {
    hide WF, Next, Prev;
    RelabelledLinks(f, n, f[n].lab.(value := value), x);
  }

  /** Overwriting the value of a node. */
  method SetValue(n: Node, value: Option<bytes>, ghost f: Forest)
    requires Holds(f) && n in f
    modifies n`nodeValue
    ensures Holds(Relabelled(f, n, f[n].lab.(value := value)))
  {
    hide WF, Next, Prev, Relabelled;
    n.nodeValue := value;
    forall x | x in f ensures OnlyValue(f, n, value, x) {
      assert old(RepNode(f, x));
    }
    RelabelledRep(f, n, value);
  }

  /** The attribute lists after the value of one attribute has been overwritten. */
  lemma ValueActs(f: Forest, e: Node, i: nat, value: Option<bytes>, x: Node)
    requires WF(f) && e in f && x in f && i < |f[e].attrs| && f[e].attrs[i] in f
    ensures var a := f[e].attrs[i]; var f' := Relabelled(f, a, f[a].lab.(value := value));
            && WF(f') && f'.Keys == f.Keys
            && AttrList(f', x) == if x == e then AttrList(f, e)[i := AttrList(f, e)[i].(value := value)]
               else AttrList(f, x)
  {
    var a := f[e].attrs[i];
    Ok(f, e);
    Ok(f, x);
    RelabelledKeeps(f, a, f[a].lab.(value := value));
  }

  // ----- adding an attribute

  ghost predicate Loose(f: Forest, a: Node) {
    Free(f, a) && f[a].kids == [] && f[a].attrs == [] && f[a].lab.typ == AttributeNode
  }

  lemma AttrAddedList(f: Forest, e: Node, a: Node)
    requires WF(f) && e in f && a in f && a != e && Free(f, a) && WF(AttrAdded(f, e, a))
    ensures var f' := AttrAdded(f, e, a); a in f' && Siblings(f', a) == f[e].attrs + [a] && Index(f', a) == |f[e].attrs|
  {
    hide WF, TreeOk, KidsOk, AttrsOk, UpOk;
  }

  lemma AttrAddedLists(f: Forest, e: Node, a: Node, x: Node)
    requires WF(f) && e in f && a in f && a != e && Free(f, a) && x in f && WF(AttrAdded(f, e, a)) && x != a
    ensures var f' := AttrAdded(f, e, a);
            && x in f'
            && (f[x].hold == e ==>
                  Siblings(f, x) == f[e].attrs && Siblings(f', x) == f[e].attrs + [a]
                  && Index(f', x) == Index(f, x) == f[x].pos)
            && (f[x].hold != e ==> Siblings(f', x) == Siblings(f, x) && Index(f', x) == Index(f, x))
  {
    Ok(f, x);
    EitherList(f, x);
    AttrAddedFields(f, e, a, x);
    if f[x].par != null {
      AttrAddedFields(f, e, a, f[x].par);
    }
    if f[x].hold != null {
      AttrAddedFields(f, e, a, f[x].hold);
    }
    hide WF, TreeOk, KidsOk, AttrsOk, AttrAdded;
  }

  lemma AttrAddedFields(f: Forest, e: Node, a: Node, x: Node)
    requires e in f && a in f && a != e && x in f
    ensures var f' := AttrAdded(f, e, a);
            && x in f' && f'[x].kids == f[x].kids && f'[x].par == f[x].par
            && f'[x].attrs == (if x == e then f[e].attrs + [a] else f[x].attrs)
            && f'[x].hold == (if x == a then e else f[x].hold)
            && f'[x].pos == (if x == a then |f[e].attrs| else f[x].pos)
  {
  }

  lemma LastAttr(f: Forest, e: Node, x: Node)
    requires WF(f) && e in f && x in f && f[e].attrs != []
    ensures x == f[e].attrs[|f[e].attrs| - 1] <==> f[x].hold == e && f[x].pos == |f[e].attrs| - 1
  {
    Ok(f, e);
    Ok(f, x);
    hide WF;
  }

  lemma AttrAddedLinks(f: Forest, e: Node, a: Node, x: Node)
    requires WF(f) && e in f && a in f && a != e && Free(f, a) && x in f && WF(AttrAdded(f, e, a))
    ensures var f', s := AttrAdded(f, e, a), f[e].attrs;
            && x in f'
            && Next(f', x) == (if x == a then null else if s != [] && x == s[|s| - 1] then a else Next(f, x))
            && Prev(f', x) == (if x == a then (if s != [] then s[|s| - 1] else null) else Prev(f, x))
  {
    hide WF, AttrAdded, Siblings, Index, KidsOk, AttrsOk, UpOk, TreeOk;
    if x == a {
      AttrAddedList(f, e, a);
    } else {
      AttrAddedLists(f, e, a, x);
    }
    if f[e].attrs != [] {
      LastAttr(f, e, x);
    }
  }

  /** What appending the attribute makes of the links of `x`. */
  ghost predicate AttrSpliced(f: Forest, e: Node, a: Node, x: Node)
    requires WF(f) && e in f && x in f
    reads x
  {
    var s := f[e].attrs;
    HasLinks(x, f[x].par, First(f[x].kids),
           if x == a then null else if s != [] && x == s[|s| - 1] then a else Next(f, x),
           if x == a then (if s != [] then s[|s| - 1] else null) else Prev(f, x),
           if x == e && s == [] then a else First(f[x].attrs), f[x].lab)
  }

  /** From the links `x` had, which were those of the forest, and those it has now. */
  lemma AttrSplicedNow(f: Forest, e: Node, a: Node, x: Node, next: Node?, prev: Node?, firstAttr: Node?)
    requires WF(f) && e in f && x in f && a in f && Next(f, a) == null == Prev(f, a)
    requires next == Next(f, x) && prev == Prev(f, x) && firstAttr == First(f[x].attrs)
    requires x.parentNode == f[x].par && x.firstChild == First(f[x].kids)
    requires Label(x.nodeType, x.nodeName, x.nodeValue) == f[x].lab
    requires var s := f[e].attrs;
             && x.nextSibling == (if s != [] && x == s[|s| - 1] then a else next)
             && x.prevSibling == (if s != [] && x == a then s[|s| - 1] else prev)
             && x.firstAttr == (if x == e && s == [] then a else firstAttr)
             && a !in s
    ensures AttrSpliced(f, e, a, x)
  {
    hide WF, Next, Prev;
  }

  lemma AttrAddedRest(f: Forest, e: Node, a: Node, x: Node)
    requires e in f && a in f && a != e && x in f
    ensures var f' := AttrAdded(f, e, a);
            && x in f' && f'.Keys == f.Keys && f'[x].par == f[x].par && f'[x].kids == f[x].kids && f'[x].lab == f[x].lab
            && First(f'[x].attrs) == if x == e && f[e].attrs == [] then a else First(f[x].attrs)
  {
  }

  lemma AttrAddedRep(f: Forest, e: Node, a: Node)
    requires WF(f) && e in f && Loose(f, a) && a != e && f[e].hold == null
             && forall x | x in f :: AttrSpliced(f, e, a, x)
    ensures Holds(AttrAdded(f, e, a)) && AttrAdded(f, e, a).Keys == f.Keys
  {
    AttrAddedKeeps(f, e, a);
    hide WF, AttrAdded, Next, Prev, KidsOk, AttrsOk, UpOk, TreeOk;
    var f' := AttrAdded(f, e, a);
    forall x | x in f' ensures RepNode(f', x) {
      AttrAddedLinks(f, e, a, x);
      AttrAddedRest(f, e, a, x);
      assert AttrSpliced(f, e, a, x);
    }
  }

  /** An attribute list as the links from the element on spell it. */
  ghost predicate AttrsSpell(e: Node, s: seq<Node>)
    reads e, s
  {
    e.firstAttr == First(s) && forall i | 0 <= i < |s| :: s[i].nextSibling == After(s, i)
  }

  /** The assignments that append an attribute, told of the fields alone. */
  method LinkLastAttr(element: Node, node: Node, ghost s: seq<Node>, ghost nodes: set<Node>)
    requires element in nodes && node in nodes && AttrsSpell(element, s) && node !in s
    requires node.nextSibling == null && node.prevSibling == null
    requires forall i | 0 <= i < |s| :: s[i] in nodes
    modifies nodes`firstAttr, nodes`prevSibling, nodes`nextSibling
    ensures forall x | x in nodes ::
              x.nextSibling == if s != [] && x == s[|s| - 1] then node else old(x.nextSibling)
    ensures forall x | x in nodes ::
              x.prevSibling == if s != [] && x == node then s[|s| - 1] else old(x.prevSibling)
    ensures forall x | x in nodes :: x.firstAttr == if x == element && s == [] then node else old(x.firstAttr)
  {
    if element.firstAttr != null {
      var prevAttr: Node := element.firstAttr;
      var nextAttr := prevAttr.nextSibling;
      ghost var i := 0;
      while nextAttr != null
        invariant i < |s| && prevAttr == s[i] && nextAttr == After(s, i)
        decreases |s| - i
      {
        prevAttr := nextAttr;
        nextAttr := prevAttr.nextSibling;
        i := i + 1;
      }
      prevAttr.nextSibling := node;
      node.prevSibling := prevAttr;
    } else {
      element.firstAttr := node;
      node.prevSibling := null;
      node.nextSibling := null;
    }
  }

  lemma AttrsSpelledOut(f: Forest, e: Node)
    requires Holds(f) && e in f
    ensures AttrsSpell(e, f[e].attrs) && forall i | 0 <= i < |f[e].attrs| :: f[e].attrs[i] in f
  {
    forall i | 0 <= i < |f[e].attrs|
      ensures f[e].attrs[i] in f && f[e].attrs[i].nextSibling == After(f[e].attrs, i)
    {
      AttrLinks(f, e, i);
    }
    assert RepNode(f, e);
  }

  lemma LooseLinks(f: Forest, a: Node)
    requires WF(f) && Loose(f, a)
    ensures Next(f, a) == null && Prev(f, a) == null
    ensures forall e | e in f :: a !in f[e].attrs
  {
    forall e | e in f && a in f[e].attrs ensures false {
      Ok(f, e);
    }
  }

  method AppendAttr(element: Node, node: Node, ghost f: Forest)
    requires Holds(f) && element in f && Loose(f, node) && node != element && f[element].hold == null
    modifies f.Keys`firstAttr, f.Keys`prevSibling, f.Keys`nextSibling
    ensures Holds(AttrAdded(f, element, node)) && AttrAdded(f, element, node).Keys == f.Keys
  {
    hide WF, Next, Prev, AttrAdded, AttrSpliced, AttrsSpell;
    AttrsSpelledOut(f, element);
    LooseLinks(f, node);
    Fields(f, node);
    LinkLastAttr(element, node, f[element].attrs, f.Keys);
    forall x | x in f ensures AttrSpliced(f, element, node, x) {
      assert old(RepNode(f, x));
      AttrSplicedNow(f, element, node, x, old(x.nextSibling), old(x.prevSibling), old(x.firstAttr));
    }
    AttrAddedRep(f, element, node);
  }

  ghost function SetNodeStatus(element: Node?, newAttr: Node?): Status
    reads element, newAttr
  {
    if element == null || newAttr == null then InvalidParameter
    else if newAttr.ownerDocument != element.ownerDocument then WrongDocumentErr
    else if newAttr.ownerElement != null then InUseAttributeErr
    else Success
  }

  /** The name of an attribute node is in the list of the element already. */
  ghost predicate NameTaken(f: Forest, element: Node?, newAttr: Node?)
    requires WF(f)
  {
    element != null && newAttr != null && element in f && newAttr in f
    && Contains(AttrList(f, element), f[newAttr].lab.name)
  }

  ghost predicate AttrFits(f: Forest, e: Node, a: Node) {
    e in f && Loose(f, a) && a != e && f[e].hold == null
  }

  ghost predicate AttrPut(f: Forest, e: Node, a: Node)
    requires AttrFits(f, e, a)
    reads f.Keys
  {
    AttrAdded(f, e, a).Keys == f.Keys && Holds(AttrAdded(f, e, a))
  }

  /** The list now ends with the new node, which stands where the old one of its name stood. */
  ghost predicate AttrExchanged(f: Forest, e: Node, a: Node, o: Node?)
    requires WF(f) && e in f && a in f
    reads e, a, f[e].attrs
  {
    var i := IndexOf(AttrList(f, e), f[a].lab.name);
    i < |f[e].attrs| && o == f[e].attrs[i] && AttrsSpell(e, f[e].attrs[..i] + [a])
  }

  /**
   Adds an attribute node at the end of the list, or puts it in the place of the one of the same name. In the second
   case only the links around it are set, so that the list ends with the new node.
   */
  method SetAttributeNode(element: Node?, newAttr: Node?, ghost f: Forest) returns (rc: Status, rtAttr: Node?)
    requires Holds(f) && (element != null ==> element in f) && (newAttr != null ==> newAttr in f)
    requires SetNodeStatus(element, newAttr) == Success ==> AttrFits(f, element, newAttr)
    modifies f.Keys`firstAttr, f.Keys`prevSibling, f.Keys`nextSibling
    modifies (if newAttr == null then {} else {newAttr})`ownerElement
    ensures rc == old(SetNodeStatus(element, newAttr))
    ensures rc != Success ==> Holds(f) && Untouched(f)
    ensures rc == Success ==> newAttr.ownerElement == element
    ensures rc == Success && !NameTaken(f, element, newAttr) ==> rtAttr == null && AttrPut(f, element, newAttr)
    ensures rc == Success && NameTaken(f, element, newAttr) ==> AttrExchanged(f, element, newAttr, rtAttr)
  {
    hide WF, Rep, AttrAdded, Next, Prev, Loose, AttrList;
    rtAttr := null;
    if element == null || newAttr == null {
      return InvalidParameter, null;
    }
    if newAttr.ownerDocument != element.ownerDocument {
      return WrongDocumentErr, null;
    }
    if newAttr.ownerElement != null {
      return InUseAttributeErr, null;
    }
    rtAttr := PlaceAttr(element, newAttr, f);
    return Success, rtAttr;
  }

  method PlaceAttr(element: Node, newAttr: Node, ghost f: Forest) returns (rtAttr: Node?)
    requires Holds(f) && AttrFits(f, element, newAttr)
    modifies f.Keys`firstAttr, f.Keys`prevSibling, f.Keys`nextSibling, newAttr`ownerElement
    ensures newAttr.ownerElement == element
    ensures !NameTaken(f, element, newAttr) ==> rtAttr == null && AttrPut(f, element, newAttr)
    ensures NameTaken(f, element, newAttr) ==> AttrExchanged(f, element, newAttr, rtAttr)
  {
    hide WF, Rep, AttrAdded, Next, Prev, AttrList, IndexOf;
    newAttr.ownerElement := element;
    LinksKept(f);
    Represented(f, newAttr);
    rtAttr := FindAttr(element, newAttr.nodeName, f);
    if rtAttr != null {
      ghost var i := IndexOf(AttrList(f, element), f[newAttr].lab.name);
      AttrsSpelledOut(f, element);
      LooseLinks(f, newAttr);
      AttrBefore(f, element, i);
      ReplaceAttr(element, newAttr, i, rtAttr, f[element].attrs, f.Keys);
    } else {
      AppendAttr(element, newAttr, f);
    }
  }

  /** The assignments that replace an attribute: everything after it is no longer reached from the element. */
  method ReplaceAttr(element: Node, node: Node, ghost i: nat, attr: Node, ghost s: seq<Node>, ghost nodes: set<Node>)
    requires element in nodes && node in nodes && AttrsSpell(element, s) && node !in s
    requires node.nextSibling == null && i < |s| && attr == s[i]
    requires attr.prevSibling == (if i == 0 then null else s[i - 1])
    requires (forall j | 0 <= j < |s| :: s[j] in nodes) && forall j, k | 0 <= j < k < |s| :: s[j] != s[k]
    modifies nodes`firstAttr, nodes`prevSibling, nodes`nextSibling
    ensures AttrsSpell(element, s[..i] + [node])
  {
    var preSib := attr.prevSibling;
    var nextSib := attr.nextSibling;
    if preSib != null {
      preSib.nextSibling := node;
    }
    if nextSib != null {
      nextSib.prevSibling := node;
    }
    if element.firstAttr == attr {
      element.firstAttr := node;
    }
    ghost var s' := s[..i] + [node];
    forall j | 0 <= j < |s'| ensures s'[j].nextSibling == After(s', j) {
      if j < i {
        assert s'[j] == s[j];
      }
    }
  }

  lemma AttrBefore(f: Forest, e: Node, i: nat)
    requires Holds(f) && e in f && i < |f[e].attrs|
    ensures f[e].attrs[i].prevSibling == if i == 0 then null else f[e].attrs[i - 1]
    ensures f[e].attrs[i].nextSibling == After(f[e].attrs, i)
    ensures forall j, k | 0 <= j < k < |f[e].attrs| :: f[e].attrs[j] != f[e].attrs[k]
  {
    AttrListed(f, e, i);
    AttrsApart(f, e);
    assert RepNode(f, f[e].attrs[i]);
  }

  lemma AttrsApart(f: Forest, e: Node)
    requires WF(f) && e in f
    ensures forall j, k | 0 <= j < k < |f[e].attrs| :: f[e].attrs[j] != f[e].attrs[k]
  {
    Ok(f, e);
  }

  // ----- setting and removing by name

  lemma AddedLinks(f: Forest, n: Node, l: Label, x: Node)
    requires WF(f) && n !in f && x in f && WF(Added(f, n, l))
    ensures var f' := Added(f, n, l); x in f' && Next(f', x) == Next(f, x) && Prev(f', x) == Prev(f, x)
    ensures Next(Added(f, n, l), n) == null == Prev(Added(f, n, l), n)
  {
    Ok(f, x);
    hide WF;
  }

  /** A new node joins the forest without touching the others. */
  lemma AddedHolds(f: Forest, n: Node, l: Label)
    requires Holds(f) && n !in f
    requires HasLinks(n, null, null, null, null, null, l)
    ensures Holds(Added(f, n, l)) && Loose(Added(f, n, l), n) == (l.typ == AttributeNode)
  {
    AddedKeeps(f, n, l);
    hide WF, Next, Prev, KidsOk, AttrsOk, UpOk, TreeOk;
    var f' := Added(f, n, l);
    AddedSelf(f, n, l);
    forall x | x in f' ensures RepNode(f', x) {
      if x != n {
        AddedLinks(f, n, l, x);
        assert RepNode(f, x);
      }
    }
  }

  lemma AddedSelf(f: Forest, n: Node, l: Label)
    requires WF(f) && n !in f && WF(Added(f, n, l))
    ensures Next(Added(f, n, l), n) == null == Prev(Added(f, n, l), n)
  {
  }

  lemma AddedActs(f: Forest, a: Node, l: Label, x: Node)
    requires WF(f) && a !in f && x in f
    ensures WF(Added(f, a, l)) && Added(f, a, l).Keys == f.Keys + {a} && Free(Added(f, a, l), a)
    ensures AttrList(Added(f, a, l), x) == AttrList(f, x) && a !in f[x].attrs
  {
    AddedKeeps(f, a, l);
    Ok(f, x);
  }

  lemma AppendActs(g: Forest, e: Node, a: Node, x: Node)
    requires WF(g) && e in g && x in g && Loose(g, a) && a != e && g[e].hold == null && x != a
    ensures var f' := AttrAdded(g, e, a);
            && WF(f') && f'.Keys == g.Keys && f'[x].kids == g[x].kids && f'[x].par == g[x].par
            && AttrList(f', x) == if x == e then AttrList(g, e) + [EntryOf(g[a].lab)] else AttrList(g, x)
  {
    AttrAddedKeeps(g, e, a);
    Ok(g, x);
    hide WF;
  }

  /** The attribute lists after a new attribute has been appended. */
  lemma AddActs(f: Forest, e: Node, a: Node, l: Label, x: Node)
    requires WF(f) && e in f && x in f && a !in f && f[e].hold == null && l.typ == AttributeNode
    ensures var f' := AttrAdded(Added(f, a, l), e, a);
            && WF(Added(f, a, l)) && WF(f') && f'.Keys == f.Keys + {a} && f'[x].kids == f[x].kids
            && f'[x].par == f[x].par
            && AttrList(Added(f, a, l), x) == AttrList(f, x)
            && AttrList(f', x) == if x == e then AttrList(f, e) + [EntryOf(l)] else AttrList(f, x)
  {
    hide WF, AttrList, AttrAdded;
    AddedActs(f, a, l, x);
    AppendActs(Added(f, a, l), e, a, x);
  }

  ghost function SetStatus(f: Forest, element: Node?, name: Option<bytes>, value: Option<bytes>): Status
    requires WF(f) && (element != null ==> element in f)
    reads element
  {
    if element == null || name.None? || value.None? then InvalidParameter
    else if !AcceptedName(name.value) then InvalidCharacterErr
    else if !Contains(AttrList(f, element), name.value) && element.ownerDocument == null then InvalidParameter
    else Success
  }

  /** Only the attribute list of `e` differs, and possibly one new node has been added. */
  ghost predicate OnlyList(f: Forest, f': Forest, e: Node, s: seq<Entry>)
    requires WF(f) && WF(f')
  {
    && e in f && f.Keys <= f'.Keys && AttrList(f', e) == s
    && (forall x | x in f :: f'[x].kids == f[x].kids && f'[x].par == f[x].par)
    && (forall x | x in f && x != e :: AttrList(f', x) == AttrList(f, x))
  }

  method SetAttribute(element: Node?, name: Option<bytes>, value: Option<bytes>, ghost f: Forest)
    returns (rc: Status, ghost f': Forest)
    requires Holds(f) && (element != null ==> element in f && f[element].lab.typ == ElementNode)
    modifies f.Keys`firstAttr, f.Keys`prevSibling, f.Keys`nextSibling, f.Keys`nodeValue
    ensures Holds(f') && fresh(f'.Keys - f.Keys)
    ensures rc == old(SetStatus(f, element, name, value))
    ensures rc == Success ==> OnlyList(f, f', element, Put(AttrList(f, element), name.value, value.value))
    ensures rc != Success ==> f' == f && Untouched(f)
  {
    f' := f;
    hide WF, Rep, AttrList, IndexOf, Relabelled, AttrAdded, Added, AcceptedName;
    if element == null || name.None? || value.None? {
      return InvalidParameter, f;
    }
    var valid := IsValidXmlName(name.value);
    if !valid {
      return InvalidCharacterErr, f;
    }
    var attr := FindAttr(element, name.value, f);
    if attr == null {
      if element.ownerDocument == null {
        return InvalidParameter, f;
      }
      f' := AddAttribute(element, name.value, value.value, f);
      PutAppends(f, element, name.value, value.value);
    } else {
      f' := ChangeAttribute(element, IndexOf(AttrList(f, element), name.value), attr, value, f);
      PutChanges(f, element, name.value, value.value);
    }
    rc := Success;
  }

  lemma PutAppends(f: Forest, e: Node, name: bytes, value: bytes)
    requires WF(f) && e in f && !Contains(AttrList(f, e), name)
    ensures Put(AttrList(f, e), name, value) == AttrList(f, e) + [Entry(name, Some(value))]
  {
  }

  lemma PutChanges(f: Forest, e: Node, name: bytes, value: bytes)
    requires WF(f) && e in f && Contains(AttrList(f, e), name)
    ensures var s, i := AttrList(f, e), IndexOf(AttrList(f, e), name);
            && i < |s| && Put(s, name, value) == s[i := s[i].(value := Some(value))]
            && Clear(s, name) == s[i := s[i].(value := None)]
  {
  }

  /** An element is not held as an attribute. */
  lemma ElementFree(f: Forest, e: Node)
    requires WF(f) && e in f && f[e].lab.typ == ElementNode
    ensures f[e].hold == null
  {
    Ok(f, e);
    if f[e].hold != null {
      Ok(f, f[e].hold);
    }
  }

  method AddAttribute(element: Node, name: bytes, value: bytes, ghost f: Forest) returns (ghost f': Forest)
    requires Holds(f) && element in f && f[element].lab.typ == ElementNode && !Contains(AttrList(f, element), name)
    modifies f.Keys`firstAttr, f.Keys`prevSibling, f.Keys`nextSibling
    ensures Holds(f') && fresh(f'.Keys - f.Keys)
    ensures OnlyList(f, f', element, AttrList(f, element) + [Entry(name, Some(value))])
  {
    hide WF, Rep, AttrList, IndexOf, AttrAdded, Added;
    var attr := new Node(AttributeNode, name, None, element.ownerDocument);
    attr.nodeValue := Some(value);
    ghost var l := Label(AttributeNode, name, Some(value));
    ElementFree(f, element);
    AddedHolds(f, attr, l);
    AddedFits(f, element, attr, l);
    ghost var g := Added(f, attr, l);
    assert SetNodeStatus(element, attr) == Success;
    var rc, rtAttr := SetAttributeNode(element, attr, g);
    f' := AttrAdded(g, element, attr);
    AddActsAll(f, element, attr, l);
  }

  lemma AddActsAll(f: Forest, e: Node, a: Node, l: Label)
    requires WF(f) && e in f && a !in f && f[e].hold == null && l.typ == AttributeNode
    ensures var f' := AttrAdded(Added(f, a, l), e, a);
            f'.Keys == f.Keys + {a} && WF(f') && OnlyList(f, f', e, AttrList(f, e) + [EntryOf(l)])
  {
    hide WF, AttrList, AttrAdded;
    AddActs(f, e, a, l, e);
    var f' := AttrAdded(Added(f, a, l), e, a);
    forall x | x in f
      ensures f'[x].kids == f[x].kids && f'[x].par == f[x].par && (x != e ==> AttrList(f', x) == AttrList(f, x))
    {
      AddActs(f, e, a, l, x);
    }
  }

  lemma AddedFits(f: Forest, e: Node, a: Node, l: Label)
    requires WF(f) && e in f && a !in f && f[e].hold == null && l.typ == AttributeNode
    requires !Contains(AttrList(f, e), l.name)
    ensures WF(Added(f, a, l)) && AttrFits(Added(f, a, l), e, a) && !NameTaken(Added(f, a, l), e, a)
    ensures Added(f, a, l).Keys == f.Keys + {a}
  {
    AddActs(f, e, a, l, e);
  }

  method ChangeAttribute(element: Node, ghost i: nat, attr: Node, value: Option<bytes>, ghost f: Forest)
    returns (ghost f': Forest)
    requires Holds(f) && element in f && i < |f[element].attrs| && attr == f[element].attrs[i]
    modifies f.Keys`nodeValue
    ensures Holds(f') && f'.Keys == f.Keys
    ensures i < |AttrList(f, element)|
    ensures OnlyList(f, f', element, AttrList(f, element)[i := AttrList(f, element)[i].(value := value)])
  {
    hide WF, Rep, Relabelled;
    AttrLinks(f, element, i);
    f' := Relabelled(f, attr, f[attr].lab.(value := value));
    SetValue(attr, value, f);
    ValueActsAll(f, element, i, value);
  }

  lemma ValueActsAll(f: Forest, e: Node, i: nat, value: Option<bytes>)
    requires WF(f) && e in f && i < |f[e].attrs| && f[e].attrs[i] in f
    ensures var a := f[e].attrs[i]; var f' := Relabelled(f, a, f[a].lab.(value := value));
            && f'.Keys == f.Keys && WF(f') && i < |AttrList(f, e)|
            && OnlyList(f, f', e, AttrList(f, e)[i := AttrList(f, e)[i].(value := value)])
  {
    var a := f[e].attrs[i];
    ValueActs(f, e, i, value, e);
    assert |AttrList(f, e)| == |f[e].attrs|;
    var f' := Relabelled(f, a, f[a].lab.(value := value));
    hide WF, AttrList, Relabelled;
    RelabelledRest(f, a, f[a].lab.(value := value), e);
    forall x | x in f
      ensures f'[x].kids == f[x].kids && f'[x].par == f[x].par && (x != e ==> AttrList(f', x) == AttrList(f, x))
    {
      ValueActs(f, e, i, value, x);
      RelabelledRest(f, a, f[a].lab.(value := value), x);
    }
  }

  lemma RelabelledRest(f: Forest, n: Node, l: Label, x: Node)
    requires n in f && x in f
    ensures var f' := Relabelled(f, n, l);
            x in f' && f'.Keys == f.Keys && f'[x].kids == f[x].kids && f'[x].par == f[x].par
  {
  }

  /** Clears the value of the attribute, and keeps the node where it is. */
  method RemoveAttribute(element: Node?, name: Option<bytes>, ghost f: Forest) returns (rc: Status, ghost f': Forest)
    requires Holds(f) && (element != null ==> element in f)
    modifies f.Keys`nodeValue
    ensures Holds(f') && f'.Keys == f.Keys
    ensures rc == if element == null || name.None? then InvalidParameter else Success
    ensures rc == Success ==> OnlyList(f, f', element, Clear(AttrList(f, element), name.value))
    ensures rc != Success ==> f' == f && Untouched(f)
  {
    f' := f;
    hide WF, Rep, AttrList, IndexOf, Relabelled;
    if element == null || name.None? {
      return InvalidParameter, f;
    }
    var attr := FindAttr(element, name.value, f);
    if attr != null {
      PutChanges(f, element, name.value, []);
      ghost var i := IndexOf(AttrList(f, element), name.value);
      AttrLinks(f, element, i);
      if attr.nodeValue.Some? {
        f' := ChangeAttribute(element, i, attr, None, f);
      } else {
        ClearedAlready(f, element, i);
      }
    }
    rc := Success;
  }

  lemma ClearedAlready(f: Forest, e: Node, i: nat)
    requires WF(f) && e in f && i < |f[e].attrs| && f[e].attrs[i] in f && f[f[e].attrs[i]].lab.value == None
    ensures i < |AttrList(f, e)| && AttrList(f, e)[i := AttrList(f, e)[i].(value := None)] == AttrList(f, e)
  {
  }
}
