/**
 Elements that wait for their namespace. While one waits, the parser refuses an attribute of another element unless
 that element brings the wait to an end. Here is when that happens, in terms of the document and of the parser.
 */
module Waiting {
  import opened Bytes
  import opened Xml
  import opened Machine
  import opened Printing
  import Scopes = Scoping

  // ----- on the document

  /** An element that encloses what is looked at; of several, the innermost comes first. */
  datatype Tag = Tag(name: bytes, attrs: seq<Attr>)

  function Prefix(t: Tag): Option<bytes> {
    SplitName(t.name).prefix
  }

  /** A prefix is bound inside an element that has it, or declares it. */
  predicate BindsPrefix(t: Tag, p: bytes) {
    Prefix(t) == Some(p) || HasAttr(t.attrs, XMLNS_COLON + p)
  }

  predicate PrefixBound(outer: seq<Tag>, p: bytes) {
    exists i | 0 <= i < |outer| :: BindsPrefix(outer[i], p)
  }

  predicate BindsDefault(t: Tag) {
    Prefix(t).None? && HasAttr(t.attrs, XMLNS)
  }

  predicate DefaultBound(outer: seq<Tag>) {
    exists i | 0 <= i < |outer| :: BindsDefault(outer[i])
  }

  /** An element with the prefix p finds its own namespace among its attributes; a default declaration will do. */
  predicate DeclaresOwn(t: Tag, p: bytes) {
    HasAttr(t.attrs, XMLNS) || HasAttr(t.attrs, XMLNS_COLON + p)
  }

  /** The prefix of the element that waits, if any, or the refusal of an attribute. */
  datatype Wait = Refused | Wait(prefix: Option<bytes>)

  function TagWait(outer: seq<Tag>, w: Option<bytes>, t: Tag): Wait {
    match Prefix(t)
    case Some(p) =>
      if !PrefixBound(outer, p) then Wait(if DeclaresOwn(t, p) then None else Some(p))
      else if t.attrs == [] then Wait(w)
      else if w == None || w == Some(p) then Wait(None)
      else Refused
    case None =>
      if t.attrs == [] then Wait(w) else if w == None || !DefaultBound(outer) then Wait(None) else Refused
  }

  /** A child list, in document order. */
  function KidsWait(outer: seq<Tag>, w: Option<bytes>, kids: seq<Tree>): Wait
    decreases kids
  {
    if kids == [] then Wait(w)
    else if !kids[0].Element? then KidsWait(outer, w, kids[1..])
    else
      var t := Tag(kids[0].name, kids[0].attrs);
      match TagWait(outer, w, t)
      case Refused => Refused
      case Wait(v) =>
        match KidsWait([t] + outer, v, kids[0].kids)
        case Refused => Refused
        case Wait(u) => KidsWait(outer, u, kids[1..])
  }

  /** No attribute of the document is refused because another element waits. */
  predicate Served(roots: seq<Tree>) {
    KidsWait([], None, roots).Wait?
  }

  /** Every prefix of an element is bound around it or declared by it. */
  predicate AllBound(outer: seq<Tag>, kids: seq<Tree>)
    decreases kids
  {
    kids != [] ==>
      && (kids[0].Element? ==>
            var t := Tag(kids[0].name, kids[0].attrs);
            && (Prefix(t).Some? ==> PrefixBound(outer, Prefix(t).value) || DeclaresOwn(t, Prefix(t).value))
            && AllBound([t] + outer, kids[0].kids))
      && AllBound(outer, kids[1..])
  }

  /** Then nothing ever waits, and nothing is refused. */
  lemma {:induction false} BoundNeverWaits(outer: seq<Tag>, kids: seq<Tree>)
    requires AllBound(outer, kids)
    ensures KidsWait(outer, None, kids) == Wait(None)
    decreases kids
  {
    hide PrefixBound, DeclaresOwn, Prefix;
    if kids != [] {
      if kids[0].Element? {
        BoundNeverWaits([Tag(kids[0].name, kids[0].attrs)] + outer, kids[0].kids);
      }
      BoundNeverWaits(outer, kids[1..]);
    }
  }

  /** What printing preserves of such a list is such a list. */
  lemma {:induction false} NormalBound(outer: seq<Tag>, kids: seq<Tree>)
    requires AllBound(outer, kids)
    ensures AllBound(outer, Normal(kids))
    decreases kids
  {
    hide PrefixBound, DeclaresOwn, Prefix;
    if kids != [] {
      if kids[0].Element? {
        NormalBound([Tag(kids[0].name, kids[0].attrs)] + outer, kids[0].kids);
        NormalBound(outer, kids[1..]);
        assert Normal(kids)[1..] == Normal(kids[1..]);
      } else if Normal(kids) != [] {
        assert Normal(kids)[1..] == [];
      }
    }
  }

  // ----- in the parser

  /** The scopes after some attributes of the innermost open element. */
  function AttrScopes(stack: seq<Scope>, need: Option<Need>, attrs: seq<Attr>): (s: Scoping)
    requires stack != []
    ensures s.Scoping? ==> |s.stack| == |stack|
    decreases |attrs|
  {
    if attrs == [] then Scoping(stack, need)
    else
      match XmlNamespace(stack, need, attrs[0].name, attrs[0].value)
      case ScopeErr => ScopeErr
      case Scoping(s, n) => AttrScopes(s, n, attrs[1..])
  }

  /** A start tag that has been opened, before its attributes. */
  function OpenedScopes(stack: seq<Scope>, need: Option<Need>, name: bytes, attrs: seq<Attr>): Reader {
    Opened(Reader(0, if attrs == [] then InContent else InAttribute, [], stack, need), name, SplitName(name).prefix)
  }

  function TagScopes(stack: seq<Scope>, need: Option<Need>, name: bytes, attrs: seq<Attr>): Scoping {
    var r := OpenedScopes(stack, need, name, attrs);
    AttrScopes(r.stack, r.need, attrs)
  }

  /** What a child list does: the scopes around it are as before, but another element may wait. */
  function KidScopes(stack: seq<Scope>, need: Option<Need>, kids: seq<Tree>): Scoping
    decreases kids
  {
    if kids == [] then Scoping(stack, need)
    else if !kids[0].Element? then KidScopes(stack, need, kids[1..])
    else
      match TagScopes(stack, need, kids[0].name, kids[0].attrs)
      case ScopeErr => ScopeErr
      case Scoping(s, n) =>
        match KidScopes(s, n, kids[0].kids)
        case ScopeErr => ScopeErr
        case Scoping(_, u) => KidScopes(stack, u, kids[1..])
  }

  // ----- the two agree

  /** The scope of an element after some of its attributes. */
  function TopAfter(top: Scope, attrs: seq<Attr>): Scope
    decreases |attrs|
  {
    if attrs == [] then top else TopAfter(Declared(top, attrs[0].name, attrs[0].value), attrs[1..])
  }

  lemma HasFirst(attrs: seq<Attr>, name: bytes)
    requires attrs != []
    ensures HasAttr(attrs, name) <==> attrs[0].name == name || HasAttr(attrs[1..], name)
  {
    if HasAttr(attrs, name) && attrs[0].name != name {
      var i :| 0 <= i < |attrs| && attrs[i].name == name;
      assert attrs[1..][i - 1].name == name;
    }
    if HasAttr(attrs[1..], name) {
      var i :| 0 <= i < |attrs[1..]| && attrs[1..][i].name == name;
      assert attrs[i + 1].name == name;
    }
  }

  lemma NoAttrs()
    ensures forall n :: !HasAttr([], n)
  {
  }

  lemma XmlnsName(name: bytes)
    requires Looking(name, 0, XMLNS_COLON)
    ensures name == XMLNS_COLON + name[6..]
  {
  }

  lemma NotXmlns(p: bytes)
    ensures Looking(XMLNS_COLON + p, 0, XMLNS_COLON) && XMLNS_COLON + p != XMLNS
  {
    assert (XMLNS_COLON + p)[0..6] == XMLNS_COLON;
  }

  lemma SamePrefix(p: bytes, q: bytes)
    ensures XMLNS_COLON + p == XMLNS_COLON + q <==> p == q
  {
    assert (XMLNS_COLON + p)[6..] == p && (XMLNS_COLON + q)[6..] == q;
  }

  /** What one attribute does to the scope of its element. */
  lemma DeclaredBinds(top: Scope, name: bytes, value: bytes, p: bytes)
    ensures var s := Declared(top, name, value);
            && s.element == top.element && s.prefix == top.prefix
            && (Scopes.Binds(s, p).Some? <==> Scopes.Binds(top, p).Some? || name == XMLNS_COLON + p)
            && (s.uri.Some? <==> top.uri.Some? || name == XMLNS
                                 || (top.prefix.Some? && name == XMLNS_COLON + top.prefix.value))
  {
    NotXmlns(p);
    if name == XMLNS {
      Scopes.DefaultDeclared(top, value, p);
      hide Scopes.Binds;
    } else if Looking(name, 0, XMLNS_COLON) {
      var local := name[6..];
      XmlnsName(name);
      SamePrefix(local, p);
      Scopes.PrefixDeclared(top, local, value, p);
      Scopes.LocalOfXmlns(local);
      hide Scopes.Binds, SplitName, NsSet;
      if top.prefix.Some? {
        SamePrefix(local, top.prefix.value);
      }
    } else {
      hide Scopes.Binds;
      if top.prefix.Some? {
        NotXmlns(top.prefix.value);
      }
    }
  }

  lemma {:induction false} TopAfterBinds(top: Scope, attrs: seq<Attr>, p: bytes)
    ensures var s := TopAfter(top, attrs);
            && s.element == top.element && s.prefix == top.prefix
            && (Scopes.Binds(s, p).Some? <==> Scopes.Binds(top, p).Some? || HasAttr(attrs, XMLNS_COLON + p))
            && (s.uri.Some? <==> top.uri.Some? || HasAttr(attrs, XMLNS)
                                 || (top.prefix.Some? && HasAttr(attrs, XMLNS_COLON + top.prefix.value)))
    decreases |attrs|
  {
    hide Scopes.Binds, Declared, HasAttr;
    if attrs == [] {
      NoAttrs();
    } else {
      var a := attrs[0];
      DeclaredBinds(top, a.name, a.value, p);
      TopAfterBinds(Declared(top, a.name, a.value), attrs[1..], p);
      HasFirst(attrs, XMLNS);
      HasFirst(attrs, XMLNS_COLON + p);
      if top.prefix.Some? {
        HasFirst(attrs, XMLNS_COLON + top.prefix.value);
      }
    }
  }

  // How the attributes of an element are taken, depending on what waits.

  lemma {:induction false} NoneWaits(stack: seq<Scope>, attrs: seq<Attr>)
    requires stack != []
    ensures AttrScopes(stack, None, attrs) == Scoping([TopAfter(stack[0], attrs)] + stack[1..], None)
    decreases |attrs|
  {
    hide Declared;
    if attrs == [] {
      assert [stack[0]] + stack[1..] == stack;
    } else {
      NoneWaits([Declared(stack[0], attrs[0].name, attrs[0].value)] + stack[1..], attrs[1..]);
    }
  }

  /** An element that waits for its default namespace stops at its first attribute. */
  lemma DefaultWaits(stack: seq<Scope>, n: Need, attrs: seq<Attr>)
    requires stack != [] && attrs != [] && n.prefix.None? && n.name == stack[0].element
    ensures AttrScopes(stack, Some(n), attrs) == Scoping([TopAfter(stack[0], attrs)] + stack[1..], None)
  {
    var top := Declared(stack[0], attrs[0].name, attrs[0].value);
    DeclaredBinds(stack[0], attrs[0].name, attrs[0].value, []);
    NoneWaits([top] + stack[1..], attrs[1..]);
    hide Declared, TopAfter;
    AttrScopesStep(stack, Some(n), attrs);
    TopAfterStep(stack[0], attrs);
  }

  lemma AttrScopesStep(stack: seq<Scope>, need: Option<Need>, attrs: seq<Attr>)
    requires stack != [] && attrs != []
    ensures var s := AddNamespace([Declared(stack[0], attrs[0].name, attrs[0].value)] + stack[1..], need);
            AttrScopes(stack, need, attrs) ==
            if s.ScopeErr? then ScopeErr else AttrScopes(s.stack, s.need, attrs[1..])
  {
    hide Declared;
  }

  lemma TopAfterStep(top: Scope, attrs: seq<Attr>)
    requires attrs != []
    ensures TopAfter(top, attrs) == TopAfter(Declared(top, attrs[0].name, attrs[0].value), attrs[1..])
  {
    hide Declared;
  }

  /** An element with the prefix that is waited for ends the wait with an attribute, if it has its namespace by then. */
  lemma {:induction false} OwnWaits(stack: seq<Scope>, n: Need, attrs: seq<Attr>)
    requires stack != [] && n.prefix.Some? && stack[0].prefix == n.prefix
    ensures var top := TopAfter(stack[0], attrs);
            AttrScopes(stack, Some(n), attrs) ==
            Scoping([top] + stack[1..], if attrs == [] || top.uri.None? then Some(n) else None)
    decreases |attrs|
  {
    if attrs == [] {
      assert [stack[0]] + stack[1..] == stack;
    } else {
      var top := Declared(stack[0], attrs[0].name, attrs[0].value);
      var s := [top] + stack[1..];
      DeclaredBinds(stack[0], attrs[0].name, attrs[0].value, []);
      TopAfterBinds(top, attrs[1..], []);
      TopNothing(top);
      AttrScopesStep(stack, Some(n), attrs);
      TopAfterStep(stack[0], attrs);
      hide Declared, TopAfter, AttrScopes, HasAttr, Scopes.Binds;
      if top.uri.Some? {
        NoneWaits(s, attrs[1..]);
      } else {
        OwnWaits(s, n, attrs[1..]);
      }
    }
  }

  lemma TopNothing(top: Scope)
    ensures TopAfter(top, []) == top
  {
  }

  /** While an element with another prefix waits, an attribute is refused. */
  lemma OtherWaits(stack: seq<Scope>, n: Need, attrs: seq<Attr>)
    requires stack != [] && attrs != [] && n.prefix.Some? && stack[0].prefix != n.prefix && n.name != stack[0].element
    ensures AttrScopes(stack, Some(n), attrs) == ScopeErr
  {
    DeclaredBinds(stack[0], attrs[0].name, attrs[0].value, []);
    AttrScopesStep(stack, Some(n), attrs);
    hide Declared, AttrScopes;
  }

  /** The parser's scopes bind what the enclosing elements bind. */
  ghost predicate Stands(stack: seq<Scope>, outer: seq<Tag>) {
    && (forall p :: PrefixLookup(stack, p).Some? <==> PrefixBound(outer, p))
    && (DefaultLookup(stack).Some? <==> DefaultBound(outer))
  }

  predicate Waits(need: Option<Need>, w: Option<bytes>) {
    match need
    case None => w.None?
    case Some(n) => w.Some? && n.prefix == w && SplitName(n.name).prefix == w
  }

  lemma BoundInside(outer: seq<Tag>, t: Tag, p: bytes)
    ensures PrefixBound([t] + outer, p) <==> BindsPrefix(t, p) || PrefixBound(outer, p)
  {
    hide BindsPrefix;
    var all := [t] + outer;
    if PrefixBound(all, p) && !BindsPrefix(t, p) {
      var i :| 0 <= i < |all| && BindsPrefix(all[i], p);
      assert BindsPrefix(outer[i - 1], p);
    }
    if PrefixBound(outer, p) {
      var i :| 0 <= i < |outer| && BindsPrefix(outer[i], p);
      assert BindsPrefix(all[i + 1], p);
    }
    assert all[0] == t;
  }

  lemma DefaultInside(outer: seq<Tag>, t: Tag)
    ensures DefaultBound([t] + outer) <==> BindsDefault(t) || DefaultBound(outer)
  {
    hide BindsDefault;
    var all := [t] + outer;
    if DefaultBound(all) && !BindsDefault(t) {
      var i :| 0 <= i < |all| && BindsDefault(all[i]);
      assert BindsDefault(outer[i - 1]);
    }
    if DefaultBound(outer) {
      var i :| 0 <= i < |outer| && BindsDefault(outer[i]);
      assert BindsDefault(all[i + 1]);
    }
    assert all[0] == t;
  }

  lemma PrefixInside(stack: seq<Scope>, top: Scope, p: bytes)
    ensures PrefixLookup([top] + stack, p).Some? <==> Scopes.Binds(top, p).Some? || PrefixLookup(stack, p).Some?
  {
    Scopes.LookupStep([top] + stack, p);
    hide PrefixLookup, Scopes.Binds;
    assert ([top] + stack)[1..] == stack;
  }

  lemma DefaultLookupInside(stack: seq<Scope>, top: Scope)
    ensures DefaultLookup([top] + stack).Some? <==> (top.prefix.None? && top.uri.Some?) || DefaultLookup(stack).Some?
  {
    assert ([top] + stack)[1..] == stack;
  }

  /** Inside an element the scopes still bind what the elements bind. */
  lemma StandsInside(stack: seq<Scope>, outer: seq<Tag>, t: Tag, uri: Option<bytes>)
    requires Stands(stack, outer) && (Prefix(t).None? ==> (uri.Some? <==> DefaultBound(outer)))
    ensures Stands([TopAfter(Scope(t.name, Prefix(t), uri, []), t.attrs)] + stack, [t] + outer)
  {
    var fresh0 := Scope(t.name, Prefix(t), uri, []);
    var top := TopAfter(fresh0, t.attrs);
    hide TopAfter, PrefixLookup, DefaultLookup, PrefixBound, DefaultBound, HasAttr, SplitName;
    forall p ensures PrefixLookup([top] + stack, p).Some? <==> PrefixBound([t] + outer, p) {
      TopAfterBinds(fresh0, t.attrs, p);
      PrefixInside(stack, top, p);
      BoundInside(outer, t, p);
    }
    TopAfterBinds(fresh0, t.attrs, []);
    DefaultLookupInside(stack, top);
    DefaultInside(outer, t);
  }

  /** The namespace a start tag inherits. */
  function Inherited(stack: seq<Scope>, t: Tag): Option<bytes> {
    match Prefix(t)
    case Some(p) => PrefixLookup(stack, p)
    case None => DefaultLookup(stack)
  }

  lemma OpenedIs(stack: seq<Scope>, need: Option<Need>, t: Tag)
    ensures var r := OpenedScopes(stack, need, t.name, t.attrs);
            && r.stack == [Scope(t.name, Prefix(t), Inherited(stack, t), [])] + stack
            && r.need == if Inherited(stack, t).Some? || (Prefix(t).None? && t.attrs == []) then need
                         else Some(Need(t.name, Prefix(t)))
  {
    hide PrefixLookup, DefaultLookup, SplitName;
  }

  /** A start tag: the parser refuses it exactly if the document does, and waits as the document says. */
  lemma TagAgrees(stack: seq<Scope>, outer: seq<Tag>, need: Option<Need>, w: Option<bytes>, t: Tag)
    requires Stands(stack, outer) && Waits(need, w)
    ensures var s, v := TagScopes(stack, need, t.name, t.attrs), TagWait(outer, w, t);
            && (s.ScopeErr? <==> v.Refused?)
            && (s.Scoping? ==>
                  s.stack == [TopAfter(Scope(t.name, Prefix(t), Inherited(stack, t), []), t.attrs)] + stack
                  && Stands(s.stack, [t] + outer) && Waits(s.need, v.prefix))
  {
    var uri := Inherited(stack, t);
    var top0 := Scope(t.name, Prefix(t), uri, []);
    OpenedIs(stack, need, t);
    StandsInside(stack, outer, t, uri);
    var r := OpenedScopes(stack, need, t.name, t.attrs);
    assert r.stack[0] == top0 && r.stack[1..] == stack;
    TopAfterBinds(top0, t.attrs, []);
    if t.attrs == [] {
      TopNothing(top0);
      NoAttrs();
    }
    hide TopAfter, AttrScopes, PrefixLookup, DefaultLookup, SplitName, HasAttr, PrefixBound, DefaultBound, Opened,
         Scopes.Binds, OpenedScopes;
    match r.need {
      case None => NoneWaits(r.stack, t.attrs);
      case Some(n) =>
        if n.prefix.None? {
          DefaultWaits(r.stack, n, t.attrs);
        } else if n.prefix == top0.prefix {
          OwnWaits(r.stack, n, t.attrs);
        } else if t.attrs != [] {
          OtherWaits(r.stack, n, t.attrs);
        }
    }
  }

  /** The parser refuses a child list exactly if the document does, and waits as the document says. */
  lemma {:induction false} KidsAgree(stack: seq<Scope>, outer: seq<Tag>, need: Option<Need>, w: Option<bytes>,
                                     kids: seq<Tree>)
    requires Stands(stack, outer) && Waits(need, w)
    ensures var s, v := KidScopes(stack, need, kids), KidsWait(outer, w, kids);
            && (s.ScopeErr? <==> v.Refused?) && (s.Scoping? ==> s.stack == stack && Waits(s.need, v.prefix))
    decreases kids
  {
    hide TagScopes, TagWait, Stands, Waits, TopAfter, Inherited;
    if kids != [] && kids[0].Element? {
      var t := Tag(kids[0].name, kids[0].attrs);
      TagAgrees(stack, outer, need, w, t);
      var s, v := TagScopes(stack, need, t.name, t.attrs), TagWait(outer, w, t);
      if s.Scoping? {
        KidsAgree(s.stack, [t] + outer, s.need, v.prefix, kids[0].kids);
        var k, u := KidScopes(s.stack, s.need, kids[0].kids), KidsWait([t] + outer, v.prefix, kids[0].kids);
        if k.Scoping? {
          KidsAgree(stack, outer, k.need, u.prefix, kids[1..]);
        }
      }
    } else if kids != [] {
      KidsAgree(stack, outer, need, w, kids[1..]);
    }
  }

  /** At the beginning of a document nothing is bound and nothing waits. */
  lemma ServedIff(roots: seq<Tree>)
    ensures Served(roots) <==> KidScopes([], None, roots).Scoping?
  {
    KidsAgree([], [], None, None, roots);
  }
}
