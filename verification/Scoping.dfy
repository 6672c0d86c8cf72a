/** Namespace scopes: which binding a prefix finds, and what the scopes look like over a run. */
module Scoping {
  import opened Bytes
  import opened Lexer
  import opened Machine
  import opened Parse
  import opened MachineProperties

  /** What one element binds a prefix to: its own prefix first, then its xmlns: declarations. */
  function Binds(s: Scope, prefix: bytes): Option<bytes> {
    if s.prefix == Some(prefix) then Some(if s.uri.Some? then s.uri.value else []) else NsLookup(s.ns, prefix)
  }

  /** The scope at `i` is the innermost that binds the prefix. */
  ghost predicate BoundAt(stack: seq<Scope>, prefix: bytes, i: int, u: bytes) {
    0 <= i < |stack| && Binds(stack[i], prefix) == Some(u) && forall j | 0 <= j < i :: Binds(stack[j], prefix).None?
  }

  predicate Unbound(stack: seq<Scope>, prefix: bytes) {
    forall i | 0 <= i < |stack| :: Binds(stack[i], prefix).None?
  }

  lemma LookupStep(stack: seq<Scope>, prefix: bytes)
    requires stack != []
    ensures PrefixLookup(stack, prefix) ==
            if Binds(stack[0], prefix).Some? then Binds(stack[0], prefix) else PrefixLookup(stack[1..], prefix)
  {
  }

  lemma BoundInTail(stack: seq<Scope>, prefix: bytes, i: nat, u: bytes)
    requires stack != [] && Binds(stack[0], prefix).None?
    ensures BoundAt(stack[1..], prefix, i, u) <==> BoundAt(stack, prefix, i + 1, u)
    ensures Unbound(stack, prefix) <==> Unbound(stack[1..], prefix)
  {
    hide Binds;
    var tail := stack[1..];
    assert forall k | 0 <= k < |tail| :: tail[k] == stack[k + 1];
    if BoundAt(tail, prefix, i, u) {
      forall j | 0 <= j < i + 1 ensures Binds(stack[j], prefix).None? {
        assert j > 0 ==> Binds(tail[j - 1], prefix).None?;
      }
    }
    if Unbound(tail, prefix) {
      forall j | 0 <= j < |stack| ensures Binds(stack[j], prefix).None? {
        assert j > 0 ==> Binds(tail[j - 1], prefix).None?;
      }
    }
  }

  /** A lookup finds the binding of the innermost open element that has one, and None only if none has. */
  lemma {:induction false} LookupIsInnermost(stack: seq<Scope>, prefix: bytes)
    ensures PrefixLookup(stack, prefix).None? <==> Unbound(stack, prefix)
    ensures forall u :: PrefixLookup(stack, prefix) == Some(u) <==> exists i :: BoundAt(stack, prefix, i, u)
  {
    if stack != [] {
      LookupStep(stack, prefix);
      LookupIsInnermost(stack[1..], prefix);
      hide PrefixLookup, Binds;
      forall u ensures PrefixLookup(stack, prefix) == Some(u) <==> exists i :: BoundAt(stack, prefix, i, u) {
        if Binds(stack[0], prefix).None? {
          forall i: nat ensures BoundAt(stack[1..], prefix, i, u) <==> BoundAt(stack, prefix, i + 1, u) {
            BoundInTail(stack, prefix, i, u);
          }
          if i :| BoundAt(stack, prefix, i, u) {
            assert BoundAt(stack[1..], prefix, i - 1, u);
          }
          if i :| BoundAt(stack[1..], prefix, i, u) {
            assert BoundAt(stack, prefix, i + 1, u);
          }
        } else {
          assert Binds(stack[0], prefix) == Some(u) ==> BoundAt(stack, prefix, 0, u);
        }
      }
      if Binds(stack[0], prefix).None? {
        BoundInTail(stack, prefix, 0, []);
      }
    }
  }

  /** The default namespace of one element, which only an element without a prefix has. */
  function DefaultOf(s: Scope): Option<bytes> {
    if s.prefix.None? then s.uri else None
  }

  /** The scope at `i` is the innermost with a default namespace. */
  ghost predicate DefaultAt(stack: seq<Scope>, i: int, u: bytes) {
    0 <= i < |stack| && DefaultOf(stack[i]) == Some(u) && forall j | 0 <= j < i :: DefaultOf(stack[j]).None?
  }

  lemma DefaultStep(stack: seq<Scope>)
    requires stack != []
    ensures DefaultLookup(stack) ==
            if DefaultOf(stack[0]).Some? then DefaultOf(stack[0]) else DefaultLookup(stack[1..])
  {
  }

  lemma DefaultInTail(stack: seq<Scope>, i: nat, u: bytes)
    requires stack != [] && DefaultOf(stack[0]).None?
    ensures DefaultAt(stack[1..], i, u) <==> DefaultAt(stack, i + 1, u)
  {
    hide DefaultOf;
    var tail := stack[1..];
    assert forall k | 0 <= k < |tail| :: tail[k] == stack[k + 1];
    if DefaultAt(tail, i, u) {
      forall j | 0 <= j < i + 1 ensures DefaultOf(stack[j]).None? {
        assert j > 0 ==> DefaultOf(tail[j - 1]).None?;
      }
    }
  }

  /** A lookup of the default finds that of the innermost open element without a prefix that has one, or None. */
  lemma {:induction false} DefaultIsInnermost(stack: seq<Scope>)
    ensures DefaultLookup(stack).None? <==> forall i | 0 <= i < |stack| :: DefaultOf(stack[i]).None?
    ensures forall u :: DefaultLookup(stack) == Some(u) <==> exists i :: DefaultAt(stack, i, u)
  {
    if stack != [] {
      DefaultStep(stack);
      DefaultIsInnermost(stack[1..]);
      hide DefaultLookup, DefaultOf;
      assert forall k | 0 <= k < |stack[1..]| :: stack[1..][k] == stack[k + 1];
      assert forall k | 0 < k < |stack| :: stack[k] == stack[1..][k - 1];
      forall u ensures DefaultLookup(stack) == Some(u) <==> exists i :: DefaultAt(stack, i, u) {
        if DefaultOf(stack[0]).None? {
          forall i: nat ensures DefaultAt(stack[1..], i, u) <==> DefaultAt(stack, i + 1, u) {
            DefaultInTail(stack, i, u);
          }
          if i :| DefaultAt(stack, i, u) {
            assert DefaultAt(stack[1..], i - 1, u);
          }
          if i :| DefaultAt(stack[1..], i, u) {
            assert DefaultAt(stack, i + 1, u);
          }
        } else {
          assert DefaultOf(stack[0]) == Some(u) ==> DefaultAt(stack, 0, u);
        }
      }
    }
  }

  /**
   A start tag puts one scope on the stack, which begins with the innermost binding of its prefix, or with the
   innermost default if it has none; it waits exactly if there is no such binding and, without a prefix, attributes
   follow. A new wait ends an older one.
   */
  lemma OpenedInherits(r: Reader, name: bytes, prefix: Option<bytes>)
    ensures var r' := Opened(r, name, prefix);
            && |r'.stack| == |r.stack| + 1 && r'.stack[1..] == r.stack
            && r'.stack[0].element == name && r'.stack[0].prefix == prefix && r'.stack[0].ns == []
            && (forall u :: r'.stack[0].uri == Some(u) <==>
                  if prefix.Some? then exists i :: BoundAt(r.stack, prefix.value, i, u)
                  else exists i :: DefaultAt(r.stack, i, u))
            && r'.need == (if r'.stack[0].uri.None? && (prefix.Some? || r.state == InAttribute)
                           then Some(Need(name, prefix)) else r.need)
            && r'.cur == r.cur && r'.state == r.state && r'.lastElem == r.lastElem
  {
    hide PrefixLookup, DefaultLookup, BoundAt, DefaultAt, Unbound;
    if prefix.Some? {
      LookupIsInnermost(r.stack, prefix.value);
    } else {
      DefaultIsInnermost(r.stack);
    }
  }

  /** No prefix is listed again further down. */
  predicate Distinct(ns: seq<Ns>) {
    ns != [] ==> NsLookup(ns[1..], ns[0].prefix).None? && Distinct(ns[1..])
  }

  lemma {:induction false} NsSetLookup(ns: seq<Ns>, prefix: bytes, uri: bytes, other: bytes)
    ensures NsLookup(NsSet(ns, prefix, uri), other) == if other == prefix then Some(uri) else NsLookup(ns, other)
  {
    if ns != [] && ns[0].prefix != prefix {
      NsSetLookup(ns[1..], prefix, uri, other);
      assert NsSet(ns, prefix, uri)[1..] == NsSet(ns[1..], prefix, uri);
    } else if ns != [] {
      assert NsSet(ns, prefix, uri)[1..] == ns[1..];
    }
  }

  /** Setting a declaration keeps the list free of duplicates. */
  lemma {:induction false} NsSetDistinct(ns: seq<Ns>, prefix: bytes, uri: bytes)
    requires Distinct(ns)
    ensures Distinct(NsSet(ns, prefix, uri))
  {
    if ns != [] && ns[0].prefix != prefix {
      NsSetDistinct(ns[1..], prefix, uri);
      NsSetLookup(ns[1..], prefix, uri, ns[0].prefix);
      assert NsSet(ns, prefix, uri)[1..] == NsSet(ns[1..], prefix, uri);
    } else if ns != [] {
      assert NsSet(ns, prefix, uri)[1..] == ns[1..];
    }
  }

  /** A declaration xmlns:p binds p in the scope of its element and no other prefix. */
  lemma PrefixDeclared(top: Scope, prefix: bytes, uri: bytes, other: bytes)
    ensures Binds(Declared(top, XMLNS_COLON + prefix, uri), other) ==
            if other == prefix then Some(uri) else Binds(top, other)
  {
    var name := XMLNS_COLON + prefix;
    assert name[0..6] == XMLNS_COLON;
    LocalOfXmlns(prefix);
    NsSetLookup(top.ns, prefix, uri, other);
  }

  lemma LocalOfXmlns(prefix: bytes)
    ensures SplitName(XMLNS_COLON + prefix) == QName(Some(XMLNS), prefix)
  {
    var name := XMLNS_COLON + prefix;
    assert Looking(name, 5, [COLON]) by { assert name[5..6] == [COLON]; }
    forall q: nat | q < 5 ensures !Looking(name, q, [COLON]) {
      LookingNo(name, q, [COLON], 0);
    }
    assert name[..5] == XMLNS && name[6..] == prefix;
  }

  /**
   A default declaration is stored where the URI of the element's own prefix is kept: on a prefixed
   element it rebinds that prefix, on any other it leaves every prefix alone.
   */
  lemma DefaultDeclared(top: Scope, uri: bytes, other: bytes)
    ensures Binds(Declared(top, XMLNS, uri), other) ==
            if top.prefix == Some(other) then Some(uri) else Binds(top, other)
    ensures top.prefix.None? ==> DefaultLookup([Declared(top, XMLNS, uri)]) == Some(uri)
  {
  }

  // ----- over runs

  predicate Scoped(m: Machine) {
    forall i | 0 <= i < |m.r.stack| :: Distinct(m.r.stack[i].ns)
  }

  /** One iteration pushes a scope, pops one, or changes at most the top one. */
  lemma ScopeEffect(d: bytes, m: Machine)
    requires Running(m) && Step(d, m).Next?
    ensures GetNextNode(d, m.r).Got?
    ensures var s, s' := m.r.stack, Step(d, m).m.r.stack;
            match GetNextNode(d, m.r).item
            case StartTag(_, _, _) => s' != [] && s'[1..] == s && s'[0].ns == []
            case EndTag(_) => s != [] && s' == s[1..]
            case AttrNode(a, _, _) => s != [] && s' == [Declared(s[0], a.name, a.value)] + s[1..]
            case _ => s' == s
  {
    hide GetNextNode, Opened, Declared;
    ReadingEffect(d, m.r);
    var g := GetNextNode(d, m.r);
    if g.item.StartTag? {
      OpenedPushes(g.r, g.item.name, g.item.prefix);
    }
  }

  lemma DeclaredDistinct(top: Scope, name: bytes, value: bytes)
    requires Distinct(top.ns)
    ensures Distinct(Declared(top, name, value).ns)
  {
    NsSetDistinct(top.ns, SplitName(name).localName, value);
  }

  lemma ScopedStep(d: bytes, m: Machine)
    requires Running(m) && Scoped(m) && Step(d, m).Next?
    ensures Scoped(Step(d, m).m)
  {
    hide GetNextNode, Step, Declared;
    ScopeEffect(d, m);
    var s, s' := m.r.stack, Step(d, m).m.r.stack;
    match GetNextNode(d, m.r).item
    case StartTag(_, _, _) =>
      assert forall i | 1 <= i < |s'| :: s'[i] == s'[1..][i - 1];
    case EndTag(_) =>
    case AttrNode(a, _, _) =>
      DeclaredDistinct(s[0], a.name, a.value);
    case _ =>
  }

  /** No element ever holds two declarations of one prefix. */
  lemma {:induction false} ScopedAlways(d: bytes, m: Machine, n: nat)
    requires Running(m) && Scoped(m) && Steps(d, m, n).Some?
    ensures Scoped(Steps(d, m, n).value)
    decreases n
  {
    hide Step, Scoped;
    if n > 0 {
      StepProgress(d, m);
      ScopedStep(d, m);
      ScopedAlways(d, Step(d, m).m, n - 1);
    }
  }

  /** The number of scopes open after `i` iterations. */
  function Depth(d: bytes, m: Machine, i: nat): int
    requires Running(m)
  {
    if Steps(d, m, i).Some? then |Steps(d, m, i).value.r.stack| else -1
  }

  /** The `k` outermost scopes. */
  function Outer(s: seq<Scope>, k: nat): seq<Scope> {
    if k <= |s| then s[|s| - k..] else s
  }

  lemma OuterStep(d: bytes, m: Machine, k: nat)
    requires Running(m) && Step(d, m).Next? && |m.r.stack| > k
    ensures |Step(d, m).m.r.stack| >= k && Outer(Step(d, m).m.r.stack, k) == Outer(m.r.stack, k)
  {
    hide GetNextNode, Step, Declared;
    ScopeEffect(d, m);
    var s, s' := m.r.stack, Step(d, m).m.r.stack;
    if GetNextNode(d, m.r).item.StartTag? {
      assert s' == [s'[0]] + s;
    }
  }

  /** While more than `k` elements stay open, the scopes of the `k` outermost ones do not change. */
  lemma {:induction false} OuterKept(d: bytes, m: Machine, n: nat, k: nat)
    requires Running(m) && Steps(d, m, n).Some?
    requires forall i: nat | i < n :: Depth(d, m, i) > k
    ensures n > 0 || |m.r.stack| >= k ==> |Steps(d, m, n).value.r.stack| >= k
    ensures n > 0 || |m.r.stack| >= k ==> Outer(Steps(d, m, n).value.r.stack, k) == Outer(m.r.stack, k)
    decreases n
  {
    hide Step, Outer;
    if n > 0 {
      assert Depth(d, m, 0) > k;
      StepProgress(d, m);
      OuterStep(d, m, k);
      var m' := Step(d, m).m;
      forall i: nat | i < n - 1 ensures Depth(d, m', i) > k {
        assert Depth(d, m, i + 1) > k;
        assert Steps(d, m, i + 1) == Steps(d, m', i);
      }
      OuterKept(d, m', n - 1, k);
    }
  }

  /**
   Around a balanced element - from the iteration that reads its start tag to the first one that is
   back at the old depth - every namespace scope is what it was before.
   */
  lemma BalancedScopes(d: bytes, m: Machine, n: nat)
    requires Running(m) && Steps(d, m, n).Some? && n > 0
    requires GetNextNode(d, m.r).Got? && GetNextNode(d, m.r).item.StartTag?
    requires forall i: nat | 0 < i < n :: Depth(d, m, i) > |m.r.stack|
    requires Depth(d, m, n) == |m.r.stack|
    ensures Steps(d, m, n).value.r.stack == m.r.stack
  {
    hide GetNextNode, Step;
    StepProgress(d, m);
    ScopeEffect(d, m);
    var m' := Step(d, m).m;
    var k := |m.r.stack|;
    assert m'.r.stack[1..] == m.r.stack;
    assert Steps(d, m, 1) == Some(m') by { assert Steps(d, m', 0) == Some(m'); }
    assert Outer(m'.r.stack, k) == m.r.stack;
    forall i: nat | i < n - 1 ensures Depth(d, m', i) > k {
      assert Depth(d, m, i + 1) == Depth(d, m', i);
    }
    OuterKept(d, m', n - 1, k);
    assert Steps(d, m, n) == Steps(d, m', n - 1);
  }

  // ----- the length of a run

  /** A parse takes at most two iterations for each byte of the buffer, and one more. */
  lemma {:induction false} IterationBound(d: bytes, m: Machine, n: nat)
    requires Running(m) && Steps(d, m, n).Some?
    ensures n <= 2 * Left(d, m.r) + Phase(m.r)
    decreases n
  {
    hide Step;
    if n > 0 {
      StepProgress(d, m);
      IterationBound(d, Step(d, m).m, n - 1);
    }
  }
}
