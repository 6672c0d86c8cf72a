/** An attribute list as an insertion-ordered map. */
module AttrMaps {
  import opened Bytes

  datatype Entry = Entry(name: bytes, value: Option<bytes>)

  /** The position of the first entry of a name, or the length of the list. */
  function IndexOf(s: seq<Entry>, name: bytes): (i: nat)
    ensures i <= |s| && (i < |s| ==> s[i].name == name) && forall j | 0 <= j < i :: s[j].name != name
  {
    if s == [] then 0 else if s[0].name == name then 0 else 1 + IndexOf(s[1..], name)
  }

  predicate Contains(s: seq<Entry>, name: bytes) {
    IndexOf(s, name) < |s|
  }

  function Get(s: seq<Entry>, name: bytes): Option<bytes> {
    if Contains(s, name) then s[IndexOf(s, name)].value else None
  }

  function Put(s: seq<Entry>, name: bytes, value: bytes): seq<Entry> {
    if Contains(s, name) then s[IndexOf(s, name) := Entry(name, Some(value))] else s + [Entry(name, Some(value))]
  }

  /** Removal leaves the entry in its place, without a value. */
  function Clear(s: seq<Entry>, name: bytes): seq<Entry> {
    if Contains(s, name) then s[IndexOf(s, name) := Entry(name, None)] else s
  }

  function Names(s: seq<Entry>): seq<bytes> {
    seq(|s|, i requires 0 <= i < |s| => s[i].name)
  }

  predicate Unique(s: seq<Entry>) {
    forall i, j | 0 <= i < j < |s| :: s[i].name != s[j].name
  }

  lemma IndexIs(s: seq<Entry>, name: bytes, i: nat)
    requires i <= |s| && (i < |s| ==> s[i].name == name) && forall j | 0 <= j < i :: s[j].name != name
    ensures IndexOf(s, name) == i
  {
  }

  /** What is put is got, and nothing else changes. */
  lemma GetPut(s: seq<Entry>, name: bytes, value: bytes, other: bytes)
    ensures Get(Put(s, name, value), other) == if other == name then Some(value) else Get(s, other)
  {
    var s' := Put(s, name, value);
    if other == name {
      IndexIs(s', name, IndexOf(s, name));
    } else if Contains(s, other) {
      IndexIs(s', other, IndexOf(s, other));
    } else {
      IndexIs(s', other, |s'|);
    }
  }

  lemma GetClear(s: seq<Entry>, name: bytes, other: bytes)
    ensures Get(Clear(s, name), other) == if other == name then None else Get(s, other)
  {
    var s' := Clear(s, name);
    if other == name {
      IndexIs(s', name, IndexOf(s, name));
    } else if Contains(s, other) {
      IndexIs(s', other, IndexOf(s, other));
    } else {
      IndexIs(s', other, |s'|);
    }
  }

  /** Putting keeps the order of the names, a new one going last; clearing keeps the names. */
  lemma OrderKept(s: seq<Entry>, name: bytes, value: bytes)
    ensures Names(Put(s, name, value)) == if Contains(s, name) then Names(s) else Names(s) + [name]
    ensures Names(Clear(s, name)) == Names(s)
    ensures Unique(s) ==> Unique(Put(s, name, value)) && Unique(Clear(s, name))
  {
    assert Names(Clear(s, name)) == Names(s);
  }

  datatype Op = Set(name: bytes, value: bytes) | Remove(name: bytes)

  function Do(s: seq<Entry>, op: Op): seq<Entry> {
    match op
    case Set(name, value) => Put(s, name, value)
    case Remove(name) => Clear(s, name)
  }

  function DoAll(s: seq<Entry>, ops: seq<Op>): seq<Entry>
    decreases |ops|
  {
    if ops == [] then s else DoAll(Do(s, ops[0]), ops[1..])
  }

  /** The last operation on a name decides its value. */
  function LastValue(ops: seq<Op>, name: bytes, before: Option<bytes>): Option<bytes>
    decreases |ops|
  {
    if ops == [] then before
    else
      LastValue(ops[1..], name, if ops[0].name != name then before
                                else if ops[0].Set? then Some(ops[0].value) else None)
  }

  /** Over any run the names stay unique, none is lost or moved, and each value is that of the last operation. */
  lemma {:induction false} RunIsMap(s: seq<Entry>, ops: seq<Op>, name: bytes)
    requires Unique(s)
    ensures Unique(DoAll(s, ops)) && Names(s) <= Names(DoAll(s, ops))
    ensures Get(DoAll(s, ops), name) == LastValue(ops, name, Get(s, name))
    decreases |ops|
  {
    if ops != [] {
      var s' := Do(s, ops[0]);
      match ops[0] {
        case Set(n, v) =>
          GetPut(s, n, v, name);
          OrderKept(s, n, v);
        case Remove(n) =>
          GetClear(s, n, name);
          OrderKept(s, n, []);
      }
      hide Do, Get, Unique;
      RunIsMap(s', ops[1..], name);
    }
  }
}
