/** The sample control point's list of devices, whose advertisements expire. */
module DeviceList {
  import opened Bytes

  // ----- the list as a value

  datatype Device = Device(udn: bytes, timeout: int)

  predicate Knows(s: seq<Device>, udn: bytes) {
    exists i | 0 <= i < |s| :: s[i].udn == udn
  }

  /** The position of a device, or the length of the list. */
  function Place(s: seq<Device>, udn: bytes): (i: nat)
    ensures i <= |s| && (i < |s| ==> s[i].udn == udn) && forall j | 0 <= j < i :: s[j].udn != udn
  {
    if s == [] || s[0].udn == udn then 0 else 1 + Place(s[1..], udn)
  }

  /** An advertisement refreshes the device, or puts it last. */
  function Advertised(s: seq<Device>, udn: bytes, expires: int): seq<Device> {
    var i := Place(s, udn);
    if i < |s| then s[i := Device(udn, expires)] else s + [Device(udn, expires)]
  }

  function Dismissed(s: seq<Device>, udn: bytes): seq<Device> {
    var i := Place(s, udn);
    if i < |s| then s[..i] + s[i + 1..] else s
  }

  /** A sweep counts every device down and keeps those with time left, in order. */
  function Swept(s: seq<Device>, incr: int): seq<Device> {
    if s == [] then []
    else
      var n := |s| - 1;
      Swept(s[..n], incr) + if s[n].timeout - incr > 0 then [Device(s[n].udn, s[n].timeout - incr)] else []
  }

  predicate Unique(s: seq<Device>) {
    forall i, j | 0 <= i < j < |s| :: s[i].udn != s[j].udn
  }

  /** What is left of a device after a sweep, and of nothing else. */
  lemma {:induction false} InSwept(s: seq<Device>, incr: int, udn: bytes, timeout: int)
    ensures Device(udn, timeout) in Swept(s, incr) <==> timeout > 0 && Device(udn, timeout + incr) in s
  {
    if s != [] {
      var n := |s| - 1;
      InSwept(s[..n], incr, udn, timeout);
      assert s == s[..n] + [s[n]];
    }
  }

  lemma {:induction false} SweptUnique(s: seq<Device>, incr: int)
    requires Unique(s)
    ensures Unique(Swept(s, incr)) && forall udn | Knows(Swept(s, incr), udn) :: Knows(s, udn)
  {
    if s != [] {
      var n := |s| - 1;
      var t := Swept(s[..n], incr);
      SweptUnique(s[..n], incr);
      forall udn | Knows(s[..n], udn) ensures Knows(s, udn) && udn != s[n].udn {
        var i :| 0 <= i < n && s[..n][i].udn == udn;
        assert s[i].udn == udn;
      }
      forall udn | Knows(Swept(s, incr), udn) ensures Knows(s, udn) {
        var i :| 0 <= i < |Swept(s, incr)| && Swept(s, incr)[i].udn == udn;
        if i < |t| {
          assert t[i].udn == udn;
        }
      }
      forall i | 0 <= i < |t| ensures t[i].udn != s[n].udn {
        assert Knows(t, t[i].udn);
      }
    }
  }

  datatype Op = Add(udn: bytes, expires: int) | Remove(udn: bytes) | Sweep(incr: int)

  function Do(s: seq<Device>, op: Op): seq<Device> {
    match op
    case Add(udn, expires) => Advertised(s, udn, expires)
    case Remove(udn) => Dismissed(s, udn)
    case Sweep(incr) => Swept(s, incr)
  }

  function DoAll(s: seq<Device>, ops: seq<Op>): seq<Device>
    decreases |ops|
  {
    if ops == [] then s else DoAll(Do(s, ops[0]), ops[1..])
  }

  lemma DoUnique(s: seq<Device>, op: Op)
    requires Unique(s)
    ensures Unique(Do(s, op))
  {
    if op.Sweep? {
      SweptUnique(s, op.incr);
    }
  }

  /** What one operation makes of a device: `expires` is its time left before, if it is known. */
  function After(op: Op, udn: bytes, expires: Option<int>): Option<int> {
    match op
    case Add(u, e) => if u == udn then Some(e) else expires
    case Remove(u) => if u == udn then None else expires
    case Sweep(incr) => if expires.Some? && expires.value - incr > 0 then Some(expires.value - incr) else None
  }

  function AfterAll(ops: seq<Op>, udn: bytes, expires: Option<int>): Option<int>
    decreases |ops|
  {
    if ops == [] then expires else AfterAll(ops[1..], udn, After(ops[0], udn, expires))
  }

  function TimeLeft(s: seq<Device>, udn: bytes): Option<int> {
    var i := Place(s, udn);
    if i < |s| then Some(s[i].timeout) else None
  }

  lemma PlaceIs(s: seq<Device>, udn: bytes, i: nat)
    requires i <= |s| && (i < |s| ==> s[i].udn == udn) && forall j | 0 <= j < i :: s[j].udn != udn
    ensures Place(s, udn) == i
  {
  }

  lemma TimeLeftIs(s: seq<Device>, udn: bytes, timeout: int)
    requires Unique(s)
    ensures TimeLeft(s, udn) == Some(timeout) <==> Device(udn, timeout) in s
  {
    var i := Place(s, udn);
    if Device(udn, timeout) in s {
      var j :| 0 <= j < |s| && s[j] == Device(udn, timeout);
    } else if i < |s| {
      assert s[i] in s && s[i] == Device(udn, s[i].timeout);
    }
  }

  lemma DoTimeLeft(s: seq<Device>, op: Op, udn: bytes)
    requires Unique(s)
    ensures TimeLeft(Do(s, op), udn) == After(op, udn, TimeLeft(s, udn))
  {
    match op {
      case Add(u, e) => AddTimeLeft(s, u, e, udn);
      case Remove(u) => RemoveTimeLeft(s, u, udn);
      case Sweep(incr) =>
        SweptUnique(s, incr);
        SweptTimeLeft(s, incr, udn);
    }
  }

  lemma AddTimeLeft(s: seq<Device>, u: bytes, e: int, udn: bytes)
    ensures TimeLeft(Advertised(s, u, e), udn) == After(Add(u, e), udn, TimeLeft(s, udn))
  {
    var i := Place(s, udn);
    PlaceIs(Advertised(s, u, e), udn, if u == udn || i < |s| then i else |Advertised(s, u, e)|);
  }

  lemma RemoveTimeLeft(s: seq<Device>, u: bytes, udn: bytes)
    requires Unique(s)
    ensures TimeLeft(Dismissed(s, u), udn) == After(Remove(u), udn, TimeLeft(s, udn))
  {
    var i, k, s' := Place(s, udn), Place(s, u), Dismissed(s, u);
    DismissedAt(s, u);
    hide Dismissed;
    PlaceIs(s', udn, if u == udn || i == |s| then |s'| else if k < i then i - 1 else i);
  }

  lemma DismissedIs(s: seq<Device>, u: bytes)
    ensures var i := Place(s, u); Dismissed(s, u) == if i < |s| then s[..i] + s[i + 1..] else s
  {
  }

  lemma DismissedAt(s: seq<Device>, u: bytes)
    ensures var s', k := Dismissed(s, u), Place(s, u);
            && |s'| == (if k < |s| then |s| - 1 else |s|)
            && forall j | 0 <= j < |s'| :: s'[j] == s[if j < k then j else j + 1]
  {
    var k := Place(s, u);
    DismissedIs(s, u);
    hide Place, Dismissed;
    if k < |s| {
      var s' := s[..k] + s[k + 1..];
      assert forall j | 0 <= j < |s'| :: s'[j] == s[if j < k then j else j + 1];
    }
  }

  lemma SweptTimeLeft(s: seq<Device>, incr: int, udn: bytes)
    requires Unique(s) && Unique(Swept(s, incr))
    ensures TimeLeft(Swept(s, incr), udn) == After(Sweep(incr), udn, TimeLeft(s, udn))
  {
    var s' := Swept(s, incr);
    if TimeLeft(s', udn).Some? {
      var t := TimeLeft(s', udn).value;
      TimeLeftIs(s', udn, t);
      InSwept(s, incr, udn, t);
      TimeLeftIs(s, udn, t + incr);
    } else if TimeLeft(s, udn).Some? {
      var t := TimeLeft(s, udn).value;
      TimeLeftIs(s, udn, t);
      InSwept(s, incr, udn, t - incr);
      TimeLeftIs(s', udn, t - incr);
    }
  }

  /** Over every run the devices are unique, and each is known exactly as long as its advertisement lasts. */
  lemma {:induction false} RunKeepsTime(s: seq<Device>, ops: seq<Op>, udn: bytes)
    requires Unique(s)
    ensures Unique(DoAll(s, ops)) && TimeLeft(DoAll(s, ops), udn) == AfterAll(ops, udn, TimeLeft(s, udn))
    decreases |ops|
  {
    hide Unique, Do, After, TimeLeft;
    if ops != [] {
      DoUnique(s, ops[0]);
      DoTimeLeft(s, ops[0], udn);
      RunKeepsTime(Do(s, ops[0]), ops[1..], udn);
    }
  }

  function Sweeps(ops: seq<Op>): nat {
    if ops == [] then 0 else (if ops[0].Sweep? then 1 else 0) + Sweeps(ops[1..])
  }

  function CeilDiv(a: int, b: int): int
    requires b > 0
  {
    (a + b - 1) / b
  }

  /** Whether a number of rounds of `incr` uses up `e` is whether it reaches the quotient rounded up. */
  lemma RoundsEnough(e: int, incr: int, k: int)
    requires incr > 0
    ensures e - k * incr > 0 <==> k < CeilDiv(e, incr)
  {
    var q := CeilDiv(e, incr);
    assert q * incr <= e + incr - 1 < q * incr + incr;
    if k < q {
      assert k * incr <= (q - 1) * incr;
    } else {
      assert k * incr >= q * incr;
    }
  }

  lemma {:induction false} LeftAfter(ops: seq<Op>, udn: bytes, e: int, incr: int)
    requires incr > 0 && e > 0
    requires forall op | op in ops :: (op.Sweep? ==> op.incr == incr) && (op.Sweep? || op.udn != udn)
    ensures var k := Sweeps(ops); AfterAll(ops, udn, Some(e)) == if e - k * incr > 0 then Some(e - k * incr) else None
    decreases |ops|
  {
    if ops != [] {
      var rest := ops[1..];
      forall op | op in rest ensures (op.Sweep? ==> op.incr == incr) && (op.Sweep? || op.udn != udn) {
        assert op in ops;
      }
      assert ops[0] in ops;
      if ops[0].Sweep? && e - incr > 0 {
        LeftAfter(rest, udn, e - incr, incr);
        assert e - incr - Sweeps(rest) * incr == e - (Sweeps(rest) + 1) * incr;
      } else if ops[0].Sweep? {
        NoneStays(rest, udn);
        assert Sweeps(ops) * incr >= incr;
      } else {
        LeftAfter(rest, udn, e, incr);
      }
    }
  }

  lemma {:induction false} NoneStays(ops: seq<Op>, udn: bytes)
    requires forall op | op in ops :: op.Sweep? || op.udn != udn
    ensures AfterAll(ops, udn, None) == None
    decreases |ops|
  {
    if ops != [] {
      assert ops[0] in ops;
      forall op | op in ops[1..] ensures op.Sweep? || op.udn != udn {
        assert op in ops;
      }
      NoneStays(ops[1..], udn);
    }
  }

  /**
   A device advertised for `e` seconds and not heard of again is dropped on exactly the sweep number ceil(e / incr),
   whatever else happens to other devices.
   */
  lemma DroppedOnTime(s: seq<Device>, udn: bytes, e: int, ops: seq<Op>, incr: int)
    requires Unique(s) && e > 0 && incr > 0
    requires forall op | op in ops :: (op.Sweep? ==> op.incr == incr) && (op.Sweep? || op.udn != udn)
    ensures TimeLeft(DoAll(Advertised(s, udn, e), ops), udn).Some? <==> Sweeps(ops) < CeilDiv(e, incr)
  {
    DoUnique(s, Add(udn, e));
    DoTimeLeft(s, Add(udn, e), udn);
    RunKeepsTime(Advertised(s, udn, e), ops, udn);
    LeftAfter(ops, udn, e, incr);
    RoundsEnough(e, incr, Sweeps(ops));
  }

  // ----- the list in memory

  class DeviceNode {
    const udn: bytes
    var advrTimeOut: int
    var next: DeviceNode?

    constructor (udn: bytes, expires: int)
      ensures this.udn == udn && advrTimeOut == expires && next == null
    {
      this.udn, advrTimeOut, next := udn, expires, null;
    }
  }

  ghost function NodeAt(s: seq<DeviceNode>, i: int): DeviceNode? {
    if 0 <= i < |s| then s[i] else null
  }

  ghost predicate Linked(head: DeviceNode?, s: seq<DeviceNode>)
    reads s
  {
    && head == NodeAt(s, 0) && (forall i | 0 <= i < |s| :: s[i].next == NodeAt(s, i + 1))
    && forall i, j | 0 <= i < j < |s| :: s[i] != s[j]
  }

  ghost function ViewOf(s: seq<DeviceNode>): seq<Device>
    reads s
  {
    seq(|s|, i requires 0 <= i < |s| reads s => Device(s[i].udn, s[i].advrTimeOut))
  }

  /** After this nothing is known of the node. */
  method FreeNode(n: DeviceNode)
    modifies n
  {
    n.next, n.advrTimeOut := null, 0;
  }

  ghost function Without(s: seq<DeviceNode>, i: nat): seq<DeviceNode>
    requires i < |s|
  {
    s[..i] + s[i + 1..]
  }

  lemma ViewWithout(s: seq<DeviceNode>, i: nat)
    requires i < |s|
    ensures ViewOf(Without(s, i)) == ViewOf(s)[..i] + ViewOf(s)[i + 1..]
  {
  }

  lemma WithoutAt(s: seq<DeviceNode>, i: nat)
    requires i < |s|
    ensures |Without(s, i)| == |s| - 1
    ensures forall j | 0 <= j < |s| - 1 :: Without(s, i)[j] == s[if j < i then j else j + 1]
  {
  }

  lemma ViewAppend(s: seq<DeviceNode>, n: DeviceNode)
    ensures ViewOf(s + [n]) == ViewOf(s) + [Device(n.udn, n.advrTimeOut)]
  {
  }

  method SetNext(n: DeviceNode, next: DeviceNode, ghost s: seq<DeviceNode>)
    modifies n`next
    ensures n.next == next && ViewOf(s) == old(ViewOf(s))
  {
    n.next := next;
  }

  class GlobalList {
    var head: DeviceNode?
    ghost var nodes: seq<DeviceNode>

    ghost predicate Valid()
      reads this, nodes
    {
      Linked(head, nodes)
    }

    ghost function View(): seq<Device>
      reads this, nodes
    {
      ViewOf(nodes)
    }

    constructor ()
      ensures Valid() && View() == []
    {
      head, nodes := null, [];
    }

    /** The node of a device, if it is in the list. */
    method FindNode(udn: bytes) returns (n: DeviceNode?)
      requires Valid()
      ensures n == NodeAt(nodes, Place(View(), udn))
    {
      n := head;
      ghost var i := 0;
      while n != null
        invariant i <= |nodes| && n == NodeAt(nodes, i) && forall j | 0 <= j < i :: View()[j].udn != udn
        decreases |nodes| - i
      {
        if n.udn == udn {
          PlaceIs(View(), udn, i);
          return;
        }
        n := n.next;
        i := i + 1;
      }
      PlaceIs(View(), udn, i);
    }

    method AddDevice(udn: bytes, expires: int)
      requires Valid()
      modifies this, nodes
      ensures Valid() && View() == Advertised(old(View()), udn, expires)
      ensures forall n | n in nodes :: n in old(nodes) || fresh(n)
    {
      var tmp := FindNode(udn);
      if tmp != null {
        SetTimeout(tmp, expires, Place(View(), udn));
      } else {
        AppendNode(udn, expires);
      }
    }

    method SetTimeout(n: DeviceNode, timeout: int, ghost i: nat)
      requires Valid() && i < |nodes| && n == nodes[i]
      modifies n`advrTimeOut
      ensures Valid() && View() == old(View())[i := Device(n.udn, timeout)] && n.advrTimeOut == timeout
    {
      n.advrTimeOut := timeout;
    }

    method LastNode() returns (last: DeviceNode)
      requires Valid() && head != null
      ensures nodes != [] && last == nodes[|nodes| - 1] && last.next == null
    {
      last := head;
      ghost var i := 0;
      while last.next != null
        invariant i < |nodes| && last == nodes[i]
        decreases |nodes| - i
      {
        last := last.next;
        i := i + 1;
      }
    }

    method AppendNode(udn: bytes, expires: int)
      requires Valid()
      modifies this, nodes
      ensures Valid() && View() == old(View()) + [Device(udn, expires)]
      ensures forall n | n in nodes :: n in old(nodes) || fresh(n)
    {
      hide ViewOf;
      var node := new DeviceNode(udn, expires);
      ghost var s := nodes;
      if head != null {
        var last := LastNode();
        SetNext(last, node, s);
      } else {
        head := node;
      }
      nodes := s + [node];
      ViewAppend(s, node);
    }

    method Unlink(prev: DeviceNode?, cur: DeviceNode, ghost i: nat)
      requires Valid() && i < |nodes| && cur == nodes[i] && prev == NodeAt(nodes, i - 1)
      modifies this, nodes`next
      ensures nodes == Without(old(nodes), i) && Linked(head, nodes)
    {
      WithoutAt(nodes, i);
      if head == cur {
        head := cur.next;
      } else {
        prev.next := cur.next;
      }
      nodes := Without(nodes, i);
    }

    /** Unlinks a node and frees it. */
    method TakeOut(prev: DeviceNode?, cur: DeviceNode, ghost i: nat)
      requires Valid() && i < |nodes| && cur == nodes[i] && prev == NodeAt(nodes, i - 1)
      modifies this, nodes
      ensures nodes == Without(old(nodes), i) && Valid()
      ensures View() == old(View())[..i] + old(View())[i + 1..]
    {
      ghost var s := nodes;
      WithoutAt(s, i);
      Unlink(prev, cur, i);
      ViewWithout(s, i);
      hide Without;
      assert ViewOf(s) == old(ViewOf(s));
      assert cur !in nodes;
      FreeNode(cur);
    }

    method RemoveDevice(udn: bytes)
      requires Valid()
      modifies this, nodes
      ensures Valid() && View() == Dismissed(old(View()), udn)
      ensures forall n | n in nodes :: n in old(nodes)
    {
      hide Dismissed, Without, Place;
      var cur := head;
      DismissedIs(View(), udn);
      if cur != null {
        if cur.udn == udn {
          PlaceIs(View(), udn, 0);
          WithoutIn(nodes, 0);
          TakeOut(null, cur, 0);
        } else {
          var prev: DeviceNode := cur;
          cur := cur.next;
          ghost var i := 1;
          while cur != null && cur.udn != udn
            invariant 1 <= i <= |nodes| && cur == NodeAt(nodes, i) && prev == nodes[i - 1]
            invariant forall j | 0 <= j < i :: View()[j].udn != udn
            decreases |nodes| - i
          {
            prev := cur;
            cur := cur.next;
            i := i + 1;
          }
          PlaceIs(View(), udn, i);
          if cur != null {
            WithoutIn(nodes, i);
            TakeOut(prev, cur, i);
          }
          assert i >= |old(View())| ==> View() == old(View());
        }
      }
    }

    /** One round of the sweep: the device is counted down, and taken out if its time is up. */
    method Visit(prev: DeviceNode?, cur: DeviceNode, incr: int, ghost k: nat)
      returns (prev': DeviceNode?, cur': DeviceNode?)
      requires Valid() && k < |nodes| && cur == nodes[k] && prev == NodeAt(nodes, k - 1)
      modifies this, nodes
      ensures Valid()
      ensures |old(View())| == |old(nodes)|
      ensures View() == Visited(old(View()), k, old(View())[k].timeout - incr)
      ensures old(View())[k].timeout - incr <= 0 ==>
                nodes == Without(old(nodes), k) && prev' == NodeAt(nodes, k - 1) && cur' == NodeAt(nodes, k)
      ensures old(View())[k].timeout - incr > 0 ==>
                nodes == old(nodes) && prev' == NodeAt(nodes, k) && cur' == NodeAt(nodes, k + 1)
    {
      hide ViewOf;
      ghost var v, t := View(), cur.advrTimeOut - incr;
      ViewAt(nodes, k);
      WithoutAt(nodes, k);
      SetTimeout(cur, cur.advrTimeOut - incr, k);
      UpdateSlices(v, k, Device(cur.udn, t));
      assert View() == v[k := Device(v[k].udn, t)];
      ghost var w := View();
      if cur.advrTimeOut <= 0 {
        TakeOut(prev, cur, k);
        assert View() == w[..k] + w[k + 1..];
        prev' := prev;
        if prev != null {
          cur' := prev.next;
        } else {
          cur' := head;
        }
      } else {
        prev' := cur;
        cur' := cur.next;
      }
    }

    /** The state of the sweep: `k` nodes kept, `i` looked at. */
    ghost predicate Sweeping(s0: seq<Device>, prev: DeviceNode?, cur: DeviceNode?, k: nat, i: nat, incr: int)
      reads this, nodes
    {
      && Valid() && k <= |nodes| && prev == NodeAt(nodes, k - 1) && cur == NodeAt(nodes, k)
      && Midway(s0, View(), k, i, incr)
    }

    method SweepOne(prev: DeviceNode?, cur: DeviceNode, incr: int, ghost s0: seq<Device>, ghost k: nat, ghost i: nat)
      returns (prev': DeviceNode?, cur': DeviceNode?, ghost k': nat)
      requires Sweeping(s0, prev, cur, k, i, incr)
      modifies this, nodes
      ensures Sweeping(s0, prev', cur', k', i + 1, incr) && i < |s0|
      ensures forall j | 0 <= j < |nodes| :: nodes[j] in old(nodes)
    {
      hide Midway, ViewOf, Visited;
      ghost var v := View();
      ViewAt(nodes, k);
      WithoutIn(nodes, k);
      Counted(s0, v, k, i, incr);
      prev', cur' := Visit(prev, cur, incr, k);
      k' := if v[k].timeout - incr <= 0 then k else k + 1;
    }

    /** The sweep deletes nodes from the list while it walks it. */
    method VerifyTimeouts(incr: int)
      requires Valid()
      modifies this, nodes
      ensures Valid() && View() == Swept(old(View()), incr)
      ensures forall n | n in nodes :: n in old(nodes)
    {
      ghost var s0 := old(View());
      var prev: DeviceNode? := null;
      var cur := head;
      ghost var k := 0;
      ghost var i := 0;
      MidwayStart(s0, incr);
      HeadIs(head, nodes);
      hide Midway, ViewOf, Swept, Linked;
      while cur != null
        invariant Sweeping(s0, prev, cur, k, i, incr)
        invariant forall j | 0 <= j < |nodes| :: nodes[j] in old(nodes)
        decreases |s0| - i
      {
        prev, cur, k := SweepOne(prev, cur, incr, s0, k, i);
        i := i + 1;
      }
      ViewAt(nodes, k);
      MidwayEnd(s0, View(), k, i, incr);
    }
  }

  lemma HeadIs(head: DeviceNode?, s: seq<DeviceNode>)
    requires Linked(head, s)
    ensures head == NodeAt(s, 0)
  {
  }

  lemma WithoutIn(s: seq<DeviceNode>, i: nat)
    requires i < |s|
    ensures |Without(s, i)| == |s| - 1 && forall j | 0 <= j < |s| - 1 :: Without(s, i)[j] in s
  {
  }

  lemma UpdateSlices(v: seq<Device>, k: nat, d: Device)
    requires k < |v|
    ensures v[k := d][..k] == v[..k] && v[k := d][k + 1..] == v[k + 1..]
  {
  }

  function Visited(v: seq<Device>, k: nat, t: int): seq<Device>
    requires k < |v|
  {
    if t <= 0 then v[..k] + v[k + 1..] else v[k := Device(v[k].udn, t)]
  }

  /** After `i` devices have been looked at and `k` kept: the kept ones are swept, the others as they were. */
  ghost predicate Midway(s0: seq<Device>, v: seq<Device>, k: nat, i: nat, incr: int) {
    k <= |v| && i <= |s0| && |v| - k == |s0| - i && v[..k] == Swept(s0[..i], incr) && v[k..] == s0[i..]
  }

  lemma MidwayStart(s0: seq<Device>, incr: int)
    ensures Midway(s0, s0, 0, 0, incr)
  {
    assert s0[..0] == [];
  }

  lemma MidwayEnd(s0: seq<Device>, v: seq<Device>, k: nat, i: nat, incr: int)
    requires Midway(s0, v, k, i, incr) && k >= |v|
    ensures v == Swept(s0, incr)
  {
    assert s0[..i] == s0 && v[..k] == v;
  }

  lemma ViewAt(s: seq<DeviceNode>, k: nat)
    ensures |ViewOf(s)| == |s| && (k < |s| ==> ViewOf(s)[k] == Device(s[k].udn, s[k].advrTimeOut))
  {
  }

  /** Counting one device down, and taking it out or keeping it. */
  lemma Counted(s0: seq<Device>, v: seq<Device>, k: nat, i: nat, incr: int)
    requires Midway(s0, v, k, i, incr) && k < |v|
    ensures var t := v[k].timeout - incr;
            i < |s0| && Midway(s0, Visited(v, k, t), if t <= 0 then k else k + 1, i + 1, incr)
  {
    SweptNext(s0, i, incr);
    assert v[k] == v[k..][0] == s0[i..][0];
    var t := v[k].timeout - incr;
    var v' := Visited(v, k, t);
    assert v[k + 1..] == v[k..][1..] == s0[i..][1..] == s0[i + 1..];
    if t <= 0 {
      assert v'[..k] == v[..k] && v'[k..] == v[k + 1..];
    } else {
      assert v'[..k + 1] == v[..k] + [v'[k]] && v'[k + 1..] == v[k + 1..];
    }
  }

  lemma SweptNext(s: seq<Device>, i: nat, incr: int)
    requires i < |s|
    ensures Swept(s[..i + 1], incr)
         == Swept(s[..i], incr) + if s[i].timeout - incr > 0 then [Device(s[i].udn, s[i].timeout - incr)] else []
  {
    assert s[..i + 1][..i] == s[..i];
  }
}
