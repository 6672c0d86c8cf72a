/** The growable buffer that tokens are read into and documents are printed to. */
module Membuf {
  import opened Bytes

  const SIZE_INC: nat := 20

  function Max(a: nat, b: nat): nat {
    if a > b then a else b
  }

  /** The capacity after making room for `newLength` bytes; the buffer is reallocated exactly if it differs. */
  function NewCapacity(length: nat, capacity: nat, newLength: nat): nat
    requires length <= capacity
  {
    if newLength >= length then
      if newLength <= capacity then capacity else Max(SIZE_INC, newLength - length) + capacity
    else if capacity - newLength <= SIZE_INC then capacity
    else newLength + SIZE_INC
  }

  /**
   There is always room; a longer string never shrinks the buffer,
   and a shorter one leaves at most the increment unused.
   */
  lemma RoomEnough(length: nat, capacity: nat, newLength: nat)
    requires length <= capacity
    ensures newLength <= NewCapacity(length, capacity, newLength)
    ensures newLength >= length ==> capacity <= NewCapacity(length, capacity, newLength)
    ensures newLength < length ==> NewCapacity(length, capacity, newLength) - newLength <= SIZE_INC
    ensures newLength < length ==> NewCapacity(length, capacity, newLength) <= capacity
  {
  }

  /** The capacity after `n` appends of single bytes to an empty buffer. */
  function AppendedCapacity(n: nat): (c: nat)
    ensures n <= c
  {
    if n == 0 then 0 else NewCapacity(n - 1, AppendedCapacity(n - 1), n)
  }

  /** The number of times they reallocate. */
  function Reallocations(n: nat): nat {
    if n == 0 then 0
    else Reallocations(n - 1) + if AppendedCapacity(n) != AppendedCapacity(n - 1) then 1 else 0
  }

  /** One reallocation for every twenty bytes begun. */
  lemma {:induction false} OneInTwenty(n: nat)
    ensures Reallocations(n) == (n + SIZE_INC - 1) / SIZE_INC
    ensures AppendedCapacity(n) == SIZE_INC * Reallocations(n)
  {
    if n > 0 {
      OneInTwenty(n - 1);
    }
  }

  lemma SplicedNothing(c: bytes, i: nat)
    requires i <= |c|
    ensures c[..i] + [] + c[i..] == c
  {
  }

  lemma SplicedIn(b: bytes, c: bytes, s: bytes, i: nat)
    requires i <= |c| && |b| == |c| + |s|
    requires forall k | 0 <= k < i :: b[k] == c[k]
    requires forall k | 0 <= k < |s| :: b[i + k] == s[k]
    requires forall k | i + |s| <= k < |b| :: b[k] == c[k - |s|]
    ensures b == c[..i] + s + c[i..]
  {
  }

  class Buffer {
    var buf: array?<byte>
    var length: nat
    var capacity: nat
    ghost var reallocations: nat

    /** One byte more than the capacity is allocated, and a NUL stands behind the contents. */
    ghost predicate Valid()
      reads this, buf
    {
      && length <= capacity
      && (if buf == null then capacity == 0 else buf.Length == capacity + 1 && buf[length] == 0)
    }

    ghost function Contents(): (s: bytes)
      requires Valid()
      reads this, buf
      ensures |s| == length
    {
      if buf == null then [] else buf[..length]
    }

    constructor ()
      ensures Valid() && Contents() == [] && buf == null && reallocations == 0
    {
      buf, length, capacity, reallocations := null, 0, 0, 0;
    }

    /** realloc: as much of the old block as fits; nothing is known of the rest. */
    method Realloc(size: nat) returns (a: array<byte>)
      ensures fresh(a) && a.Length == size
      ensures forall i | 0 <= i < size && buf != null && i < buf.Length :: a[i] == buf[i]
    {
      a := new byte[size];
      if buf != null {
        forall i | 0 <= i < size && i < buf.Length {
          a[i] := buf[i];
        }
      }
    }

    /** Makes room, and keeps the bytes there are room for; the caller puts the NUL behind what it writes. */
    method SetSize(newLength: nat)
      requires Valid()
      modifies this`buf, this`capacity, this`reallocations
      ensures capacity == NewCapacity(length, old(capacity), newLength)
      ensures if capacity == old(capacity) then buf == old(buf) && reallocations == old(reallocations)
              else fresh(buf) && reallocations == old(reallocations) + 1
      ensures if buf == null then capacity == 0 else buf.Length == capacity + 1
      ensures newLength >= length && buf != null ==> buf[..length] == old(Contents())
      ensures buf != null ==> forall i | 0 <= i < length && i <= capacity :: buf[i] == old(Contents())[i]
    {
      var allocLen;
      if newLength >= length {
        if newLength <= capacity {
          return;
        }
        var diff := newLength - length;
        allocLen := Max(SIZE_INC, diff) + capacity;
      } else {
        if capacity - newLength <= SIZE_INC {
          return;
        }
        allocLen := newLength + SIZE_INC;
      }
      var temp := Realloc(allocLen + 1);
      assert newLength >= length ==> temp[..length] == old(Contents());
      buf := temp;
      capacity := allocLen;
      reallocations := reallocations + 1;
    }

    /** ixml_membuf_destroy */
    method Destroy()
      modifies this
      ensures Valid() && Contents() == [] && buf == null
    {
      buf, length, capacity := null, 0, 0;
    }

    /** Replaces the contents. An empty string needs a block to put its NUL in. */
    method Assign(s: bytes)
      requires Valid() && (s != [] || buf != null)
      modifies this, buf
      ensures Valid() && Contents() == s && buf != null
      ensures capacity == NewCapacity(old(length), old(capacity), |s|)
      ensures buf == old(buf) || fresh(buf)
    {
      RoomEnough(length, capacity, |s|);
      SetSize(|s|);
      forall i | 0 <= i < |s| {
        buf[i] := s[i];
      }
      buf[|s|] := 0;
      length := |s|;
      assert buf[..length] == s;
    }

    /** Inserts a string; an index past the end is refused, an empty string changes nothing. */
    method Insert(s: bytes, index: nat) returns (ok: bool)
      requires Valid()
      modifies this, buf
      ensures Valid() && ok == (index <= old(length))
      ensures Contents() == if ok then old(Contents())[..index] + s + old(Contents())[index..] else old(Contents())
      ensures capacity ==
              if ok && s != [] then NewCapacity(old(length), old(capacity), old(length) + |s|) else old(capacity)
      ensures if ok && s != [] then buf != null else buf == old(buf)
      ensures reallocations == old(reallocations) + if capacity == old(capacity) then 0 else 1
      ensures buf == old(buf) || fresh(buf)
    {
      if index > length {
        return false;
      }
      ghost var c := Contents();
      if s == [] {
        SplicedNothing(c, index);
        return true;
      }
      RoomEnough(length, capacity, length + |s|);
      SetSize(length + |s|);
      Splice(s, index);
      SplicedIn(buf[..length], c, s, index);
      ok := true;
    }

    /** Moves what is behind the index to the right, and copies the string into the gap. */
    method Splice(s: bytes, index: nat)
      requires buf != null && index <= length && length + |s| < buf.Length
      modifies this`length, buf
      ensures length == old(length) + |s| && buf[length] == 0
      ensures forall i | 0 <= i < index :: buf[i] == old(buf[i])
      ensures forall i | 0 <= i < |s| :: buf[index + i] == s[i]
      ensures forall i | index + |s| <= i < length :: buf[i] == old(buf[i - |s|])
    {
      var gap := |s|;
      forall i | index + gap <= i < length + gap {
        buf[i] := buf[i - gap];
      }
      forall i | 0 <= i < |s| {
        buf[index + i] := s[i];
      }
      length := length + |s|;
      buf[length] := 0;
    }

    method AppendStr(s: bytes)
      requires Valid()
      modifies this, buf
      ensures Valid() && Contents() == old(Contents()) + s
      ensures buf == old(buf) || fresh(buf)
    {
      ghost var c := Contents();
      var ok := Insert(s, length);
      assert c[..|c|] + s + c[|c|..] == c + s;
    }

    method Append(b: byte)
      requires Valid()
      modifies this, buf
      ensures Valid() && Contents() == old(Contents()) + [b]
      ensures capacity == NewCapacity(old(length), old(capacity), old(length) + 1)
      ensures reallocations == old(reallocations) + if capacity == old(capacity) then 0 else 1
      ensures buf == old(buf) || fresh(buf)
    {
      ghost var c := Contents();
      var ok := Insert([b], length);
      assert c[..|c|] + [b] + c[|c|..] == c + [b];
    }
  }

  // ----- runs of operations

  datatype Op = Assign(s: bytes) | Insert(s: bytes, index: nat) | Destroy

  /** What a buffer holds, and whether it has a block. */
  datatype Held = Held(contents: bytes, block: bool)

  function After(h: Held, op: Op): Held {
    match op
    case Assign(s) => Held(s, true)
    case Insert(s, i) =>
      if i > |h.contents| || s == [] then h else Held(h.contents[..i] + s + h.contents[i..], true)
    case Destroy => Held([], false)
  }

  function AfterAll(h: Held, ops: seq<Op>): Held
    decreases |ops|
  {
    if ops == [] then h else AfterAll(After(h, ops[0]), ops[1..])
  }

  /** An empty string is assigned only where there is a block. */
  predicate Legal(h: Held, ops: seq<Op>)
    decreases |ops|
  {
    ops != [] ==> (ops[0] == Assign([]) ==> h.block) && Legal(After(h, ops[0]), ops[1..])
  }

  method Perform(m: Buffer, op: Op)
    requires m.Valid() && (op == Assign([]) ==> m.buf != null)
    modifies m, m.buf
    ensures m.Valid() && (m.buf == old(m.buf) || m.buf == null || fresh(m.buf))
    ensures Held(m.Contents(), m.buf != null) == After(old(Held(m.Contents(), m.buf != null)), op)
  {
    match op {
      case Assign(s) => m.Assign(s);
      case Insert(s, i) => var ok := m.Insert(s, i);
      case Destroy => m.Destroy();
    }
  }

  /** Over every run of operations the buffer stays terminated and within its capacity, and holds what they say. */
  method PerformAll(m: Buffer, ops: seq<Op>)
    requires m.Valid() && Legal(Held(m.Contents(), m.buf != null), ops)
    modifies m, m.buf
    ensures m.Valid() && Held(m.Contents(), m.buf != null) == AfterAll(old(Held(m.Contents(), m.buf != null)), ops)
  {
    ghost var h := Held(m.Contents(), m.buf != null);
    var i := 0;
    while i < |ops|
      invariant 0 <= i <= |ops| && m.Valid() && (m.buf == old(m.buf) || m.buf == null || fresh(m.buf))
      invariant Legal(Held(m.Contents(), m.buf != null), ops[i..])
      invariant AfterAll(Held(m.Contents(), m.buf != null), ops[i..]) == AfterAll(h, ops)
    {
      assert ops[i..][0] == ops[i] && ops[i..][1..] == ops[i + 1..];
      Perform(m, ops[i]);
      i := i + 1;
    }
  }

  /** Appending a string byte by byte to a new buffer. */
  method AppendBytes(s: bytes) returns (m: Buffer)
    ensures fresh(m) && m.Valid() && m.Contents() == s
    ensures m.reallocations == (|s| + SIZE_INC - 1) / SIZE_INC
  {
    m := new Buffer();
    var i := 0;
    while i < |s|
      invariant i <= |s| && fresh(m) && m.Valid() && (m.buf == null || fresh(m.buf)) && m.Contents() == s[..i]
      invariant m.capacity == AppendedCapacity(i) && m.reallocations == Reallocations(i)
    {
      m.Append(s[i]);
      assert s[..i] + [s[i]] == s[..i + 1];
      i := i + 1;
    }
    assert s[..i] == s;
    OneInTwenty(|s|);
  }
}
