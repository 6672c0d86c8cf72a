/** Byte strings and the C-string primitives the IXML sources are written with. */
module Bytes {

  type byte = x: int | 0 <= x < 256
  type bytes = seq<byte>

  datatype Option<+T> = None | Some(value: T)

  /** The byte a `char *` at offset `p` reads; the terminating NUL follows the last byte. */
  function At(d: bytes, p: nat): byte {
    if p < |d| then d[p] else 0
  }

  /** A C string never holds its own terminator. */
  predicate NoNul(d: bytes) {
    forall i | 0 <= i < |d| :: d[i] != 0
  }

  /** strncmp(d + p, x, strlen(x)) == 0 */
  predicate Looking(d: bytes, p: nat, x: bytes) {
    p + |x| <= |d| && d[p..p + |x|] == x
  }

  function Lower(b: byte): byte {
    if 65 <= b <= 90 then b + 32 else b
  }

  /** strncasecmp(d + p, x, strlen(x)) == 0 */
  predicate LookingNoCase(d: bytes, p: nat, x: bytes) {
    p + |x| <= |d| && forall i | 0 <= i < |x| :: Lower(d[p + i]) == Lower(x[i])
  }

  /** strstr(d + p, key), as the first offset at which the key occurs. */
  function Find(d: bytes, p: nat, key: bytes): (r: Option<nat>)
    ensures r.Some? ==> p <= r.value && Looking(d, r.value, key)
    ensures r.Some? ==> forall q: nat | p <= q < r.value :: !Looking(d, q, key)
    ensures r.None? ==> forall q: nat | p <= q :: !Looking(d, q, key)
    decreases |d| - p
  {
    if Looking(d, p, key) then Some(p)
    else if p < |d| then Find(d, p + 1, key)
    else None
  }

  lemma LookingConcat(d: bytes, p: nat, a: bytes, b: bytes)
    ensures Looking(d, p, a + b) <==> Looking(d, p, a) && Looking(d, p + |a|, b)
  {
    if p + |a| + |b| <= |d| {
      var w := d[p..p + |a + b|];
      assert w[..|a|] == d[p..p + |a|];
      assert w[|a|..] == d[p + |a|..p + |a| + |b|];
      assert w == w[..|a|] + w[|a|..];
    }
  }

  /** What looking at a string says about each byte read. */
  lemma LookingAt(d: bytes, p: nat, x: bytes, i: nat)
    requires Looking(d, p, x) && i < |x|
    ensures At(d, p + i) == x[i]
  {
    assert d[p..p + |x|][i] == d[p + i];
  }

  lemma LookingNo(d: bytes, p: nat, x: bytes, i: nat)
    requires i < |x| && At(d, p + i) != x[i]
    ensures !Looking(d, p, x)
  {
    if Looking(d, p, x) {
      LookingAt(d, p, x, i);
    }
  }

  lemma LookingNoCaseNo(d: bytes, p: nat, x: bytes, i: nat)
    requires i < |x| && Lower(At(d, p + i)) != Lower(x[i])
    ensures !LookingNoCase(d, p, x)
  {
  }

  // ----- sequences

  lemma Assoc<T>(a: seq<T>, b: seq<T>, c: seq<T>)
    ensures a + b + c == a + (b + c)
  {
  }

  /** The first element of a concatenation, and the rest. */
  lemma ConcatFirst<T>(a: seq<T>, b: seq<T>)
    requires a != []
    ensures (a + b)[0] == a[0] && (a + b)[1..] == a[1..] + b
  {
  }

  lemma ConcatNone<T>(a: seq<T>)
    ensures [] + a == a && a + [] == a
  {
  }
}
