/** Byte strings: common prefixes, branching and lexicographic order. */
module Bytes {

  /** One byte of a key. */
  type byte = x: int | 0 <= x < 256

  /** Key lengths stay below this bound, so that a `u32` can hold the length of
      any compressed prefix. */
  const KEY_LIMIT: nat := 0x1_0000_0000

  type u32 = x: int | 0 <= x < 0x1_0000_0000
  type u16 = x: int | 0 <= x < 0x1_0000

  /** How many bytes of a compressed prefix a node header can store. */
  const PREFIX_LEN: nat

  /** A key as the map sees it: the bytes of its `AsBytes` view. */
  type Key = seq<byte>

  /** Length of the longest common prefix. */
  function Lcp(a: Key, b: Key): (n: nat)
    ensures n <= |a| && n <= |b|
    ensures a[..n] == b[..n]
    ensures forall i :: 0 <= i < n ==> a[i] == b[i]
    ensures n < |a| && n < |b| ==> a[n] != b[n]
  {
    if a == [] || b == [] || a[0] != b[0] then 0
    else 1 + Lcp(a[1..], b[1..])
  }

  /** The two strings branch: neither is a prefix of the other. */
  predicate Apart(a: Key, b: Key) {
    Lcp(a, b) < |a| && Lcp(a, b) < |b|
  }

  /** The two strings branch, and `a` takes the smaller byte. */
  predicate Before(a: Key, b: Key) {
    Apart(a, b) && a[Lcp(a, b)] < b[Lcp(a, b)]
  }

  /** The lexicographic order on byte strings: the smaller byte at the first
      difference, or a proper prefix. */
  predicate LexLess(a: Key, b: Key) {
    Before(a, b) || a < b
  }

  /** Any position where two strings agree so far and then differ is the length
      of their longest common prefix. */
  lemma LcpUnique(a: Key, b: Key, n: nat)
    requires n < |a| && n < |b|
    requires a[..n] == b[..n] && a[n] != b[n]
    ensures Lcp(a, b) == n
  {
    assert forall i :: 0 <= i < n ==> a[i] == a[..n][i] == b[..n][i] == b[i];
  }

  /** Common prefixes can be compared piece by piece. */
  lemma {:induction false} LcpSuffix(a: Key, b: Key, d: nat)
    requires d <= |a| && d <= |b| && a[..d] == b[..d]
    ensures Lcp(a, b) == d + Lcp(a[d..], b[d..])
  {
    if d == 0 {
      assert a[0..] == a && b[0..] == b;
    } else {
      var a', b' := a[1..], b[1..];
      assert a[0] == a[..d][0] == b[..d][0] == b[0];
      assert a'[..d - 1] == a[..d][1..] && b'[..d - 1] == b[..d][1..];
      LcpSuffix(a', b', d - 1);
      assert a'[d - 1..] == a[d..] && b'[d - 1..] == b[d..];
    }
  }

  lemma LcpPrefix(a: Key, b: Key)
    ensures a <= b <==> Lcp(a, b) == |a|
    ensures b <= a <==> Lcp(a, b) == |b|
  {
    var n := Lcp(a, b);
    assert n == |a| ==> a == a[..n];
    assert n == |b| ==> b == b[..n];
  }

  /** Extending branched strings does not move the point where they branch. */
  lemma ApartExtends(a: Key, b: Key, x: Key, y: Key)
    requires a <= x && b <= y
    requires Apart(a, b)
    ensures Apart(x, y) && Lcp(x, y) == Lcp(a, b)
    ensures Before(a, b) <==> Before(x, y)
  {
    var n := Lcp(a, b);
    assert x[..n] == a[..n] == b[..n] == y[..n];
    LcpUnique(x, y, n);
  }

  lemma LcpSymmetric(a: Key, b: Key)
    ensures Lcp(a, b) == Lcp(b, a)
    ensures Apart(a, b) <==> Apart(b, a)
    ensures Apart(a, b) ==> (Before(a, b) <==> !Before(b, a))
  {
    assert Lcp(a, b) == Lcp(b, a);
  }

  /** Either two strings branch or one is a prefix of the other. */
  lemma ApartOrPrefix(a: Key, b: Key)
    ensures Apart(a, b) <==> !(a <= b) && !(b <= a)
  {
    var n := Lcp(a, b);
    assert n == |a| ==> a == a[..n];
    assert n == |b| ==> b == b[..n];
  }

  function Min(a: int, b: int): int {
    if a <= b then a else b
  }

  datatype Option<+T> = None | Some(value: T)

  lemma RemoveSize<K, C>(m: map<K, C>, b: K)
    requires b in m
    ensures |m - {b}| == |m| - 1
  {
    assert m == (m - {b})[b := m[b]];
  }

  /** Moves `a[begin..end]` to `dest`, as if through a temporary copy. */
  method CopyWithin<T>(a: array<T>, begin: nat, end: nat, dest: nat)
    requires begin <= end <= a.Length && dest + (end - begin) <= a.Length
    modifies a
    ensures forall i :: 0 <= i < a.Length ==>
      a[i] == if dest <= i < dest + (end - begin) then old(a[begin + (i - dest)]) else old(a[i])
  {
    forall i | dest <= i < dest + (end - begin) {
      a[i] := a[begin + (i - dest)];
    }
  }

  lemma Inserted<T>(before: seq<T>, after: seq<T>, at: nat, n: nat, x: T)
    requires at <= n < |before| == |after| && after[at] == x
    requires forall i :: 0 <= i < at ==> after[i] == before[i]
    requires forall i :: at < i <= n ==> after[i] == before[i - 1]
    ensures after[..n + 1] == before[..at] + [x] + before[at..n]
  {
  }

  lemma TakenOut<T>(before: seq<T>, after: seq<T>, at: nat, n: nat)
    requires at < n <= |before| == |after|
    requires forall i :: 0 <= i < at ==> after[i] == before[i]
    requires forall i :: at <= i < n - 1 ==> after[i] == before[i + 1]
    ensures after[..n - 1] == before[..at] + before[at + 1..n]
  {
  }

  /** Moves `a[at..n]` up by one and writes `x` at `at`. */
  method InsertAt<T>(a: array<T>, at: nat, n: nat, x: T)
    requires at <= n < a.Length
    modifies a
    ensures a[..n + 1] == old(a[..at]) + [x] + old(a[at..n])
  {
    ghost var before := a[..];
    assert before[..at] == a[..at] && before[at..n] == a[at..n];
    CopyWithin(a, at, n, at + 1);
    a[at] := x;
    Inserted(before, a[..], at, n, x);
    assert a[..][..n + 1] == a[..n + 1];
  }

  /** Moves `a[at + 1..n]` down by one, over `a[at]`. */
  method TakeOut<T>(a: array<T>, at: nat, n: nat)
    requires at < n <= a.Length
    modifies a
    ensures a[..n - 1] == old(a[..at]) + old(a[at + 1..n])
  {
    ghost var before := a[..];
    assert before[..at] == a[..at] && before[at + 1..n] == a[at + 1..n];
    CopyWithin(a, at + 1, n, at);
    TakenOut(before, a[..], at, n);
    assert a[..][..n - 1] == a[..n - 1];
  }
}
