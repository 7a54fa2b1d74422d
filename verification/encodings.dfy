/** Encodings of numbers, sequences and tuples whose byte order is the order of
    what they encode. */
module Encodings {
  import opened Bytes

  /** The number of values of `n` bytes. */
  function Pow256(n: nat): (p: nat)
    ensures 1 <= p
  {
    if n == 0 then 1 else 256 * Pow256(n - 1)
  }

  /** `to_be_bytes`: the `n` big endian bytes of a number. */
  function ToBeBytes(v: nat, n: nat): (bs: Key)
    ensures |bs| == n
  {
    if n == 0 then [] else ToBeBytes(v / 256, n - 1) + [v % 256]
  }

  /** `from_be_bytes`. */
  function FromBeBytes(bs: Key): nat {
    if bs == [] then 0 else 256 * FromBeBytes(bs[..|bs| - 1]) + bs[|bs| - 1]
  }

  /** Big endian bytes decode to the number that they encode. */
  lemma {:induction false} BeRoundTrip(v: nat, n: nat)
    requires v < Pow256(n)
    ensures FromBeBytes(ToBeBytes(v, n)) == v
  {
    if n > 0 {
      BeRoundTrip(v / 256, n - 1);
      var bs := ToBeBytes(v, n);
      assert bs[..n - 1] == ToBeBytes(v / 256, n - 1);
    }
  }

  lemma {:induction false} FromBeBound(bs: Key)
    ensures FromBeBytes(bs) < Pow256(|bs|)
  {
    if bs != [] {
      FromBeBound(bs[..|bs| - 1]);
    }
  }

  /** Every string of bytes is the code of the number that it decodes to. */
  lemma {:induction false} BeCode(bs: Key)
    ensures ToBeBytes(FromBeBytes(bs), |bs|) == bs
  {
    if bs != [] {
      var n := |bs| - 1;
      BeCode(bs[..n]);
      assert bs == bs[..n] + [bs[n]];
    }
  }

  /** Comparing two strings that begin with parts of the same length: the first
      parts decide, unless they are equal. */
  lemma LexParts(x: Key, xs: Key, y: Key, ys: Key)
    requires |x| == |y|
    ensures LexLess(x + xs, y + ys) <==> LexLess(x, y) || (x == y && LexLess(xs, ys))
  {
    var a, b := x + xs, y + ys;
    assert a[..|x|] == x && a[|x|..] == xs && b[..|y|] == y && b[|y|..] == ys;
    ApartOrPrefix(a, b);
    ApartOrPrefix(x, y);
    ApartOrPrefix(xs, ys);
    if x == y {
      LcpSuffix(a, b, |x|);
      assert a < b <==> xs < ys by {
        assert b == x + ys;
        if a < b {
          assert b[|x|..][..|xs|] == b[|x|..|a|];
        }
      }
    } else {
      ApartExtends(x, y, a, b);
    }
  }

  lemma PrefixParts(x: Key, xs: Key, y: Key, ys: Key)
    requires |x| == |y|
    ensures x + xs <= y + ys <==> x == y && xs <= ys
  {
    var a, b := x + xs, y + ys;
    if a <= b {
      assert x == a[..|x|] == b[..|x|] == y;
      assert xs == a[|x|..] == b[|x|..|a|] == ys[..|xs|];
    }
    if x == y && xs <= ys {
      assert a == b[..|a|];
    }
  }

  /** Byte order of strings of the same length is the order of the numbers. */
  lemma {:induction false} BeOrder(x: Key, y: Key)
    requires |x| == |y|
    ensures LexLess(x, y) <==> FromBeBytes(x) < FromBeBytes(y)
    ensures x == y <==> FromBeBytes(x) == FromBeBytes(y)
    decreases |x|
  {
    if x != [] {
      var n := |x| - 1;
      var x', y', c, d := x[..n], y[..n], x[n], y[n];
      assert x == x' + [c] && y == y' + [d];
      BeOrder(x', y');
      LexParts(x', [c], y', [d]);
      LexByte(c, d);
    }
  }

  lemma LexByte(c: byte, d: byte)
    ensures LexLess([c], [d]) <==> c < d
  {
    if c != d {
      LcpUnique([c], [d], 0);
    }
  }

  /** How an integer of `width` bytes is encoded: unsigned as it is, signed with
      its sign bit flipped. */
  datatype Codec = ToUBE(width: nat) | ToIBE(width: nat) {
    function Half(): int
      requires 1 <= width
      ensures 2 * Half() == Pow256(width)
    {
      128 * Pow256(width - 1)
    }

    /** The values of the integer type. */
    predicate InRange(v: int) {
      && 1 <= width
      && match this
         case ToUBE(w) => 0 <= v < Pow256(w)
         case ToIBE(w) => -Half() <= v < Half()
    }

    /** The cast between signed and unsigned integers. */
    function ToUnsigned(v: int): nat
      requires 1 <= width && -Half() <= v < Half()
    {
      if v < 0 then v + Pow256(width) else v
    }

    function ToSigned(u: nat): int
      requires 1 <= width && u < Pow256(width)
    {
      if u < Half() then u else u - Pow256(width)
    }

    /** Exclusive or with the top bit. */
    function FlipTop(u: nat): nat
      requires 1 <= width && u < Pow256(width)
    {
      if u < Half() then u + Half() else u - Half()
    }

    function ToBytes(v: int): (bs: Key)
      requires InRange(v)
      ensures |bs| == width
    {
      match this
      case ToUBE(w) => ToBeBytes(v, w)
      case ToIBE(w) => ToBeBytes(FlipTop(ToUnsigned(v)), w)
    }

    function FromBytes(bs: Key): (v: int)
      requires 1 <= width == |bs|
      ensures InRange(v)
    {
      FromBeBound(bs);
      match this
      case ToUBE(_) => FromBeBytes(bs)
      case ToIBE(_) => ToSigned(FlipTop(FromBeBytes(bs)))
    }

    /** Flipping the sign bit shifts the signed range to the unsigned range. */
    lemma Shifted(v: int)
      requires ToIBE? && InRange(v)
      ensures FlipTop(ToUnsigned(v)) == v + Half() < Pow256(width)
      ensures ToSigned(FlipTop(v + Half())) == v
    {
    }

    /** The number that the bytes stand for: the value, shifted if it is signed. */
    lemma CodeNumber(v: int)
      requires InRange(v)
      ensures FromBeBytes(ToBytes(v)) == if ToIBE? then v + Half() else v
    {
      if ToIBE? {
        Shifted(v);
        BeRoundTrip(v + Half(), width);
      } else {
        BeRoundTrip(v, width);
      }
    }

    /** An encoded integer decodes to itself. */
    lemma RoundTrip(v: int)
      requires InRange(v)
      ensures FromBytes(ToBytes(v)) == v
    {
      CodeNumber(v);
      if ToIBE? {
        Shifted(v);
      }
    }

    /** Every string of the right width is the code of what it decodes to. */
    lemma Code(bs: Key)
      requires 1 <= width == |bs|
      ensures ToBytes(FromBytes(bs)) == bs
    {
      FromBeBound(bs);
      BeCode(bs);
      if ToIBE? {
        Flipped(FromBeBytes(bs));
      }
    }

    lemma Flipped(u: nat)
      requires 1 <= width && u < Pow256(width)
      ensures FlipTop(ToUnsigned(ToSigned(FlipTop(u)))) == u
    {
    }

    /** Byte order is the order of the integers, and no code is a prefix of another. */
    lemma Ordered(v: int, u: int)
      requires InRange(v) && InRange(u)
      ensures LexLess(ToBytes(v), ToBytes(u)) <==> v < u
      ensures ToBytes(v) <= ToBytes(u) <==> v == u
    {
      hide FromBeBytes, LexLess, Half;
      CodeNumber(v);
      CodeNumber(u);
      BeOrder(ToBytes(v), ToBytes(u));
    }
  }

  /** Element-wise comparison; a proper prefix is less. */
  predicate SeqLess(vs: seq<int>, us: seq<int>) {
    us != [] && (vs == [] || vs[0] < us[0] || (vs[0] == us[0] && SeqLess(vs[1..], us[1..])))
  }

  predicate AllInRange(c: Codec, vs: seq<int>) {
    1 <= c.width && forall i :: 0 <= i < |vs| ==> c.InRange(vs[i])
  }

  /** The concatenated codes of the elements of an array or a vector. */
  function EncodeSeq(c: Codec, vs: seq<int>): (bs: Key)
    requires AllInRange(c, vs)
  {
    if vs == [] then [] else c.ToBytes(vs[0]) + EncodeSeq(c, vs[1..])
  }

  /** Byte order of the codes is element-wise order, for any lengths; codes of arrays
      of one length are not prefixes of one another. */
  lemma {:induction false} SeqOrdered(c: Codec, vs: seq<int>, us: seq<int>)
    requires AllInRange(c, vs) && AllInRange(c, us)
    ensures LexLess(EncodeSeq(c, vs), EncodeSeq(c, us)) <==> SeqLess(vs, us)
    ensures |vs| == |us| ==> (EncodeSeq(c, vs) <= EncodeSeq(c, us) <==> vs == us)
    decreases |vs|
  {
    if us == [] {
      assert EncodeSeq(c, us) == [];
    } else if vs == [] {
      assert EncodeSeq(c, us) != [];
    } else {
      c.Ordered(vs[0], us[0]);
      SeqOrdered(c, vs[1..], us[1..]);
      LexParts(c.ToBytes(vs[0]), EncodeSeq(c, vs[1..]), c.ToBytes(us[0]), EncodeSeq(c, us[1..]));
      PrefixParts(c.ToBytes(vs[0]), EncodeSeq(c, vs[1..]), c.ToBytes(us[0]), EncodeSeq(c, us[1..]));
      assert vs == [vs[0]] + vs[1..] && us == [us[0]] + us[1..];
    }
  }

  lemma {:induction false} EncodeAppend(c: Codec, vs: seq<int>, v: int)
    requires AllInRange(c, vs) && c.InRange(v)
    ensures AllInRange(c, vs + [v]) && EncodeSeq(c, vs + [v]) == EncodeSeq(c, vs) + c.ToBytes(v)
  {
    var us := vs + [v];
    assert forall i :: 0 <= i < |us| ==> us[i] == if i < |vs| then vs[i] else v;
    if vs == [] {
      assert us[1..] == [] && EncodeSeq(c, us[1..]) == [];
    } else {
      hide Codec.InRange, Codec.ToBytes;
      EncodeAppend(c, vs[1..], v);
      assert us[1..] == vs[1..] + [v];
      assert us[0] == vs[0];
    }
  }

  /** `to_bytes` of an array or a vector. */
  method ToBytes(c: Codec, values: seq<int>) returns (bytes: Key)
    requires AllInRange(c, values)
    ensures bytes == EncodeSeq(c, values)
  {
    bytes := [];
    var i := 0;
    while i < |values|
      invariant i <= |values| && AllInRange(c, values[..i]) && bytes == EncodeSeq(c, values[..i])
    {
      EncodeAppend(c, values[..i], values[i]);
      assert values[..i + 1] == values[..i] + [values[i]];
      bytes := bytes + c.ToBytes(values[i]);
      i := i + 1;
    }
    assert values[..|values|] == values;
  }

  /** The elements whose codes are the chunks of a byte string; a rest that is no
      whole chunk is dropped. */
  function DecodeSeq(c: Codec, bytes: Key): (vs: seq<int>)
    requires 1 <= c.width
    ensures AllInRange(c, vs)
    decreases |bytes|
  {
    if |bytes| < c.width then [] else [c.FromBytes(bytes[..c.width])] + DecodeSeq(c, bytes[c.width..])
  }

  /** An encoded array or vector decodes to itself. */
  lemma {:induction false} SeqRoundTrip(c: Codec, vs: seq<int>)
    requires AllInRange(c, vs)
    ensures DecodeSeq(c, EncodeSeq(c, vs)) == vs
  {
    if vs != [] {
      SeqRoundTrip(c, vs[1..]);
      c.RoundTrip(vs[0]);
      var bs := EncodeSeq(c, vs);
      assert bs[..c.width] == c.ToBytes(vs[0]) && bs[c.width..] == EncodeSeq(c, vs[1..]);
    }
  }

  /** Any byte string decodes to a vector whose code is the string without the rest
      that is no whole element. */
  lemma {:induction false} SeqCode(c: Codec, bytes: Key)
    requires 1 <= c.width
    ensures EncodeSeq(c, DecodeSeq(c, bytes)) <= bytes
    ensures |bytes| - |EncodeSeq(c, DecodeSeq(c, bytes))| < c.width
    decreases |bytes|
  {
    hide Codec.ToBytes, Codec.FromBytes, Codec.InRange;
    if c.width <= |bytes| {
      SeqCode(c, bytes[c.width..]);
      c.Code(bytes[..c.width]);
      assert DecodeSeq(c, bytes)[1..] == DecodeSeq(c, bytes[c.width..]);
      assert bytes == bytes[..c.width] + bytes[c.width..];
    }
  }

  /** Decoding takes off one chunk after the other. */
  lemma DecodeNext(c: Codec, bytes: Key, begin: nat, decoded: seq<int>)
    requires 1 <= c.width && begin + c.width <= |bytes|
    requires decoded + DecodeSeq(c, bytes[begin..]) == DecodeSeq(c, bytes)
    ensures var v := c.FromBytes(bytes[begin..begin + c.width]);
      decoded + [v] + DecodeSeq(c, bytes[begin + c.width..]) == DecodeSeq(c, bytes)
  {
    hide Codec.FromBytes;
    var rest, v := bytes[begin..], c.FromBytes(bytes[begin..begin + c.width]);
    assert rest[..c.width] == bytes[begin..begin + c.width] && rest[c.width..] == bytes[begin + c.width..];
    assert DecodeSeq(c, rest) == [v] + DecodeSeq(c, bytes[begin + c.width..]);
  }

  lemma DecodeNone(c: Codec, bytes: Key)
    requires 1 <= c.width && |bytes| < c.width
    ensures DecodeSeq(c, bytes) == []
  {
  }

  /** How many whole elements `n` bytes hold, and where an element begins. */
  function NumElements(n: nat, width: nat): nat
    requires 1 <= width
  {
    n / width
  }

  function Begin(i: nat, width: nat): nat {
    i * width
  }

  lemma ElementFits(n: nat, width: nat, i: nat)
    requires 1 <= width && i < NumElements(n, width)
    ensures Begin(i + 1, width) == Begin(i, width) + width <= n
  {
    assert (i + 1) * width <= n / width * width;
  }

  lemma NothingLeft(n: nat, width: nat)
    requires 1 <= width
    ensures Begin(0, width) == 0 && Begin(NumElements(n, width), width) <= n
    ensures n - Begin(NumElements(n, width), width) < width
  {
  }

  /** `from_bytes` of a vector, from any byte string. */
  method FromBytes(c: Codec, bytes: Key) returns (decoded: seq<int>)
    requires 1 <= c.width
    ensures decoded == DecodeSeq(c, bytes)
  {
    hide DecodeSeq, Codec.FromBytes, Codec.InRange, NumElements, Begin;
    var numElements := NumElements(|bytes|, c.width);
    NothingLeft(|bytes|, c.width);
    decoded := [];
    var i := 0;
    while i < numElements
      invariant i <= numElements && Begin(i, c.width) <= |bytes|
      invariant decoded + DecodeSeq(c, bytes[Begin(i, c.width)..]) == DecodeSeq(c, bytes)
    {
      ElementFits(|bytes|, c.width, i);
      DecodeNext(c, bytes, Begin(i, c.width), decoded);
      var chunk := bytes[Begin(i, c.width)..Begin(i + 1, c.width)];
      decoded := decoded + [c.FromBytes(chunk)];
      i := i + 1;
    }
    DecodeNone(c, bytes[Begin(i, c.width)..]);
  }

  /** How a tuple element is encoded: with a fixed number of bytes. `T` holds the
      values of all elements of the tuple. */
  datatype Mapping<!T> = Mapping(width: nat, valid: T -> bool, encode: T -> Key, decode: Key -> T, less: (T, T) -> bool)

  ghost predicate Embeds<T>(m: Mapping<T>, x: T, y: T) {
    && |m.encode(x)| == m.width && m.decode(m.encode(x)) == x
    && (LexLess(m.encode(x), m.encode(y)) <==> m.less(x, y))
  }

  /** What the source asks of the mapping of an element. */
  ghost predicate Lawful<T(!new)>(m: Mapping<T>) {
    forall x, y {:trigger Embeds(m, x, y)} :: m.valid(x) && m.valid(y) ==> Embeds(m, x, y)
  }

  ghost predicate AllLawful<T(!new)>(ms: seq<Mapping<T>>) {
    forall i :: 0 <= i < |ms| ==> Lawful(ms[i])
  }

  /** The mapping of an integer type. */
  function Integers(c: Codec): Mapping<int> {
    Mapping(c.width, v => c.InRange(v), v => if c.InRange(v) then c.ToBytes(v) else [],
            bs => if 1 <= c.width == |bs| then c.FromBytes(bs) else 0, (v, u) => v < u)
  }

  /** The integer encodings meet it. */
  lemma IntegersLawful(c: Codec)
    ensures Lawful(Integers(c))
  {
    forall v, u | c.InRange(v) && c.InRange(u) ensures Embeds(Integers(c), v, u) {
      c.RoundTrip(v);
      c.Ordered(v, u);
    }
  }

  predicate TupleValid<T>(ms: seq<Mapping<T>>, vs: seq<T>) {
    |ms| == |vs| && forall i :: 0 <= i < |ms| ==> ms[i].valid(vs[i])
  }

  /** `ConcatTuple`: the concatenated codes of the elements. */
  function EncodeTuple<T>(ms: seq<Mapping<T>>, vs: seq<T>): (bs: Key)
    requires |ms| == |vs|
  {
    if ms == [] then [] else ms[0].encode(vs[0]) + EncodeTuple(ms[1..], vs[1..])
  }

  /** Lexicographic order of tuples. */
  ghost predicate TupleLess<T>(ms: seq<Mapping<T>>, vs: seq<T>, us: seq<T>)
    requires |ms| == |vs| == |us|
  {
    ms != [] && (ms[0].less(vs[0], us[0]) || (vs[0] == us[0] && TupleLess(ms[1..], vs[1..], us[1..])))
  }

  /** Byte order of tuples is lexicographic order of their elements, and no code of
      a tuple is a prefix of another. */
  lemma {:induction false} TupleOrdered<T(!new)>(ms: seq<Mapping<T>>, vs: seq<T>, us: seq<T>)
    requires AllLawful(ms) && TupleValid(ms, vs) && TupleValid(ms, us)
    ensures LexLess(EncodeTuple(ms, vs), EncodeTuple(ms, us)) <==> TupleLess(ms, vs, us)
    ensures EncodeTuple(ms, vs) <= EncodeTuple(ms, us) <==> vs == us
    decreases |ms|
  {
    if ms != [] {
      hide LexLess;
      var x, y := ms[0].encode(vs[0]), ms[0].encode(us[0]);
      var xs, ys := EncodeTuple(ms[1..], vs[1..]), EncodeTuple(ms[1..], us[1..]);
      assert Embeds(ms[0], vs[0], us[0]) && Embeds(ms[0], us[0], vs[0]);
      TupleOrdered(ms[1..], vs[1..], us[1..]);
      LexParts(x, xs, y, ys);
      PrefixParts(x, xs, y, ys);
      assert vs == [vs[0]] + vs[1..] && us == [us[0]] + us[1..];
    }
  }

  lemma NextPart<T(!new)>(ms: seq<Mapping<T>>, vs: seq<T>)
    requires AllLawful(ms) && TupleValid(ms, vs) && ms != []
    ensures AllLawful(ms[1..]) && TupleValid(ms[1..], vs[1..])
    ensures ms[0].width <= |EncodeTuple(ms, vs)|
    ensures ms[0].decode(EncodeTuple(ms, vs)[..ms[0].width]) == vs[0]
    ensures EncodeTuple(ms, vs)[ms[0].width..] == EncodeTuple(ms[1..], vs[1..])
  {
    assert Embeds(ms[0], vs[0], vs[0]);
    var code, rest := ms[0].encode(vs[0]), EncodeTuple(ms[1..], vs[1..]);
    assert (code + rest)[..|code|] == code && (code + rest)[|code|..] == rest;
  }

  /** `from_bytes` of a tuple: takes off one chunk after the other; an encoded tuple
      decodes to itself, and no bytes remain. */
  method FromTupleBytes<T(!new)>(ms: seq<Mapping<T>>, bytes: Key, ghost values: seq<T>)
    returns (decoded: seq<T>, remaining: Key)
    requires AllLawful(ms) && TupleValid(ms, values) && bytes == EncodeTuple(ms, values)
    ensures decoded == values && remaining == []
  {
    remaining := bytes;
    decoded := [];
    var i := 0;
    while i < |ms|
      invariant i <= |ms| == |values| && AllLawful(ms[i..]) && TupleValid(ms[i..], values[i..])
      invariant remaining == EncodeTuple(ms[i..], values[i..]) && decoded == values[..i]
    {
      NextPart(ms[i..], values[i..]);
      assert ms[i..][1..] == ms[i + 1..] && values[i..][1..] == values[i + 1..];
      var (chunk, rest) := (remaining[..ms[i].width], remaining[ms[i].width..]);
      decoded, remaining := decoded + [ms[i].decode(chunk)], rest;
      i := i + 1;
    }
  }
}
