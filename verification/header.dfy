/** The header that every inner node carries. */
module Headers {
  import opened Bytes

  /** Number of children and compressed prefix of an inner node. Of a prefix
      longer than `PREFIX_LEN` only the first `PREFIX_LEN` bytes are stored. */
  class Header {
    var numChildren: u16
    var prefixLen: u32
    const prefix: array<byte>

    /** The whole compressed prefix that this header stands for. */
    ghost var full: Key

    ghost predicate Valid()
      reads this, prefix
    {
      && prefix.Length == PREFIX_LEN
      && |full| == prefixLen
      && forall i :: 0 <= i < prefixLen && i < PREFIX_LEN ==> prefix[i] == full[i]
    }

    /** `Header::new`: a header for prefix `whole`, given its length and at least
        the bytes of it that can be stored. */
    constructor (bytes: seq<byte>, len: u32, ghost whole: Key)
      requires |whole| == len
      requires Min(len, PREFIX_LEN) <= |bytes| <= len && bytes == whole[..|bytes|]
      ensures Valid() && fresh(prefix)
      ensures full == whole && numChildren == 0
    {
      var stored := Min(|bytes|, PREFIX_LEN);
      numChildren, prefixLen, full := 0, len, whole;
      prefix := new byte[PREFIX_LEN](i => if 0 <= i < stored <= |bytes| then bytes[i] else 0);
    }

    /** The header of a larger or smaller copy of a node. */
    constructor Clone(h: Header)
      requires h.Valid()
      ensures Valid() && fresh(prefix)
      ensures full == h.full && numChildren == h.numChildren
    {
      numChildren, prefixLen, full := h.numChildren, h.prefixLen, h.full;
      prefix := new byte[PREFIX_LEN](i reads h.prefix => if 0 <= i < h.prefix.Length then h.prefix[i] else 0);
    }

    function CappedPrefixLen(): nat
      reads this
    {
      Min(prefixLen, PREFIX_LEN)
    }

    /** The stored part of the prefix. */
    method ReadPrefix() returns (s: seq<byte>)
      requires Valid()
      ensures s == full[..Min(|full|, PREFIX_LEN)]
    {
      s := prefix[..CappedPrefixLen()];
    }

    /** Drops the first `len` bytes of a prefix that is stored whole. */
    method LtrimBy(len: nat)
      requires Valid() && len <= |full| <= PREFIX_LEN
      modifies this, prefix
      ensures Valid() && full == old(full)[len..]
      ensures numChildren == old(numChildren)
    {
      prefixLen := prefixLen - len;
      full := full[len..];
      var begin := len;
      var end := begin + CappedPrefixLen();
      assert begin <= end <= prefix.Length;
      CopyWithin(prefix, begin, end, 0);
    }

    /** Drops the first `len` bytes of a prefix that is not stored whole, with
        the bytes read back from the key of a leaf below the node. */
    method LtrimByWithLeaf(len: nat, depth: nat, leafKey: Key)
      requires Valid() && len <= |full|
      requires depth + |full| <= |leafKey| && leafKey[depth..depth + |full|] == full
      modifies this, prefix
      ensures Valid() && full == old(full)[len..]
      ensures numChildren == old(numChildren)
    {
      prefixLen := prefixLen - len;
      full := full[len..];
      var begin := depth + len;
      var end := begin + CappedPrefixLen();
      assert begin <= end <= |leafKey|;
      forall i | 0 <= i < Min(end - begin, PREFIX_LEN) {
        prefix[i] := leafKey[begin + i];
      }
    }

    /** Empties the prefix; returns the old stored bytes, length and stored length. */
    method ClearPrefix() returns (bytes: seq<byte>, len: nat, cappedLen: nat)
      requires Valid()
      modifies this
      ensures Valid() && full == [] && numChildren == old(numChildren)
      ensures len == |old(full)| && cappedLen == Min(len, PREFIX_LEN) <= |bytes|
      ensures bytes[..cappedLen] == old(full)[..cappedLen]
    {
      len := prefixLen;
      cappedLen := CappedPrefixLen();
      prefixLen, full := 0, [];
      bytes := prefix[..];
    }

    /** Appends prefix `whole` of length `len`, given at least the bytes of it
        that still fit. */
    method PushPrefix(bytes: seq<byte>, len: nat, ghost whole: Key)
      requires Valid() && |whole| == len && |full| + len < KEY_LIMIT
      requires |bytes| <= len && bytes == whole[..|bytes|]
      requires |bytes| < len ==> PREFIX_LEN <= |full| + |bytes|
      modifies this, prefix
      ensures Valid() && full == old(full) + whole
      ensures numChildren == old(numChildren)
    {
      var begin := CappedPrefixLen();
      var end := Min(begin + |bytes|, PREFIX_LEN);
      forall i | begin <= i < end {
        prefix[i] := bytes[i - begin];
      }
      prefixLen := prefixLen + len;
      full := full + whole;
    }

    method IncNumChildren()
      requires numChildren < 256
      modifies this`numChildren
      ensures numChildren == old(numChildren) + 1
    {
      numChildren := numChildren + 1;
    }

    method DecNumChildren()
      requires 0 < numChildren
      modifies this`numChildren
      ensures numChildren == old(numChildren) - 1
    {
      numChildren := numChildren - 1;
    }
  }
}
