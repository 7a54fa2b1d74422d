/** Searching the tree: least and greatest leaf, full prefixes, and lookup. */
module Lookup {
  import opened Bytes
  import opened Tries
  import opened Nodes
  import opened Shapes

  /** Leaf `y` is at or below node `x` and stored in `leaf`. */
  ghost predicate LeafBelow(s: Shape, x: Key, y: Key, leaf: LeafNode)
    reads s.repr
  {
    StoredAt(s, y, LeafPtr(leaf)) && s.t[y].Leaf? && x <= y
  }

  /** No leaf at or below `x` comes before (after) the leaves at or below `y`. */
  ghost predicate LeastBelow(t: Trie, x: Key, y: Key) {
    forall z {:trigger Before(y, z)} | z in t && t[z].Leaf? && x <= z :: y <= z || Before(y, z)
  }

  ghost predicate GreatestBelow(t: Trie, x: Key, y: Key) {
    forall z {:trigger Before(z, y)} | z in t && t[z].Leaf? && x <= z :: y <= z || Before(z, y)
  }

  lemma LeastStep(t: Trie, r: Key, x: Key, y: Key, b: byte)
    requires WF(t, r) && y in t && t[y].Inner? && b in t[y].kids
    requires LeastBelow(t, x, y) && forall d :: d in t[y].kids ==> b <= d
    ensures LeastBelow(t, x, t[y].kids[b])
  {
    var c := t[y].kids[b];
    assert KidOk(t, y, b);
    forall z | z in t && t[z].Leaf? && x <= z ensures c <= z || Before(c, z) {
      if Before(y, z) {
        ApartExtends(y, z, c, z);
      } else {
        Relate(t, r, y, z);
        BelowOrApart(t, y, z);
        if z[|y|] != b {
          LcpUnique(c, z, |y|);
        }
      }
    }
  }

  lemma GreatestStep(t: Trie, r: Key, x: Key, y: Key, b: byte)
    requires WF(t, r) && y in t && t[y].Inner? && b in t[y].kids
    requires GreatestBelow(t, x, y) && forall d :: d in t[y].kids ==> d <= b
    ensures GreatestBelow(t, x, t[y].kids[b])
  {
    var c := t[y].kids[b];
    assert KidOk(t, y, b);
    forall z | z in t && t[z].Leaf? && x <= z ensures c <= z || Before(z, c) {
      if Before(z, y) {
        ApartExtends(z, y, z, c);
      } else {
        Relate(t, r, y, z);
        BelowOrApart(t, y, z);
        if z[|y|] != b {
          LcpUnique(z, c, |y|);
        }
      }
    }
  }

  /** `minimum_unchecked`: the leaf with the least key below a node. */
  method Minimum(ghost s: Shape, ghost x: Key, p: NodePtr) returns (leaf: LeafNode, ghost y: Key)
    requires StoredAt(s, x, p)
    ensures LeafBelow(s, x, y, leaf) && LeastBelow(s.t, x, y)
  {
    var cur := p;
    y := x;
    while !cur.LeafPtr?
      invariant StoredAt(s, y, cur) && x <= y && LeastBelow(s.t, x, y)
      decreases KEY_LIMIT - |y|
    {
      Stored(s, y, cur);
      var b, c := cur.Min();
      StoredKid(s, y, cur, b);
      LeastStep(s.t, s.r, x, y, b);
      cur, y := c, s.t[y].kids[b];
    }
    Stored(s, y, cur);
    return cur.leaf, y;
  }

  /** `maximum_unchecked`: the leaf with the greatest key below a node. */
  method Maximum(ghost s: Shape, ghost x: Key, p: NodePtr) returns (leaf: LeafNode, ghost y: Key)
    requires StoredAt(s, x, p)
    ensures LeafBelow(s, x, y, leaf) && GreatestBelow(s.t, x, y)
  {
    var cur := p;
    y := x;
    while !cur.LeafPtr?
      invariant StoredAt(s, y, cur) && x <= y && GreatestBelow(s.t, x, y)
      decreases KEY_LIMIT - |y|
    {
      Stored(s, y, cur);
      var b, c := cur.Max();
      StoredKid(s, y, cur, b);
      GreatestStep(s.t, s.r, x, y, b);
      cur, y := c, s.t[y].kids[b];
    }
    Stored(s, y, cur);
    return cur.leaf, y;
  }

  /** Where a key leaves the prefix of a node. `leaf` is set if the prefix had to
      be read back from a leaf. */
  datatype Mismatch = Mismatch(matchedBytes: nat, prefixByte: byte, leaf: Option<LeafNode>)

  datatype MatchPrefixResult = Mismatched(mismatch: Mismatch) | Matched(matchedBytes: nat)

  /** The search for `key` has reached node `x` with all bytes so far matching. */
  ghost predicate Reached(s: Shape, x: Key, p: NodePtr, key: Key, depth: nat)
    reads s.repr
  {
    StoredAt(s, x, p) && s.t[x].start == depth <= |key| && NodeOk(s.t, x) && key[..depth] == x[..depth]
  }

  /** If the key is stored, it is stored at or below the node reached. */
  lemma StoredBelow(t: Trie, r: Key, x: Key, key: Key)
    requires WF(t, r) && x in t && key in t && t[key].Leaf? && NodeOk(t, x)
    requires t[x].start <= |key| && key[..t[x].start] == x[..t[x].start]
    ensures x == key || Below(t, x, key)
  {
    Relate(t, r, x, key);
    if Beside(t, x, key) {
      ApartExtends(x[..t[x].start], key[..t[key].start], x[..t[x].start], key);
      ApartOrPrefix(x[..t[x].start], key);
    }
  }

  /** `inner_read_full_prefix`: the whole compressed prefix of a node, read back
      from the least leaf below it if the header does not hold all of it. */
  method ReadFullPrefix(ghost s: Shape, ghost x: Key, p: NodePtr, depth: nat)
    returns (prefix: seq<byte>, leaf: Option<LeafNode>, ghost y: Key)
    requires StoredAt(s, x, p) && !p.LeafPtr? && s.t[x].start == depth
    ensures depth <= |x| && prefix == x[depth..]
    ensures leaf.Some? <==> PREFIX_LEN < |prefix|
    ensures leaf.Some? ==> LeafBelow(s, x, y, leaf.value)
  {
    hide Shape.Valid, NodePtr.Valid;
    Stored(s, x, p);
    p.ValidFacts();
    var len := p.Header().prefixLen;
    if len <= PREFIX_LEN {
      prefix := p.Header().ReadPrefix();
      return prefix, None, x;
    }
    var b, c := p.Min();
    StoredKid(s, x, p, b);
    var l;
    l, y := Minimum(s, s.t[x].kids[b], c);
    Stored(s, y, LeafPtr(l));
    assert depth + len <= |l.key|;
    return l.key[depth..depth + len], Some(l), y;
  }

  /** How many bytes at the front of both strings are equal. */
  method CountEqual(a: Key, b: Key) returns (n: nat)
    ensures n == Lcp(a, b)
  {
    n := 0;
    while n < |a| && n < |b| && a[n] == b[n]
      invariant n <= |a| && n <= |b| && a[..n] == b[..n]
    {
      n := n + 1;
    }
    if n < |a| && n < |b| {
      LcpUnique(a, b, n);
    }
  }

  /** `match_prefix`: compares the compressed prefix of a node with the key. */
  method MatchPrefix(ghost s: Shape, ghost x: Key, p: NodePtr, key: Key, depth: nat)
    returns (m: MatchPrefixResult, ghost y: Key)
    requires Reached(s, x, p, key, depth) && !p.LeafPtr?
    ensures m.Matched? ==> x <= key && m.matchedBytes == |x| - depth
    ensures m.Mismatched? ==> depth + m.mismatch.matchedBytes == Lcp(x, key) < |x| && !(x <= key)
    ensures m.Mismatched? ==> m.mismatch.prefixByte == x[depth + m.mismatch.matchedBytes]
    ensures m.Mismatched? ==> (m.mismatch.leaf.Some? <==> PREFIX_LEN < |x| - depth)
    ensures m.Mismatched? && m.mismatch.leaf.Some? ==> LeafBelow(s, x, y, m.mismatch.leaf.value)
  {
    var prefix, leaf;
    prefix, leaf, y := ReadFullPrefix(s, x, p, depth);
    var n := CountEqual(prefix, key[depth..]);
    LcpSuffix(x, key, depth);
    LcpPrefix(x, key);
    if n < |prefix| {
      return Mismatched(Mismatch(n, prefix[n], leaf)), y;
    }
    return Matched(n), y;
  }

  lemma ReachedKid(s: Shape, x: Key, p: NodePtr, key: Key)
    requires StoredAt(s, x, p) && s.t[x].Inner? && x < key && key[|x|] in s.t[x].kids
    ensures !p.LeafPtr? && key[|x|] in p.Kids()
    ensures Reached(s, s.t[x].kids[key[|x|]], p.Kids()[key[|x|]], key, |x| + 1)
    ensures |x| < |s.t[x].kids[key[|x|]]| < KEY_LIMIT
  {
    StoredKid(s, x, p, key[|x|]);
    Stored(s, s.t[x].kids[key[|x|]], p.Kids()[key[|x|]]);
  }

  /** `check_prefix_lookup_child`: the child that the key leads to, and the depth
      at which it begins; none if the key is not in the tree. */
  method CheckPrefixLookupChild(ghost s: Shape, ghost x: Key, p: NodePtr, key: Key, depth: nat)
    returns (child: Option<NodePtr>, newDepth: nat, ghost y: Key)
    requires Reached(s, x, p, key, depth) && !p.LeafPtr?
    ensures s.t[x].Inner? && (child.Some? <==> x < key && key[|x|] in s.t[x].kids)
    ensures child.Some? ==> y == s.t[x].kids[key[|x|]] && newDepth == |x| + 1 && |x| < |y| < KEY_LIMIT
    ensures child.Some? ==> Reached(s, y, child.value, key, newDepth)
  {
    hide Shape.Valid, NodePtr.Valid;
    Stored(s, x, p);
    var m, _ := MatchPrefix(s, x, p, key, depth);
    y := x;
    if m.Mismatched? {
      return None, depth, y;
    }
    newDepth := depth + m.matchedBytes;
    if |key| <= newDepth {
      return None, newDepth, y;
    }
    Stored(s, x, p);
    child := p.LookupChild(key[newDepth]);
    if child.Some? {
      ReachedKid(s, x, p, key);
      y := s.t[x].kids[key[|x|]];
      newDepth := newDepth + 1;
    }
  }

  /** `search_unchecked`: finds the leaf of a key exactly if the key is stored. */
  method Search(ghost s: Shape, root: NodePtr, key: Key) returns (r: Option<LeafNode>)
    requires StoredAt(s, s.r, root)
    ensures r.Some? <==> key in Contents(s.t)
    ensures r.Some? ==> LeafBelow(s, key, key, r.value)
    ensures r.Some? ==> r.value.key == key && r.value.value == Contents(s.t)[key]
  {
    var cur, depth := root, 0;
    ghost var x := s.r;
    Stored(s, x, cur);
    while !cur.LeafPtr?
      invariant Reached(s, x, cur, key, depth)
      decreases KEY_LIMIT - |x|
    {
      if key in Contents(s.t) {
        StoredBelow(s.t, s.r, x, key);
      }
      Stored(s, x, cur);
      var child;
      ghost var y;
      child, depth, y := CheckPrefixLookupChild(s, x, cur, key, depth);
      if child.None? {
        return None;
      }
      cur, x := child.value, y;
    }
    if key in Contents(s.t) {
      StoredBelow(s.t, s.r, x, key);
    }
    Stored(s, x, cur);
    if cur.leaf.key == key {
      return Some(cur.leaf);
    }
    return None;
  }
}
