/** Insertions that put a new `Node4` above an existing node. */
module SplitNode {
  import opened Bytes
  import opened Headers
  import opened Layouts
  import opened Tries
  import opened Surgery
  import opened Nodes
  import opened Shapes
  import opened Heaps
  import opened Pending
  import opened Lookup
  import opened InsertSearch

  /** The shape after a new inner node at `node` was put above `x`, with the
      new leaf as its other child. */
  ghost function WithSplit(s: Shape, x: Key, d: nat, key: Key, value: Value, node: NodePtr, leaf: LeafNode): Shape
    requires SplitsAt(s.t, s.r, x, d, key)
  {
    Shape(Split(s.t, x, d, key, value), s.at[x[..d] := node][key := LeafPtr(leaf)],
          NewRoot(s.r, x, x[..d]), s.repr + node.Repr() + {leaf})
  }

  lemma WithSplitWF(s: Shape, x: Key, d: nat, key: Key, value: Value, node: NodePtr, leaf: LeafNode)
    requires s.WF() && SplitsAt(s.t, s.r, x, d, key)
    requires node.Repr() !! s.repr && leaf !in s.repr && leaf !in node.Repr()
    ensures WithSplit(s, x, d, key, value, node, leaf).WF()
    ensures key !in s.t && x[..d] !in s.t
  {
    hide Tries.WF;
    SplitWF(s.t, s.r, x, d, key, value);
    SplitFresh(s.t, s.r, x, d, key);
  }

  /** The new node hangs where `x` hung. */
  lemma WithSplitParent(s: Shape, x: Key, d: nat, key: Key, value: Value, node: NodePtr, leaf: LeafNode, s1: Shape)
    requires s.WF() && SplitsAt(s.t, s.r, x, d, key) && key !in s.t && x[..d] !in s.t
    requires s1 == WithSplit(s, x, d, key, value, node, leaf) && s1.WF()
    ensures x[..d] == s1.r <==> x == s.r
    ensures x != s.r ==> UpOk(s1.t, x[..d]) && Parent(s1.t, x[..d]) == Parent(s.t, x)
    ensures x != s.r ==> x[..d][s1.t[x[..d]].start - 1] == x[s.t[x].start - 1]
  {
    var m := x[..d];
    if x != s.r {
      assert UpOk(s1.t, m);
      assert m[..s.t[x].start - 1] == x[..s.t[x].start - 1];
    }
  }

  lemma WithSplitPointers(s: Shape, x: Key, d: nat, key: Key, value: Value, node: NodePtr, leaf: LeafNode, s1: Shape,
                          z: Key)
    requires s.WF() && SplitsAt(s.t, s.r, x, d, key) && key !in s.t && x[..d] !in s.t
    requires s1 == WithSplit(s, x, d, key, value, node, leaf) && s1.WF() && z in s.t
    ensures StalePointers(s1, x[..d], s.at[x], z) == s.PointersOf(z)
  {
    hide NodePtr.Repr;
    if s.t[z].Inner? {
      forall b | b in s.t[z].kids ensures StalePointers(s1, x[..d], s.at[x], z)[b] == s.PointersOf(z)[b] {
        WithSplitPointer(s, x, d, key, value, node, leaf, s1, z, b);
      }
    }
  }

  lemma WithSplitPointer(s: Shape, x: Key, d: nat, key: Key, value: Value, node: NodePtr, leaf: LeafNode, s1: Shape,
                         z: Key, b: byte)
    requires s.WF() && SplitsAt(s.t, s.r, x, d, key) && key !in s.t && x[..d] !in s.t
    requires s1 == WithSplit(s, x, d, key, value, node, leaf) && s1.WF() && z in s.t
    requires s.t[z].Inner? && b in s.t[z].kids
    ensures s1.t[z].Inner? && b in s1.t[z].kids
    ensures StalePointers(s1, x[..d], s.at[x], z)[b] == s.PointersOf(z)[b]
  {
    hide NodePtr.Repr;
    WithSplitParent(s, x, d, key, value, node, leaf, s1);
    assert KidOk(s.t, z, b);
    if s.t[z].kids[b] == x {
      EdgeUnique(s.t, s.r, x, z, b);
    }
  }

  lemma WithSplitNewPointers(s: Shape, x: Key, d: nat, key: Key, value: Value, node: NodePtr, leaf: LeafNode, s1: Shape)
    requires s.WF() && SplitsAt(s.t, s.r, x, d, key) && key !in s.t && x[..d] !in s.t
    requires s1 == WithSplit(s, x, d, key, value, node, leaf) && s1.WF()
    ensures StalePointers(s1, x[..d], s.at[x], x[..d]) == map[x[d] := s.at[x], key[d] := LeafPtr(leaf)]
  {
  }

  /** Of the other nodes only the parent of `x` changes, in where an edge leads. */
  lemma WithSplitDesc(t: Trie, r: Key, x: Key, d: nat, key: Key, value: Value, z: Key)
    requires SplitsAt(t, r, x, d, key) && key !in t && x[..d] !in t && z in t && z != x
    ensures var e := Split(t, x, d, key, value)[z];
      (e.Leaf? <==> t[z].Leaf?) && e.start == t[z].start && (e.Leaf? ==> e == t[z])
  {
  }

  lemma WithSplitElsewhere(s: Shape, x: Key, d: nat, key: Key, value: Value, node: NodePtr, leaf: LeafNode, s1: Shape,
                           z: Key)
    requires s.WF() && SplitsAt(s.t, s.r, x, d, key) && key !in s.t && x[..d] !in s.t
    requires s1 == WithSplit(s, x, d, key, value, node, leaf) && s1.WF()
    requires z in s.t && z != x && s.LinkedAt(z)
    ensures PendingAt(s1, x[..d], s.at[x], z)
  {
    hide Linked, Tries.WF;
    WithSplitPointers(s, x, d, key, value, node, leaf, s1, z);
    WithSplitDesc(s.t, s.r, x, d, key, value, z);
    LinkedAlike(s.at[z], z, s.t[z], s1.t[z], s.PointersOf(z));
  }

  /** If the new node, the new leaf and the node whose prefix was trimmed are in
      place, then all that is left to do is to write the edge to the new node. */
  lemma WithSplitPending(s: Shape, x: Key, d: nat, key: Key, value: Value, node: NodePtr, leaf: LeafNode, s1: Shape)
    requires s.WF() && SplitsAt(s.t, s.r, x, d, key) && key !in s.t && x[..d] !in s.t
    requires s1 == WithSplit(s, x, d, key, value, node, leaf) && s1.WF()
    requires LinkedElsewhere(s, {x})
    requires Linked(s.at[x], x, s1.t[x], s.PointersOf(x))
    requires Linked(node, x[..d], s1.t[x[..d]], map[x[d] := s.at[x], key[d] := LeafPtr(leaf)])
    requires leaf.key == key && leaf.value == value
    ensures EdgePending(s1, x[..d], s.at[x])
  {
    hide Tries.WF;
    assert NodeOk(s1.t, x[..d]) by {
      assert x[..d] in s1.t;
      SplitNodeOk(s, x, d, key, value, node, leaf, s1);
    }
    forall z | z in s1.t ensures PendingAt(s1, x[..d], s.at[x], z) {
      if z == x[..d] {
        WithSplitNewPointers(s, x, d, key, value, node, leaf, s1);
      } else if z == x {
        WithSplitPointers(s, x, d, key, value, node, leaf, s1, z);
      } else if z != key {
        assert s.LinkedAt(z);
        WithSplitElsewhere(s, x, d, key, value, node, leaf, s1, z);
      }
    }
  }

  lemma SplitNodeOk(s: Shape, x: Key, d: nat, key: Key, value: Value, node: NodePtr, leaf: LeafNode, s1: Shape)
    requires SplitsAt(s.t, s.r, x, d, key) && s1 == WithSplit(s, x, d, key, value, node, leaf) && s1.WF()
    ensures x[..d] in s1.t && NodeOk(s1.t, x[..d])
  {
  }

  /** A new `Node4` with prefix `whole` and two children, in order of key byte. */
  method NewNode4(bytes: seq<byte>, len: u32, ghost whole: Key, b: byte, p: NodePtr, c: byte, q: NodePtr)
    returns (node: NodePtr)
    requires |whole| == len && Min(len, PREFIX_LEN) <= |bytes| <= len && bytes == whole[..|bytes|] && b != c
    ensures node.Node4Ptr? && fresh(node.Repr()) && node.Valid()
    ensures node.Kids() == map[b := p, c := q] && node.Header().full == whole
  {
    var h := new Header(bytes, len, whole);
    var n4 := new InnerNodeCompressed.FromHeader(4, h);
    if b < c {
      n4.WriteChildUnchecked(b, p);
      n4.WriteChildUnchecked(c, q);
    } else {
      n4.WriteChildUnchecked(c, q);
      n4.WriteChildUnchecked(b, p);
    }
    node := Node4Ptr(n4);
  }

  /** Drops the matched bytes and the new edge byte from the prefix of a node. */
  method TrimPrefix(p: NodePtr, len: nat, depth: nat, leaf: Option<LeafNode>)
    requires !p.LeafPtr? && p.Valid() && len <= |p.Header().full|
    requires leaf.None? ==> |p.Header().full| <= PREFIX_LEN
    requires leaf.Some? ==> depth + |p.Header().full| <= |leaf.value.key|
    requires leaf.Some? ==> leaf.value.key[depth..depth + |p.Header().full|] == p.Header().full
    modifies p.Repr()
    ensures p.Valid() && p.Kids() == old(p.Kids()) && p.Header().full == old(p.Header().full)[len..]
  {
    p.ValidFacts();
    var h := p.Header();
    match leaf
    case Some(l) =>
      h.LtrimByWithLeaf(len, depth, l.key);
      p.HeaderChanged();
    case None =>
      h.LtrimBy(len);
      p.HeaderChanged();
  }

  /** The nodes are in place for node `node` above `x`, with `leaf` beside `x`. */
  ghost predicate SplitInPlace(s: Shape, x: Key, d: nat, key: Key, value: Value, node: NodePtr, leaf: LeafNode)
    requires SplitsAt(s.t, s.r, x, d, key)
    reads s.repr, node.Repr(), leaf
  {
    && LinkedElsewhere(s, {x}) && s.at[x].Repr() <= s.repr
    && Linked(s.at[x], x, s.t[x].(start := d + 1), s.PointersOf(x))
    && Linked(node, x[..d], Inner(s.t[x].start, map[x[d] := x, key[d] := key]),
              map[x[d] := s.at[x], key[d] := LeafPtr(leaf)])
    && leaf.key == key && leaf.value == value
  }

  /** What the search found out about the node that the key leaves. */
  lemma MismatchFacts(s: Shape, x: Key, p: NodePtr, key: Key, m: Mismatch, used: nat)
    requires TypeOk(s, x, key, MismatchPrefix(m, p), used)
    ensures StoredAt(s, x, p) && s.t[x].Inner? && used == s.t[x].start <= |x| && s.LinkedAt(x)
    ensures used + m.matchedBytes < |x| && used + m.matchedBytes < |key|
    ensures m.prefixByte == x[used + m.matchedBytes] != key[used + m.matchedBytes]
    ensures m.leaf.None? ==> |x| - used <= PREFIX_LEN
    ensures m.leaf.Some? ==> m.leaf.value in s.repr && x <= m.leaf.value.key
    ensures p.Repr() <= s.repr && p.Header().full == x[used..] && |x| < KEY_LIMIT
  {
    Stored(s, x, p);
    if m.leaf.Some? {
      Stored(s, m.leaf.value.key, LeafPtr(m.leaf.value));
    }
  }

  lemma FitsPair(b: byte, p: NodePtr, c: byte, q: NodePtr)
    requires b != c
    ensures Fits(Node4, |map[b := p, c := q]|)
  {
  }

  /** The stored part of the matched bytes, from the stored part of the prefix. */
  lemma MatchedPart(full: Key, n: nat, stored: Key)
    requires n <= |full| && stored == full[..Min(|full|, PREFIX_LEN)]
    ensures var part := stored[..Min(|stored|, n)];
      Min(n, PREFIX_LEN) <= |part| <= n && part == full[..n][..|part|]
  {
  }

  /** What the new node needs to know: where it ends, and what its prefix is. */
  lemma AboveFacts(s: Shape, x: Key, p: NodePtr, key: Key, m: Mismatch, used: nat)
    requires TypeOk(s, x, key, MismatchPrefix(m, p), used)
    ensures StoredAt(s, x, p) && !p.LeafPtr? && p.Valid()
    ensures var d := used + m.matchedBytes;
      && used <= d < |x| < KEY_LIMIT && d < |key| && m.prefixByte == x[d] != key[d]
      && m.matchedBytes <= |p.Header().full| && p.Header().full[..m.matchedBytes] == x[..d][used..]
  {
    MismatchFacts(s, x, p, key, m, used);
    Stored(s, x, p);
  }

  /** The stored part of the first `n` bytes of the prefix of a node. */
  method PrefixPart(p: NodePtr, n: nat) returns (part: seq<byte>)
    requires !p.LeafPtr? && p.Valid() && n <= |p.Header().full|
    ensures Min(n, PREFIX_LEN) <= |part| <= n && part == p.Header().full[..n][..|part|]
  {
    hide NodePtr.Valid;
    p.ValidFacts();
    var prefix := p.Header().ReadPrefix();
    MatchedPart(p.Header().full, n, prefix);
    part := prefix[..Min(|prefix|, n)];
  }

  /** The new node that takes the matched part of the prefix of `x`. */
  method NodeAbove(ghost s: Shape, ghost x: Key, p: NodePtr, key: Key, m: Mismatch, used: nat, leafPtr: NodePtr)
    returns (node: NodePtr)
    requires TypeOk(s, x, key, MismatchPrefix(m, p), used)
    ensures fresh(node.Repr()) && StoredAt(s, x, p)
    ensures var d := used + m.matchedBytes;
      d < |x| && d < |key| && x[d] != key[d] &&
      Linked(node, x[..d], Inner(used, map[x[d] := x, key[d] := key]), map[x[d] := p, key[d] := leafPtr])
  {
    hide NodePtr.Valid, TypeOk, Fits, Shape.Valid, Linked, Tries.WF, Shape.WF;
    AboveFacts(s, x, p, key, m, used);
    ghost var y := x[..used + m.matchedBytes];
    var prefix := PrefixPart(p, m.matchedBytes);
    var keyByte := key[used + m.matchedBytes];
    node := NewNode4(prefix, m.matchedBytes, y[used..], m.prefixByte, p, keyByte, leafPtr);
    LinkedPair(node, y, used, m.prefixByte, x, p, keyByte, key, leafPtr);
  }

  /** A valid `Node4` with two children and the right prefix is the node at `y`. */
  lemma LinkedPair(node: NodePtr, y: Key, start: nat, b: byte, x: Key, p: NodePtr, c: byte, key: Key, q: NodePtr)
    requires node.Node4Ptr? && node.Valid() && b != c && node.Kids() == map[b := p, c := q]
    requires start <= |y| && node.Header().full == y[start..]
    ensures Linked(node, y, Inner(start, map[b := x, c := key]), map[b := p, c := q])
  {
    FitsPair(b, p, c, q);
  }

  /** The node below loses the matched part of its prefix and the edge byte. */
  method TrimAt(ghost s: Shape, ghost x: Key, p: NodePtr, ghost key: Key, m: Mismatch, used: nat)
    requires TypeOk(s, x, key, MismatchPrefix(m, p), used)
    modifies p.Repr()
    ensures LinkedElsewhere(s, {x})
    ensures x in s.t && Linked(p, x, s.t[x].(start := used + m.matchedBytes + 1), s.PointersOf(x))
  {
    hide NodePtr.Valid;
    MismatchFacts(s, x, p, key, m, used);
    Stored(s, x, p);
    TrimPrefix(p, m.matchedBytes + 1, used, m.leaf);
    assert x[used..][m.matchedBytes + 1..] == x[used + m.matchedBytes + 1..];
  }

  /** The nodes written when a key leaves the prefix of an inner node. */
  method SplitPrefixNodes(ghost s: Shape, ghost x: Key, p: NodePtr, key: Key, value: Value, m: Mismatch, used: nat)
    returns (node: NodePtr, leaf: LeafNode)
    requires TypeOk(s, x, key, MismatchPrefix(m, p), used)
    modifies s.repr
    ensures fresh(leaf) && fresh(node.Repr()) && leaf !in node.Repr()
    ensures SplitInPlace(s, x, used + m.matchedBytes, key, value, node, leaf)
  {
    hide NodePtr.Valid, Linked, TypeOk, LinkedElsewhere, Shape.WF, Tries.WF;
    leaf := new LeafNode(key, value);
    node := NodeAbove(s, x, p, key, m, used, LeafPtr(leaf));
    MismatchFacts(s, x, p, key, m, used);
    TrimAt(s, x, p, key, m, used);
  }

  /** The nodes written when a key meets a leaf with another key. */
  method SplitLeafNodes(ghost s: Shape, ghost x: Key, existing: LeafNode, key: Key, value: Value, used: nat,
                        newUsed: nat)
    returns (node: NodePtr, leaf: LeafNode)
    requires TypeOk(s, x, key, SplitLeaf(existing, newUsed), used)
    ensures fresh(leaf) && fresh(node.Repr()) && leaf !in node.Repr()
    ensures SplitInPlace(s, x, newUsed, key, value, node, leaf)
  {
    Stored(s, x, LeafPtr(existing));
    assert s.LinkedAt(x);
    leaf := new LeafNode(key, value);
    var prefix := key[used..newUsed];
    assert prefix == x[..newUsed][used..];
    var leafByte, keyByte := existing.key[newUsed], key[newUsed];
    node := NewNode4(prefix, newUsed - used, prefix, leafByte, LeafPtr(existing), keyByte, LeafPtr(leaf));
    FitsPair(leafByte, LeafPtr(existing), keyByte, LeafPtr(leaf));
  }

  lemma SplitAccounted(s: Shape, m: Key, node: NodePtr, key: Key, leaf: LeafNode)
    requires m !in s.at && key !in s.at && m != key
    ensures Places(s.at[m := node][key := LeafPtr(leaf)]) == Places(s.at) + {LeafPtr(leaf)} + {node}
  {
    AddedValues(s.at, m, node);
    AddedValues(s.at[m := node], key, LeafPtr(leaf));
  }

  /** Nodes in place make the new shape, up to the edge to the new node. */
  lemma SplitPending(s: Shape, x: Key, d: nat, key: Key, value: Value, node: NodePtr, leaf: LeafNode)
    requires s.WF() && SplitsAt(s.t, s.r, x, d, key) && SplitInPlace(s, x, d, key, value, node, leaf)
    requires node.Repr() !! s.repr && leaf !in s.repr && leaf !in node.Repr()
    ensures EdgePending(WithSplit(s, x, d, key, value, node, leaf), x[..d], s.at[x])
    ensures key !in s.t && x[..d] !in s.t
  {
    hide Linked, LinkedElsewhere, Tries.WF, Shape.WF;
    WithSplitWF(s, x, d, key, value, node, leaf);
    SplitDescs(s.t, s.r, x, d, key, value);
    WithSplitPending(s, x, d, key, value, node, leaf, WithSplit(s, x, d, key, value, node, leaf));
  }

  lemma SplitDescs(t: Trie, r: Key, x: Key, d: nat, key: Key, value: Value)
    requires SplitsAt(t, r, x, d, key) && key !in t && x[..d] !in t
    ensures Split(t, x, d, key, value)[x] == t[x].(start := d + 1)
    ensures Split(t, x, d, key, value)[x[..d]] == Inner(t[x].start, map[x[d] := x, key[d] := key])
  {
  }
}
