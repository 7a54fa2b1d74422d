/** The search for the place where a key is inserted. */
module InsertSearch {
  import opened Bytes
  import opened Tries
  import opened Surgery
  import opened Nodes
  import opened Shapes
  import opened Lookup

  /** Some stored key other than `key` is a prefix of it, or the reverse. */
  ghost predicate Clashes(t: Trie, key: Key) {
    exists y :: y in t && t[y].Leaf? && y != key && (y <= key || key <= y)
  }

  /** A node and the key byte of one of its edges. */
  type Edge = (NodePtr, byte)

  datatype InsertType =
    | MismatchPrefix(mismatch: Mismatch, node: NodePtr)
    | SplitLeaf(leaf: LeafNode, newKeyBytesUsed: nat)
    | Exact(leaf: LeafNode)
    | IntoExisting(node: NodePtr)

  datatype InsertPoint = InsertPoint(
    grandparent: Option<Edge>, parent: Option<Edge>, insertType: InsertType,
    keyBytesUsed: nat, root: NodePtr)

  datatype InsertSearchResult = InsertPrefixError(bytes: Key) | Found(point: InsertPoint)

  /** `e` is the edge that leads to node `x`, if any does. */
  ghost predicate ParentEdge(s: Shape, x: Key, e: Option<Edge>)
    requires s.WF() && x in s.t
  {
    if x == s.r then e == None
    else UpOk(s.t, x) && e == Some((s.at[Parent(s.t, x)], x[s.t[x].start - 1]))
  }

  /** `e` is the edge that leads to the parent of node `x`, if any does. */
  ghost predicate GrandparentEdge(s: Shape, x: Key, e: Option<Edge>)
    requires s.WF() && x in s.t
  {
    if x == s.r then e == None
    else UpOk(s.t, x) && ParentEdge(s, Parent(s.t, x), e)
  }

  /** The insert type fits the node `x` where the search for `key` ended. */
  ghost predicate TypeOk(s: Shape, x: Key, key: Key, insertType: InsertType, used: nat)
    reads s.repr
  {
    s.Valid() && x in s.t &&
    match insertType
    case MismatchPrefix(m, node) =>
      && s.t[x].Inner? && s.at[x] == node && used == s.t[x].start
      && SplitsAt(s.t, s.r, x, used + m.matchedBytes, key)
      && m.prefixByte == x[used + m.matchedBytes]
      && (m.leaf.Some? <==> PREFIX_LEN < |x| - used)
      && (m.leaf.Some? ==> m.leaf.value in s.repr && LeafBelow(s, x, m.leaf.value.key, m.leaf.value))
    case SplitLeaf(leaf, newUsed) =>
      && s.t[x].Leaf? && s.at[x] == LeafPtr(leaf) && used == s.t[x].start
      && SplitsAt(s.t, s.r, x, newUsed, key)
    case Exact(leaf) =>
      s.t[x].Leaf? && s.at[x] == LeafPtr(leaf) && x == key
    case IntoExisting(node) =>
      && s.t[x].Inner? && s.at[x] == node && used == |x|
      && x < key && key[|x|] !in s.t[x].kids
  }

  /** The insert point leads to node `x`, where `key` can be inserted. */
  ghost predicate PointOk(s: Shape, x: Key, key: Key, point: InsertPoint)
    reads s.repr
  {
    && TypeOk(s, x, key, point.insertType, point.keyBytesUsed)
    && ParentEdge(s, x, point.parent) && GrandparentEdge(s, x, point.grandparent)
    && point.root == s.at[s.r]
  }

  /** A key that ends inside or at an inner node is a prefix of a stored key. */
  lemma ClashBelow(t: Trie, r: Key, x: Key, key: Key)
    requires WF(t, r) && x in t && t[x].Inner? && key <= x
    ensures Clashes(t, key)
  {
    var y := LeafExists(t, r, x);
    assert key <= y && y != x;
  }

  lemma NoClashAdd(t: Trie, r: Key, f: Key, key: Key)
    requires WF(t, r) && f in t && t[f].Inner? && f < key && key[|f|] !in t[f].kids
    ensures !Clashes(t, key)
  {
    forall y | y in t && t[y].Leaf? ensures !(y <= key) && !(key <= y) {
      Relate(t, r, f, y);
      if Beside(t, f, y) {
        ApartExtends(f[..t[f].start], y[..t[y].start], key, y);
      } else {
        LcpUnique(key, y, |f|);
      }
      ApartOrPrefix(key, y);
    }
  }

  lemma NoClashSplit(t: Trie, r: Key, x: Key, d: nat, key: Key)
    requires SplitsAt(t, r, x, d, key)
    ensures !Clashes(t, key)
  {
    forall y | y in t && t[y].Leaf? ensures !(y <= key) && !(key <= y) {
      Relate(t, r, x, y);
      if Beside(t, x, y) {
        assert x[..t[x].start] == x[..d][..t[x].start];
        ApartExtends(x[..t[x].start], y[..t[y].start], key, y);
      } else {
        assert x <= y;
        LcpUnique(key, y, d);
      }
      ApartOrPrefix(key, y);
    }
  }

  /** Stored keys are prefix-free. */
  lemma NoClashStored(t: Trie, r: Key, key: Key)
    requires WF(t, r) && key in t && t[key].Leaf?
    ensures !Clashes(t, key)
  {
    forall y | y in t && t[y].Leaf? && y != key ensures !(y <= key) && !(key <= y) {
      Relate(t, r, key, y);
      BelowOrApart(t, key, y);
    }
  }

  /** What the key meets at an inner node: it ends there, it leaves the node's
      prefix, or it reaches the edges of the node. */
  datatype Step = KeyEnds | Leaves(mismatch: Mismatch) | AtEdges(child: Option<NodePtr>)

  /** `test_prefix_identify_insert`, and the check that follows a mismatch. */
  method TestPrefix(ghost s: Shape, ghost x: Key, p: NodePtr, key: Key, depth: nat)
    returns (step: Step, newDepth: nat, ghost y: Key)
    requires Reached(s, x, p, key, depth) && !p.LeafPtr? && |key| < KEY_LIMIT
    ensures s.t[x].Inner?
    ensures step.KeyEnds? ==> key <= x
    ensures step.Leaves? ==> TypeOk(s, x, key, MismatchPrefix(step.mismatch, p), depth) && newDepth == depth
    ensures step.Leaves? ==> !Clashes(s.t, key)
    ensures step.AtEdges? ==> newDepth == |x| && x < key && (step.child.Some? <==> key[|x|] in s.t[x].kids)
    ensures step.AtEdges? && step.child.Some? ==>
      y == s.t[x].kids[key[|x|]] && |x| < |y| < KEY_LIMIT && Reached(s, y, step.child.value, key, |x| + 1)
  {
    hide Shape.Valid, NodePtr.Valid, TypeOk, Clashes;
    Stored(s, x, p);
    y := x;
    ghost var z;
    var m;
    m, z := MatchPrefix(s, x, p, key, depth);
    Stored(s, x, p);
    if m.Mismatched? {
      if depth + m.mismatch.matchedBytes >= |key| {
        LcpPrefix(x, key);
        return KeyEnds, depth, y;
      }
      LeavesPrefix(s, x, p, key, depth, m.mismatch, z);
      return Leaves(m.mismatch), depth, y;
    }
    newDepth := depth + m.matchedBytes;
    if |key| <= newDepth {
      return KeyEnds, newDepth, y;
    }
    var child := p.LookupChild(key[newDepth]);
    if child.Some? {
      ReachedKid(s, x, p, key);
      y := s.t[x].kids[key[|x|]];
    }
    return AtEdges(child), newDepth, y;
  }

  lemma LeavesPrefix(s: Shape, x: Key, p: NodePtr, key: Key, depth: nat, m: Mismatch, z: Key)
    requires Reached(s, x, p, key, depth) && !p.LeafPtr? && s.t[x].Inner? && |key| < KEY_LIMIT
    requires depth + m.matchedBytes == Lcp(x, key) < |x| && Lcp(x, key) < |key|
    requires m.prefixByte == x[depth + m.matchedBytes]
    requires m.leaf.Some? <==> PREFIX_LEN < |x| - depth
    requires m.leaf.Some? ==> LeafBelow(s, x, z, m.leaf.value)
    ensures TypeOk(s, x, key, MismatchPrefix(m, p), depth) && !Clashes(s.t, key)
  {
    hide Tries.WF, Clashes, NodePtr.Valid;
    Stored(s, x, p);
    if m.leaf.Some? {
      Stored(s, z, LeafPtr(m.leaf.value));
      assert m.leaf.value in s.at[z].Repr();
    }
    NoClashSplit(s.t, s.r, x, depth + m.matchedBytes, key);
  }

  /** The end of the search at a leaf. */
  method AtLeaf(ghost s: Shape, ghost x: Key, leaf: LeafNode, key: Key, depth: nat)
    returns (r: Option<InsertType>)
    requires Reached(s, x, LeafPtr(leaf), key, depth) && |key| < KEY_LIMIT
    ensures r.None? <==> Clashes(s.t, key)
    ensures r.Some? ==> TypeOk(s, x, key, r.value, depth)
  {
    hide Shape.Valid, TypeOk;
    Stored(s, x, LeafPtr(leaf));
    if leaf.key == key {
      ExactLeaf(s, x, leaf, key, depth);
      return Some(Exact(leaf));
    }
    var n := CountEqual(leaf.key[depth..], key[depth..]);
    Stored(s, x, LeafPtr(leaf));
    var d := depth + n;
    LcpSuffix(x, key, depth);
    if d >= |key| || d >= |leaf.key| {
      LcpPrefix(x, key);
      assert x <= key || key <= x;
      return None;
    }
    LeafSplits(s, x, leaf, key, depth);
    return Some(SplitLeaf(leaf, d));
  }

  lemma ExactLeaf(s: Shape, x: Key, leaf: LeafNode, key: Key, depth: nat)
    requires Reached(s, x, LeafPtr(leaf), key, depth) && x == key
    ensures TypeOk(s, x, key, Exact(leaf), depth) && !Clashes(s.t, key)
  {
    Stored(s, x, LeafPtr(leaf));
    NoClashStored(s.t, s.r, key);
  }

  lemma LeafSplits(s: Shape, x: Key, leaf: LeafNode, key: Key, depth: nat)
    requires Reached(s, x, LeafPtr(leaf), key, depth) && |key| < KEY_LIMIT
    requires depth <= Lcp(x, key) < |x| && Lcp(x, key) < |key|
    ensures TypeOk(s, x, key, SplitLeaf(leaf, Lcp(x, key)), depth) && !Clashes(s.t, key)
  {
    Stored(s, x, LeafPtr(leaf));
    NoClashSplit(s.t, s.r, x, Lcp(x, key), key);
  }

  lemma IntoExistingOk(s: Shape, x: Key, p: NodePtr, key: Key)
    requires StoredAt(s, x, p) && s.t[x].Inner? && x < key && key[|x|] !in s.t[x].kids
    ensures TypeOk(s, x, key, IntoExisting(p), |x|) && !Clashes(s.t, key)
  {
    NoClashAdd(s.t, s.r, x, key);
  }

  lemma RootReached(s: Shape, root: NodePtr, key: Key)
    requires StoredAt(s, s.r, root)
    ensures Reached(s, s.r, root, key, 0) && s.WF()
    ensures ParentEdge(s, s.r, None) && GrandparentEdge(s, s.r, None)
  {
    Stored(s, s.r, root);
  }

  /** `search_for_insert_point`: an error exactly if the key clashes with a
      stored key; otherwise the place where the key belongs. */
  method SearchForInsertPoint(ghost s: Shape, root: NodePtr, key: Key)
    returns (res: InsertSearchResult, ghost x: Key)
    requires StoredAt(s, s.r, root) && |key| < KEY_LIMIT
    ensures res.InsertPrefixError? <==> Clashes(s.t, key)
    ensures res.InsertPrefixError? ==> res.bytes == key
    ensures res.Found? ==> PointOk(s, x, key, res.point)
  {
    hide Shape.Valid, Shape.WF, Clashes, TypeOk;
    var grandparent, parent: Option<Edge> := None, None;
    var cur, depth := root, 0;
    x := s.r;
    RootReached(s, cur, key);
    while !cur.LeafPtr?
      invariant Reached(s, x, cur, key, depth) && s.WF()
      invariant ParentEdge(s, x, parent) && GrandparentEdge(s, x, grandparent)
      decreases KEY_LIMIT - |x|
    {
      var step;
      ghost var y;
      step, depth, y := TestPrefix(s, x, cur, key, depth);
      match step {
        case KeyEnds =>
          ClashBelow(s.t, s.r, x, key);
          return InsertPrefixError(key), x;
        case Leaves(m) =>
          return Found(InsertPoint(grandparent, parent, MismatchPrefix(m, cur), depth, root)), x;
        case AtEdges(None) =>
          IntoExistingOk(s, x, cur, key);
          return Found(InsertPoint(grandparent, parent, IntoExisting(cur), depth, root)), x;
        case AtEdges(Some(child)) =>
          EdgeTo(s, x, key[depth]);
          grandparent, parent := parent, Some((cur, key[depth]));
          cur, x := child, y;
          depth := depth + 1;
      }
    }
    var t := AtLeaf(s, x, cur.leaf, key, depth);
    if t.None? {
      return InsertPrefixError(key), x;
    }
    return Found(InsertPoint(grandparent, parent, t.value, depth, root)), x;
  }

  /** The edge to a child is where the child's path says it is. */
  lemma EdgeTo(s: Shape, x: Key, b: byte)
    requires s.WF() && x in s.t && s.t[x].Inner? && b in s.t[x].kids
    ensures s.t[x].kids[b] in s.t && s.t[x].kids[b] != s.r
    ensures UpOk(s.t, s.t[x].kids[b]) && Parent(s.t, s.t[x].kids[b]) == x
    ensures ParentEdge(s, s.t[x].kids[b], Some((s.at[x], b)))
  {
    var y := s.t[x].kids[b];
    assert KidOk(s.t, x, b);
    assert UpOk(s.t, y);
  }
}
