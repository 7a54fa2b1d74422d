/** Insertion as a whole: every kind of insert point updates the stored map. */
module InsertApply {
  import opened Bytes
  import opened Tries
  import opened Surgery
  import opened Nodes
  import opened Shapes
  import opened Heaps
  import opened Pending
  import opened InsertSearch
  import opened Insert
  import opened SplitNode
  import Lookup

  /** The new leaf, the key and value that it replaced, and the root. */
  datatype InsertResult = InsertResult(leaf: LeafNode, existing: Option<(Key, Value)>, newRoot: NodePtr)

  /** The heap now represents `s1`, the tree `s` updated at `key`. */
  ghost predicate Inserted(s: Shape, s1: Shape, key: Key, value: Value, leaf: LeafNode, newRoot: NodePtr)
    reads s1.repr
  {
    && StoredAt(s1, s1.r, newRoot)
    && Contents(s1.t) == Contents(s.t)[key := value]
    && Lookup.LeafBelow(s1, key, key, leaf)
  }

  lemma SetValueContents(t: Trie, k: Key, v: Value)
    requires k in t && t[k].Leaf?
    ensures Contents(SetValue(t, k, v)) == Contents(t)[k := v]
  {
  }

  lemma SetValueWF(t: Trie, r: Key, k: Key, v: Value)
    requires WF(t, r) && k in t && t[k].Leaf?
    ensures WF(SetValue(t, k, v), r)
  {
    var u := SetValue(t, k, v);
    forall x | x in u ensures NodeOk(u, x) {
      assert NodeOk(t, x);
    }
    forall x, b | x in u && u[x].Inner? && b in u[x].kids ensures KidOk(u, x, b) {
      assert KidOk(t, x, b);
    }
    forall x | x in u && x != r ensures UpOk(u, x) {
      assert UpOk(t, x);
    }
  }

  /** The leaf of a stored key is replaced in place. */
  method ReplaceExact(ghost s: Shape, ghost x: Key, leaf: LeafNode, key: Key, value: Value, root: NodePtr)
    returns (replaced: (Key, Value), ghost s1: Shape)
    requires TypeOk(s, x, key, Exact(leaf), 0) && root == s.at[s.r]
    modifies s.repr
    ensures s1 == Shape(SetValue(s.t, x, value), s.at, s.r, s.repr) && Inserted(s, s1, key, value, leaf, root)
    ensures key in Contents(s.t) && replaced == (key, Contents(s.t)[key])
  {
    hide Tries.WF, NodePtr.Valid;
    Stored(s, x, LeafPtr(leaf));
    replaced := (leaf.key, leaf.value);
    assert leaf in s.at[x].Repr();
    leaf.key, leaf.value := key, value;
    SetValueWF(s.t, s.r, x, value);
    SetValueContents(s.t, x, value);
    s1 := Shape(SetValue(s.t, x, value), s.at, s.r, s.repr);
    forall z | z in s1.t ensures s1.LinkedAt(z) {
      assert s.t[z].Inner? ==> s1.PointersOf(z) == s.PointersOf(z);
      if z != x {
        assert leaf !in s.at[z].Repr() by { assert s.at[z].Repr() !! s.at[x].Repr(); }
        assert old(s.LinkedAt(z));
      }
    }
  }

  lemma SplitResult(s: Shape, x: Key, d: nat, key: Key, value: Value, node: NodePtr, leaf: LeafNode, newRoot: NodePtr)
    requires s.WF() && SplitsAt(s.t, s.r, x, d, key) && key !in s.t && x[..d] !in s.t
    requires var s1 := WithSplit(s, x, d, key, value, node, leaf); StoredAt(s1, s1.r, newRoot)
    ensures Inserted(s, WithSplit(s, x, d, key, value, node, leaf), key, value, leaf, newRoot)
    ensures key !in Contents(s.t)
  {
    hide Tries.WF, Shape.WF;
    SplitContents(s.t, s.r, x, d, key, value);
  }

  /** The edge that led to the split node is the edge to the new node. */
  lemma SplitEdge(s: Shape, x: Key, d: nat, key: Key, value: Value, node: NodePtr, leaf: LeafNode, parent: Option<Edge>)
    requires s.WF() && SplitsAt(s.t, s.r, x, d, key) && key !in s.t && x[..d] !in s.t
    requires ParentEdge(s, x, parent) && WithSplit(s, x, d, key, value, node, leaf).WF()
    ensures var s1 := WithSplit(s, x, d, key, value, node, leaf);
      && s1.r in s1.at && x[..d] in s1.t && ParentEdge(s1, x[..d], parent)
      && (parent.Some? ==> s1.at[s1.r] == s.at[s.r]) && node == s1.at[x[..d]]
  {
    var s1 := WithSplit(s, x, d, key, value, node, leaf);
    WithSplitParent(s, x, d, key, value, node, leaf, s1);
    if x != s.r {
      assert Parent(s.t, x) in s.t;
    }
  }

  /** The edge to the new leaf is not the edge that led to the split node. */
  lemma SplitLeafEdge(s: Shape, x: Key, d: nat, key: Key, value: Value, node: NodePtr, leaf: LeafNode,
                      parent: Option<Edge>)
    requires s.WF() && SplitsAt(s.t, s.r, x, d, key) && key !in s.t && x[..d] !in s.t && node !in Places(s.at)
    requires ParentEdge(s, x, parent) && WithSplit(s, x, d, key, value, node, leaf).WF()
    ensures var s1 := WithSplit(s, x, d, key, value, node, leaf); key in s1.t && !ParentEdge(s1, key, parent)
  {
    hide NodePtr.Repr;
    var s1 := WithSplit(s, x, d, key, value, node, leaf);
    assert x[..d] == key[..d] == Parent(s1.t, key);
    if x != s.r {
      PlaceLive(s.at, Parent(s.t, x));
    }
  }

  /** Hangs the new `Node4` where the split node hung. */
  method PlaceAbove(heap: NodeHeap, ghost s: Shape, ghost x: Key, ghost d: nat, ghost key: Key, ghost value: Value,
                    node: NodePtr, leaf: LeafNode, parent: Option<Edge>, root: NodePtr)
    returns (newRoot: NodePtr, ghost s1: Shape)
    requires s.WF() && SplitsAt(s.t, s.r, x, d, key) && SplitInPlace(s, x, d, key, value, node, leaf)
    requires node.Repr() !! s.repr && leaf !in s.repr && leaf !in node.Repr()
    requires ParentEdge(s, x, parent) && root == s.at[s.r]
    requires Accounts(heap, s) && heap !in node.Repr()
    modifies s.repr, node.Repr(), leaf, heap
    ensures Inserted(s, s1, key, value, leaf, newRoot) && key !in Contents(s.t)
    ensures s1.repr == s.repr + node.Repr() + {leaf}
    ensures Accounts(heap, s1) && heap.early == old(heap.early)
    ensures s1.WF() && key in s1.t && !ParentEdge(s1, key, parent)
  {
    hide Tries.WF, Shape.WF, Shape.Valid, SplitInPlace, EdgePending, Inserted, ParentEdge, Places, NodePtr.Repr;
    ShapeKeys(s);
    NotLive(s, LeafPtr(leaf)) by { assert LeafPtr(leaf).Repr() == {leaf} by { LeafRepr(leaf); } }
    NotLive(s, node);
    assert node != LeafPtr(leaf) by { LeafRepr(leaf); }
    s1 := WithSplit(s, x, d, key, value, node, leaf);
    SplitPending(s, x, d, key, value, node, leaf);
    WithSplitWF(s, x, d, key, value, node, leaf);
    SplitEdge(s, x, d, key, value, node, leaf, parent);
    SplitLeafEdge(s, x, d, key, value, node, leaf, parent);
    ShapeKeys(s1);
    SplitAccounted(s, x[..d], node, key, leaf);
    assert heap !in s1.repr;
    assert EdgePending(s1, x[..d], s.at[x]);
    heap.Allocate(LeafPtr(leaf));
    assert EdgePending(s1, x[..d], s.at[x]);
    heap.Allocate(node);
    newRoot := WriteParent(s1, x[..d], parent, s.at[x], node, root);
    SplitResult(s, x, d, key, value, node, leaf, newRoot);
  }

  lemma AddedResult(s: Shape, x: Key, node: NodePtr, key: Key, value: Value, leaf: LeafNode, newRoot: NodePtr)
    requires s.WF() && x in s.t && s.t[x].Inner? && x < key && key !in s.t
    requires var s1 := WithLeaf(s, x, node, key, value, leaf); StoredAt(s1, s1.r, newRoot)
    ensures Inserted(s, WithLeaf(s, x, node, key, value, leaf), key, value, leaf, newRoot)
    ensures key !in Contents(s.t)
  {
    hide Tries.WF, Shape.WF;
    AddLeafContents(s.t, x, key, value);
  }

  /** The edge that led to the node that got a new leaf stays where it is. */
  lemma AddedEdge(s: Shape, x: Key, node: NodePtr, key: Key, value: Value, leaf: LeafNode, parent: Option<Edge>)
    requires s.WF() && x in s.t && s.t[x].Inner? && x < key && key !in s.t
    requires ParentEdge(s, x, parent) && WithLeaf(s, x, node, key, value, leaf).WF()
    ensures var s1 := WithLeaf(s, x, node, key, value, leaf);
      && s1.r in s1.at && x in s1.t && ParentEdge(s1, x, parent)
      && (parent.Some? ==> s1.at[s1.r] == s.at[s.r]) && node == s1.at[x]
  {
    if x != s.r {
      assert Parent(s.t, x) in s.t;
    }
  }

  /** The edge to the new leaf is not the edge that leads to the node above it. */
  lemma AddedLeafEdge(s: Shape, x: Key, node: NodePtr, key: Key, value: Value, leaf: LeafNode, parent: Option<Edge>)
    requires s.WF() && x in s.t && s.t[x].Inner? && x < key && key !in s.t
    requires node == s.at[x] || node !in Places(s.at)
    requires ParentEdge(s, x, parent) && WithLeaf(s, x, node, key, value, leaf).WF()
    ensures var s1 := WithLeaf(s, x, node, key, value, leaf); key in s1.t && !ParentEdge(s1, key, parent)
  {
    hide NodePtr.Repr;
    var s1 := WithLeaf(s, x, node, key, value, leaf);
    assert x == key[..|x|] == Parent(s1.t, key);
    if x != s.r {
      PlaceLive(s.at, Parent(s.t, x));
      PlacesDistinct(s, x);
    }
  }

  /** A new leaf below the inner node where the search ended. */
  method ApplyIntoExisting(heap: NodeHeap, ghost s: Shape, ghost x: Key, p: NodePtr, key: Key, value: Value, used: nat,
                           parent: Option<Edge>, root: NodePtr)
    returns (newRoot: NodePtr, leaf: LeafNode, ghost s1: Shape)
    requires TypeOk(s, x, key, IntoExisting(p), used) && |key| < KEY_LIMIT && Accounts(heap, s)
    requires ParentEdge(s, x, parent) && root == s.at[s.r]
    modifies s.repr, heap
    ensures Inserted(s, s1, key, value, leaf, newRoot) && key !in Contents(s.t)
    ensures fresh(s1.repr - s.repr) && Accounts(heap, s1)
    ensures heap.early == old(heap.early) + if Full(s.t, x) then [p] else []
    ensures s1.WF() && key in s1.t && !ParentEdge(s1, key, parent)
  {
    hide Tries.WF, Shape.Valid, EdgePending, Inserted, ParentEdge, Places, NodePtr.Repr;
    ValidShape(s);
    AddLeafFresh(s.t, s.r, x, key);
    var node;
    node, leaf, s1 := WriteIntoExisting(heap, s, x, p, key, value, used);
    PendingKeys(s1, x, p);
    AddedEdge(s, x, node, key, value, leaf, parent);
    AddedLeafEdge(s, x, node, key, value, leaf, parent);
    newRoot := WriteParent(s1, x, parent, p, node, root);
    AddedResult(s, x, node, key, value, leaf, newRoot);
  }

  /** The way to `key` ends at inner node `x`, which has no edge for it. */
  ghost predicate EndsAt(t: Trie, x: Key, key: Key) {
    x in t && t[x].Inner? && x < key && key[|x|] !in t[x].kids
  }

  /** The node that is still reached when inserting `key` frees it: the inner node
      where the way to the key ends, if it is full. */
  ghost function FreedEarly(s: Shape, key: Key): seq<NodePtr>
    requires s.WF()
  {
    if exists x :: EndsAt(s.t, x, key) && Full(s.t, x) then
      var x :| EndsAt(s.t, x, key) && Full(s.t, x);
      [s.at[x]]
    else []
  }

  lemma EndsOnce(t: Trie, r: Key, x: Key, y: Key, key: Key)
    requires WF(t, r) && EndsAt(t, x, key) && EndsAt(t, y, key)
    ensures x == y
  {
    Relate(t, r, x, y);
    BelowOrApart(t, x, y);
    if Beside(t, x, y) {
      NotApart(x, y, key);
    }
  }

  /** Prefixes of one byte string do not branch. */
  lemma NotApart(x: Key, y: Key, key: Key)
    requires x <= key && y <= key
    ensures !Apart(x, y)
  {
    ApartOrPrefix(x, y);
    assert x <= y || y <= x by {
      if |x| <= |y| {
        assert x == key[..|x|] == y[..|x|];
      } else {
        assert y == key[..|y|] == x[..|y|];
      }
    }
  }

  /** A key that leaves the path of a node, or is stored, has an edge at every inner
      node on its way. */
  lemma NoEnd(t: Trie, r: Key, x: Key, d: nat, key: Key, y: Key)
    requires WF(t, r) && x in t && y in t && t[y].Inner? && y < key
    requires t[x].start <= d <= |x| && d <= |key| && x[..d] == key[..d] && !(x < key)
    ensures key[|y|] in t[y].kids
  {
    Relate(t, r, x, y);
    if Beside(t, x, y) {
      NotApart(x[..t[x].start], y[..t[y].start], key);
    }
  }

  /** The search ends at an inner node without an edge exactly for one of the four
      kinds of insertion. */
  lemma WhereItEnds(s: Shape, x: Key, key: Key, insertType: InsertType, used: nat)
    requires TypeOk(s, x, key, insertType, used)
    ensures FreedEarly(s, key) == if insertType.IntoExisting? && Full(s.t, x) then [s.at[x]] else []
  {
    match insertType {
      case IntoExisting(_) =>
        assert EndsAt(s.t, x, key);
        forall y | EndsAt(s.t, y, key) ensures y == x {
          EndsOnce(s.t, s.r, x, y, key);
        }
      case MismatchPrefix(m, _) =>
        forall y | y in s.t ensures !EndsAt(s.t, y, key) {
          if EndsAt(s.t, y, key) {
            NoEnd(s.t, s.r, x, used + m.matchedBytes, key, y);
          }
        }
      case SplitLeaf(_, d) =>
        forall y | y in s.t ensures !EndsAt(s.t, y, key) {
          if EndsAt(s.t, y, key) {
            NoEnd(s.t, s.r, x, d, key, y);
          }
        }
      case Exact(_) =>
        assert NodeOk(s.t, x);
        forall y | y in s.t ensures !EndsAt(s.t, y, key) {
          if EndsAt(s.t, y, key) {
            NoEnd(s.t, s.r, x, |x|, key, y);
          }
        }
    }
  }

  /** `InsertPoint::apply`. */
  method Apply(heap: NodeHeap, ghost s: Shape, ghost x: Key, point: InsertPoint, key: Key, value: Value)
    returns (res: InsertResult, ghost s1: Shape)
    requires PointOk(s, x, key, point) && |key| < KEY_LIMIT && Accounts(heap, s)
    modifies s.repr, heap
    ensures Inserted(s, s1, key, value, res.leaf, res.newRoot)
    ensures res.existing == if key in Contents(s.t) then Some((key, Contents(s.t)[key])) else None
    ensures fresh(s1.repr - s.repr) && Accounts(heap, s1)
    ensures heap.early == old(heap.early) + FreedEarly(s, key)
    ensures key !in Contents(s.t) ==> s1.WF() && key in s1.t && !ParentEdge(s1, key, point.parent)
  {
    hide Tries.WF, Shape.WF, Shape.Valid, SplitInPlace, EdgePending, Inserted, ParentEdge, GrandparentEdge, Places,
      NodePtr.Repr, FreedEarly;
    ValidShape(s);
    WhereItEnds(s, x, key, point.insertType, point.keyBytesUsed);
    match point.insertType {
      case MismatchPrefix(m, p) =>
        var node, leaf := SplitPrefixNodes(s, x, p, key, value, m, point.keyBytesUsed);
        ghost var d := point.keyBytesUsed + m.matchedBytes;
        var newRoot;
        newRoot, s1 := PlaceAbove(heap, s, x, d, key, value, node, leaf, point.parent, point.root);
        return InsertResult(leaf, None, newRoot), s1;
      case SplitLeaf(l, newUsed) =>
        var node, leaf := SplitLeafNodes(s, x, l, key, value, point.keyBytesUsed, newUsed);
        var newRoot;
        newRoot, s1 := PlaceAbove(heap, s, x, newUsed, key, value, node, leaf, point.parent, point.root);
        return InsertResult(leaf, None, newRoot), s1;
      case Exact(l) =>
        var replaced;
        replaced, s1 := ReplaceExact(s, x, l, key, value, point.root);
        return InsertResult(l, Some(replaced), point.root), s1;
      case IntoExisting(p) =>
        var newRoot, leaf;
        newRoot, leaf, s1 := ApplyIntoExisting(heap, s, x, p, key, value, point.keyBytesUsed, point.parent, point.root);
        return InsertResult(leaf, None, newRoot), s1;
    }
  }

  lemma LeafRepr(leaf: LeafNode)
    ensures LeafPtr(leaf).Repr() == {leaf}
  {
  }
}
