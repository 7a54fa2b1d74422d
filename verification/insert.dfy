/** Carrying out an insertion at the place that the search found. */
module Insert {
  import opened Bytes
  import opened Layouts
  import opened Tries
  import opened Surgery
  import opened Nodes
  import opened Shapes
  import opened Heaps
  import opened Pending
  import opened InsertSearch
  import Reachability

  /** `parent_write_child`: the edge that led to `x` before now leads to the node
      that took its place; without a parent, that node is the new root. */
  method WriteParent(ghost s: Shape, ghost x: Key, parent: Option<Edge>, ghost stale: NodePtr, node: NodePtr,
                     root: NodePtr)
    returns (newRoot: NodePtr)
    requires EdgePending(s, x, stale) && ParentEdge(s, x, parent) && node == s.at[x]
    requires parent.Some? ==> root == s.at[s.r]
    modifies s.repr
    ensures StoredAt(s, s.r, newRoot)
  {
    match parent {
      case None =>
        PendingRoot(s, stale);
        newRoot := node;
      case Some((p, b)) =>
        ghost var z := Parent(s.t, x);
        PendingParent(s, x, stale);
        p.WriteChild(b, node);
        forall y | y in s.t ensures s.LinkedAt(y) {
          assert y != z ==> PendingAt(s, x, stale, y);
        }
        newRoot := root;
    }
  }

  /** The shape after leaf `key` was added below `x`, which is now at `node`. */
  ghost function WithLeaf(s: Shape, x: Key, node: NodePtr, key: Key, value: Value, leaf: LeafNode): Shape
    requires x in s.t && s.t[x].Inner? && x < key
  {
    Shape(AddLeaf(s.t, x, key, value), s.at[x := node][key := LeafPtr(leaf)], s.r, s.repr + node.Repr() + {leaf})
  }

  /** The version `node` of node `x` and the new node `other` share no objects
      with each other or with the other nodes. */
  ghost predicate Separate(s: Shape, x: Key, node: NodePtr, other: NodePtr) {
    && node.Repr() !! other.Repr()
    && (forall z {:trigger s.at[z].Repr()} :: z in s.at && z != x ==> s.at[z].Repr() !! node.Repr())
    && (forall z {:trigger s.at[z].Repr()} :: z in s.at ==> s.at[z].Repr() !! other.Repr())
  }

  lemma NewSeparate(s: Shape, x: Key, node: NodePtr, other: NodePtr)
    requires s.WF() && x in s.t && (node == s.at[x] || node.Repr() !! s.repr)
    requires other.Repr() !! s.repr && node.Repr() !! other.Repr()
    ensures Separate(s, x, node, other)
  {
  }

  lemma WithLeafWF(s: Shape, x: Key, node: NodePtr, key: Key, value: Value, leaf: LeafNode)
    requires s.WF() && x in s.t && s.t[x].Inner? && x < key && key[|x|] !in s.t[x].kids && |key| < KEY_LIMIT
    requires Separate(s, x, node, LeafPtr(leaf))
    ensures WithLeaf(s, x, node, key, value, leaf).WF() && key !in s.t
  {
    hide Tries.WF;
    AddLeafWF(s.t, s.r, x, key, value);
    AddLeafFresh(s.t, s.r, x, key);
  }

  /** The pointers of a node are the same in two shapes that agree on it and on
      the places of its children. */
  lemma PointersAgree(s: Shape, s1: Shape, x: Key, z: Key)
    requires s.WF() && s1.WF() && z in s.t && z in s1.t
    requires s.t[z].Inner? && s1.t[z].Inner? && s.t[z].kids == s1.t[z].kids
    requires forall y :: y in s.at && y in s1.at && y != x ==> s1.at[y] == s.at[y]
    ensures forall b :: b in s.t[z].kids && s.t[z].kids[b] != x ==> s1.PointersOf(z)[b] == s.PointersOf(z)[b]
  {
    hide NodePtr.Repr;
    forall b | b in s.t[z].kids && s.t[z].kids[b] != x ensures s1.PointersOf(z)[b] == s.PointersOf(z)[b] {
      assert KidOk(s.t, z, b) && KidOk(s1.t, z, b);
    }
  }

  lemma WithLeafPointers(s: Shape, x: Key, node: NodePtr, key: Key, value: Value, leaf: LeafNode, s1: Shape, z: Key)
    requires s.WF() && x in s.t && s.t[x].Inner? && x < key && key !in s.t && z in s.t && z != x
    requires s1 == WithLeaf(s, x, node, key, value, leaf) && s1.WF()
    ensures StalePointers(s1, x, s.at[x], z) == s.PointersOf(z)
  {
    hide NodePtr.Repr;
    if s.t[z].Inner? {
      PointersAgree(s, s1, x, z);
      assert x != s.r ==> UpOk(s.t, x) && UpOk(s1.t, x);
      forall b | b in s.t[z].kids ensures StalePointers(s1, x, s.at[x], z)[b] == s.PointersOf(z)[b] {
        if s.t[z].kids[b] == x {
          EdgeUnique(s.t, s.r, x, z, b);
        }
      }
    }
  }

  lemma WithLeafOwnPointers(s: Shape, x: Key, node: NodePtr, key: Key, value: Value, leaf: LeafNode, s1: Shape)
    requires s.WF() && x in s.t && s.t[x].Inner? && x < key && key !in s.t
    requires s1 == WithLeaf(s, x, node, key, value, leaf) && s1.WF()
    ensures StalePointers(s1, x, s.at[x], x) == s.PointersOf(x)[key[|x|] := LeafPtr(leaf)]
  {
    hide NodePtr.Repr;
    forall b | b in s.t[x].kids ensures s.t[x].kids[b] != x && s.t[x].kids[b] != key {
      assert KidOk(s.t, x, b);
    }
  }

  /** A larger copy of a full node, with one more child. */
  method GrowWith(p: NodePtr, b: byte, c: NodePtr) returns (node: NodePtr)
    requires !p.LeafPtr? && !p.Node256Ptr? && p.Valid() && |p.Kids()| < Larger(p.Type()).UpperCapacity()
    ensures !node.LeafPtr? && fresh(node.Repr()) && node.Valid() && node.Type() == Larger(p.Type())
    ensures node.Kids() == p.Kids()[b := c] && node.Header().full == p.Header().full
  {
    hide NodePtr.Valid;
    node := p.Grow();
    node.WriteChild(b, c);
  }

  /** Writes a new child into a node, or into a larger copy if the node is full. */
  method WriteOrCopy(p: NodePtr, b: byte, c: NodePtr) returns (node: NodePtr, copied: bool)
    requires !p.LeafPtr? && p.Valid() && Fits(p.Type(), |p.Kids()|) && b !in p.Kids()
    modifies p.Repr()
    ensures !node.LeafPtr? && node.Valid() && Fits(node.Type(), |node.Kids()|)
    ensures copied <==> |old(p.Kids())| == p.Type().UpperCapacity()
    ensures if copied then fresh(node.Repr()) else node == p
    ensures node.Kids() == old(p.Kids())[b := c] && node.Header().full == old(p.Header().full)
  {
    hide NodePtr.Valid, Fits;
    KeysBelow256(p.Kids(), b, c);
    FitsOneMore(p.Type(), |p.Kids()|);
    p.ValidFacts();
    copied := p.IsFull();
    if copied {
      node := GrowWith(p, b, c);
    } else {
      p.WriteChild(b, c);
      node := p;
    }
  }

  /** The same; a copy gets its place on the heap. */
  method WriteOrGrow(heap: NodeHeap, p: NodePtr, b: byte, c: NodePtr) returns (node: NodePtr)
    requires !p.LeafPtr? && p.Valid() && Fits(p.Type(), |p.Kids()|) && b !in p.Kids()
    requires heap !in p.Repr() && p in heap.live
    modifies p.Repr(), heap
    ensures !node.LeafPtr? && node.Valid() && Fits(node.Type(), |node.Kids()|)
    ensures node != p <==> |old(p.Kids())| == p.Type().UpperCapacity()
    ensures node != p ==> fresh(node.Repr()) && node !in old(heap.live)
    ensures node.Kids() == old(p.Kids())[b := c] && node.Header().full == old(p.Header().full)
    ensures heap.live == old(heap.live) + {node} && heap.early == old(heap.early)
  {
    hide NodePtr.Valid, Fits;
    var copied;
    node, copied := WriteOrCopy(p, b, c);
    if copied {
      heap.Allocate(node);
    }
  }

  /** A node without a child for some byte has fewer than 256 children: a full
      `Node256` has nothing to insert, and never has to grow. */
  lemma KeysBelow256<C>(m: map<byte, C>, b: byte, c: C)
    requires b !in m
    ensures |m| < 256
  {
    AtMost256(m[b := c]);
  }

  /** A node that is not full keeps its layout when it gets one more child; a
      full one gets the next larger layout. */
  lemma FitsOneMore(ty: NodeType, n: nat)
    requires Fits(ty, n) && n < 256
    ensures n < ty.UpperCapacity() ==> Fits(ty, n + 1)
    ensures n == ty.UpperCapacity() ==> ty != Node256 && n < Larger(ty).UpperCapacity() && Fits(Larger(ty), n + 1)
  {
  }

  /** If only node `x` changed, and its new version has the new leaf, then all
      that is left to do is to write the edge to it. */
  lemma WithLeafPending(s: Shape, x: Key, node: NodePtr, key: Key, value: Value, leaf: LeafNode, s1: Shape)
    requires s.WF() && x in s.t && s.t[x].Inner? && x < key && key !in s.t
    requires s1 == WithLeaf(s, x, node, key, value, leaf) && s1.WF()
    requires LinkedElsewhere(s, {x})
    requires Linked(node, x, s1.t[x], s.PointersOf(x)[key[|x|] := LeafPtr(leaf)])
    requires leaf.key == key && leaf.value == value
    ensures EdgePending(s1, x, s.at[x])
  {
    WithLeafOwnPointers(s, x, node, key, value, leaf, s1);
    assert NodeOk(s1.t, x);
    forall z | z in s1.t ensures PendingAt(s1, x, s.at[x], z) {
      if z != x && z != key {
        assert s.LinkedAt(z);
        WithLeafPointers(s, x, node, key, value, leaf, s1, z);
      }
    }
  }

  /** Allocates the new leaf and writes it into the node at `x`. */
  method WriteNewLeaf(heap: NodeHeap, ghost s: Shape, ghost x: Key, p: NodePtr, key: Key, value: Value, b: byte)
    returns (node: NodePtr, leaf: LeafNode)
    requires StoredAt(s, x, p) && s.t[x].Inner? && b !in s.t[x].kids && Accounts(heap, s)
    modifies s.repr, heap
    ensures fresh(leaf) && leaf.key == key && leaf.value == value
    ensures fresh(node.Repr() - s.repr) && Separate(s, x, node, LeafPtr(leaf))
    ensures !node.LeafPtr? && node.Valid() && Fits(node.Type(), |node.Kids()|)
    ensures node.Kids() == s.PointersOf(x)[b := LeafPtr(leaf)]
    ensures s.t[x].start <= |x| && node.Header().full == x[s.t[x].start..]
    ensures LinkedElsewhere(s, {x})
    ensures node != p <==> Full(s.t, x)
    ensures node == p || node !in Places(s.at)
    ensures heap.live == Places(s.at) + {node} + {LeafPtr(leaf)} && heap.early == old(heap.early)
  {
    hide NodePtr.Valid, NodePtr.Kids, Fits, Places, Separate, Tries.WF;
    Stored(s, x, p);
    KeysBelow256(p.Kids(), b, p);
    FullNode(p.Type(), |p.Kids()|);
    assert s.LinkedAt(x);
    leaf := new LeafNode(key, value);
    heap.Allocate(LeafPtr(leaf));
    PlaceLive(s.at, x);
    node := WriteOrGrow(heap, p, b, LeafPtr(leaf));
    NewSeparate(s, x, node, LeafPtr(leaf));
    forall z | z in s.t && z != x ensures s.LinkedAt(z) {
      assert s.at[z].Repr() !! s.at[x].Repr();
      assert old(s.LinkedAt(z));
    }
  }

  /** The node has no room for one more child. A `Node256` always has. */
  ghost predicate Full(t: Trie, x: Key)
    requires x in t && t[x].Inner?
  {
    |t[x].kids| in {4, 16, 48}
  }

  lemma FullNode(ty: NodeType, n: nat)
    requires Fits(ty, n) && n < 256
    ensures n == ty.UpperCapacity() <==> n in {4, 16, 48}
  {
  }

  /** `write_new_child_in_existing_node`. A node that was replaced is freed when the
      edge to it, or the root of the map, still leads to it. */
  method WriteIntoExisting(heap: NodeHeap, ghost s: Shape, ghost x: Key, p: NodePtr, key: Key, value: Value, used: nat)
    returns (node: NodePtr, leaf: LeafNode, ghost s1: Shape)
    requires TypeOk(s, x, key, IntoExisting(p), used) && |key| < KEY_LIMIT && Accounts(heap, s)
    modifies s.repr, heap
    ensures EdgePending(s1, x, p) && Accounts(heap, s1)
    ensures s1 == WithLeaf(s, x, node, key, value, leaf) && fresh(s1.repr - s.repr)
    ensures node == p || node !in Places(s.at)
    ensures heap.early == old(heap.early) + if Full(s.t, x) then [p] else []
  {
    hide NodePtr.Valid, Fits, Places, Separate, Linked, EdgePending, NodeHeap.Reaches;
    AddLeafFresh(s.t, s.r, x, key);
    node, leaf := WriteNewLeaf(heap, s, x, p, key, value, key[used]);
    s1 := WithLeaf(s, x, node, key, value, leaf);
    WithLeafWF(s, x, node, key, value, leaf);
    WithLeafPending(s, x, node, key, value, leaf, s1);
    LeafAccounted(s, x, node, key, leaf);
    PlaceLive(s.at, x);
    if node != p {
      Reachability.FreeStale(heap, s1, x, p, s.at[s.r]);
    }
  }

  lemma LeafAccounted(s: Shape, x: Key, node: NodePtr, key: Key, leaf: LeafNode)
    requires s.WF() && x in s.t && key !in s.t
    ensures Places(s.at[x := node][key := LeafPtr(leaf)]) == Places(s.at) - {s.at[x]} + {node} + {LeafPtr(leaf)}
  {
    PlacesDistinct(s, x);
    ReplacedValues(s.at, x, node);
    AddedValues(s.at[x := node], key, LeafPtr(leaf));
  }
}
