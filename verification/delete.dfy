/** Removing a leaf: shrinking its parent, or merging it into its only child. */
module Delete {
  import opened Bytes
  import opened Headers
  import opened Layouts
  import opened Tries
  import opened Surgery
  import opened Nodes
  import opened Shapes
  import opened Heaps
  import opened Pending
  import opened InsertSearch
  import opened DeleteSearch
  import Reachability
  import Insert

  /** The shape after leaf `k` was removed from `f`, which is now at `node`. */
  ghost function WithoutLeaf(s: Shape, k: Key, f: Key, node: NodePtr): Shape
    requires k in s.t && k in s.at && UpOk(s.t, k) && Parent(s.t, k) == f
  {
    Shape(DropLeaf(s.t, k), (s.at - {k})[f := node], s.r, s.repr - s.at[k].Repr() + node.Repr())
  }

  /** The shape after leaf `k` was removed and its parent `f` merged into `c`. */
  ghost function Merged(s: Shape, k: Key, f: Key, c: Key): Shape
    requires MergesInto(s.t, s.r, k, f, c) && k in s.at
  {
    Shape(Merge(s.t, k, f, c), s.at - {k, f}, NewRoot(s.r, f, c), s.repr - s.at[k].Repr())
  }

  lemma WithoutLeafWF(s: Shape, k: Key, f: Key, node: NodePtr)
    requires s.WF() && HangsFrom(s.t, s.r, k, f) && s.t[k].Leaf? && 3 <= |s.t[f].kids|
    requires node == s.at[f] || node.Repr() !! s.repr
    ensures WithoutLeaf(s, k, f, node).WF()
  {
    hide Tries.WF;
    DropLeafWF(s.t, s.r, k, f);
  }

  lemma MergedWF(s: Shape, k: Key, f: Key, c: Key)
    requires s.WF() && MergesInto(s.t, s.r, k, f, c)
    ensures Merged(s, k, f, c).WF()
  {
    hide Tries.WF;
    MergeWF(s.t, s.r, k, f, c);
  }

  lemma WithoutLeafPointers(s: Shape, k: Key, f: Key, node: NodePtr, s1: Shape, z: Key)
    requires s.WF() && HangsFrom(s.t, s.r, k, f) && s.t[k].Leaf? && z in s.t && z != k && z != f
    requires s1 == WithoutLeaf(s, k, f, node) && s1.WF()
    ensures s1.t[z] == s.t[z] && StalePointers(s1, f, s.at[f], z) == s.PointersOf(z)
  {
    hide NodePtr.Repr;
    if s.t[z].Inner? {
      assert f != s.r ==> UpOk(s.t, f) && UpOk(s1.t, f);
      forall b | b in s.t[z].kids ensures StalePointers(s1, f, s.at[f], z)[b] == s.PointersOf(z)[b] {
        assert KidOk(s.t, z, b);
        if s.t[z].kids[b] == f || s.t[z].kids[b] == k {
          EdgeUnique(s.t, s.r, s.t[z].kids[b], z, b);
        }
      }
    }
  }

  lemma WithoutLeafOwnPointers(s: Shape, k: Key, f: Key, node: NodePtr, s1: Shape)
    requires s.WF() && HangsFrom(s.t, s.r, k, f) && s.t[k].Leaf?
    requires s1 == WithoutLeaf(s, k, f, node) && s1.WF()
    ensures StalePointers(s1, f, s.at[f], f) == s.PointersOf(f) - {k[|f|]}
  {
    hide NodePtr.Repr;
    assert f != s.r ==> UpOk(s1.t, f);
    forall b | b in s1.t[f].kids ensures s1.PointersOf(f)[b] == s.PointersOf(f)[b] {
      assert KidOk(s.t, f, b) && KidOk(s1.t, f, b);
    }
  }

  /** If only the parent changed, and its new version has lost the leaf, then all
      that is left to do is to write the edge to it. */
  lemma WithoutLeafPending(s: Shape, k: Key, f: Key, node: NodePtr, s1: Shape)
    requires s.WF() && HangsFrom(s.t, s.r, k, f) && s.t[k].Leaf?
    requires s1 == WithoutLeaf(s, k, f, node) && s1.WF()
    requires LinkedElsewhere(s, {f})
    requires Linked(node, f, s1.t[f], s.PointersOf(f) - {k[|f|]})
    ensures EdgePending(s1, f, s.at[f])
  {
    hide Linked;
    WithoutLeafOwnPointers(s, k, f, node, s1);
    assert NodeOk(s1.t, f);
    forall z | z in s1.t ensures PendingAt(s1, f, s.at[f], z) {
      if z != f {
        assert s.LinkedAt(z);
        WithoutLeafPointers(s, k, f, node, s1, z);
      }
    }
  }

  /** After a merge, the child hangs where its parent hung. */
  lemma MergedParent(s: Shape, k: Key, f: Key, c: Key, s1: Shape)
    requires s.WF() && MergesInto(s.t, s.r, k, f, c)
    requires s1 == Merged(s, k, f, c) && s1.WF()
    ensures c in s1.t && (c == s1.r <==> f == s.r)
    ensures f != s.r ==> UpOk(s1.t, c) && Parent(s1.t, c) == Parent(s.t, f) && s1.r == s.r
    ensures f != s.r ==> c[s1.t[c].start - 1] == f[s.t[f].start - 1]
    ensures s1.t[c] == s.t[c].(start := s.t[f].start) && NodeOk(s1.t, c)
  {
    assert c[..|f|] == f;
    if f != s.r {
      assert UpOk(s1.t, c);
      assert c[..s.t[f].start - 1] == f[..s.t[f].start - 1];
    }
  }

  /** Of the nodes that stay, only the child changes, in where it begins, and the
      grandparent, in where an edge leads. */
  lemma MergedDesc(t: Trie, r: Key, k: Key, f: Key, c: Key, z: Key)
    requires MergesInto(t, r, k, f, c) && z in Merge(t, k, f, c) && z != c
    ensures var e := Merge(t, k, f, c)[z];
      && z in t && z != f && (e.Leaf? <==> t[z].Leaf?) && e.start == t[z].start && (e.Leaf? ==> e == t[z])
      && (e.Inner? ==> e.kids.Keys == t[z].kids.Keys)
  {
  }

  lemma MergedPointer(s: Shape, k: Key, f: Key, c: Key, s1: Shape, z: Key, b: byte)
    requires s.WF() && MergesInto(s.t, s.r, k, f, c)
    requires s1 == Merged(s, k, f, c) && s1.WF() && z in s1.t && s.t[z].Inner? && b in s.t[z].kids
    ensures s1.t[z].Inner? && b in s1.t[z].kids && StalePointers(s1, c, s.at[f], z)[b] == s.PointersOf(z)[b]
  {
    hide NodePtr.Repr;
    MergedParent(s, k, f, c, s1);
    assert KidOk(s.t, z, b);
    var y := s.t[z].kids[b];
    if y == f || y == k || y == c {
      EdgeUnique(s.t, s.r, y, z, b);
    }
  }

  lemma MergedPointers(s: Shape, k: Key, f: Key, c: Key, s1: Shape, z: Key)
    requires s.WF() && MergesInto(s.t, s.r, k, f, c)
    requires s1 == Merged(s, k, f, c) && s1.WF() && z in s1.t
    ensures z in s.t && StalePointers(s1, c, s.at[f], z) == s.PointersOf(z)
  {
    hide Tries.WF, NodePtr.Repr;
    MergedParent(s, k, f, c, s1);
    if z != c {
      MergedDesc(s.t, s.r, k, f, c, z);
    }
    if s.t[z].Inner? {
      forall b | b in s.t[z].kids
        ensures b in s1.t[z].kids && StalePointers(s1, c, s.at[f], z)[b] == s.PointersOf(z)[b]
      {
        MergedPointer(s, k, f, c, s1, z, b);
      }
    }
  }

  /** If the child's prefix now begins where the parent's began, then all that is
      left to do is to write the edge to the child. */
  lemma MergedPending(s: Shape, k: Key, f: Key, c: Key, s1: Shape)
    requires s.WF() && MergesInto(s.t, s.r, k, f, c)
    requires s1 == Merged(s, k, f, c) && s1.WF()
    requires LinkedElsewhere(s, {f, c})
    requires Linked(s.at[c], c, s.t[c].(start := s.t[f].start), s.PointersOf(c))
    ensures c in s1.t && EdgePending(s1, c, s.at[f])
  {
    hide Linked, Tries.WF;
    MergedParent(s, k, f, c, s1);
    forall z | z in s1.t ensures PendingAt(s1, c, s.at[f], z) {
      MergedPointers(s, k, f, c, s1, z);
      if z != c {
        MergedDesc(s.t, s.r, k, f, c, z);
        assert s.LinkedAt(z);
        LinkedAlike(s.at[z], z, s.t[z], s1.t[z], s.PointersOf(z));
      }
    }
  }

  lemma WithoutLeafAccounted(s: Shape, k: Key, f: Key, node: NodePtr)
    requires s.WF() && k in s.t && f in s.t && k != f
    ensures Places((s.at - {k})[f := node]) == Places(s.at) - {s.at[k]} - {s.at[f]} + {node}
  {
    PlacesDistinct(s, k);
    PlacesDistinct(s, f);
    RemovedValues(s.at, k);
    ReplacedValues(s.at - {k}, f, node);
  }

  lemma MergedAccounted(s: Shape, k: Key, f: Key)
    requires s.WF() && k in s.t && f in s.t && k != f
    ensures Places(s.at - {k, f}) == Places(s.at) - {s.at[k]} - {s.at[f]}
  {
    PlacesDistinct(s, k);
    PlacesDistinct(s, f);
    RemovedValues(s.at, k);
    RemovedValues(s.at - {k}, f);
    assert s.at - {k, f} == s.at - {k} - {f};
  }

  /** A node keeps its layout when it loses a child, unless it should shrink; then
      the next smaller layout fits. Shrinking and growing thresholds never overlap. */
  lemma FitsOneLess(ty: NodeType, n: nat)
    requires Fits(ty, n) && 3 <= n
    ensures if ty.ShouldShrink(n - 1) then Fits(Smaller(ty), n - 1) else Fits(ty, n - 1)
  {
  }

  /** The prefix of the parent, the edge byte and the prefix of the child, from
      what the two headers store of them. */
  method PrependPrefix(parentHeader: Header, b: byte, childHeader: Header)
    requires parentHeader.Valid() && childHeader.Valid()
    requires {parentHeader, parentHeader.prefix} !! {childHeader, childHeader.prefix}
    requires |parentHeader.full| + 1 + |childHeader.full| < KEY_LIMIT
    modifies childHeader, childHeader.prefix
    ensures childHeader.Valid() && childHeader.numChildren == old(childHeader.numChildren)
    ensures childHeader.full == parentHeader.full + [b] + old(childHeader.full)
  {
    var parentPrefix := parentHeader.ReadPrefix();
    var parentLen := parentHeader.prefixLen;
    var oldPrefix, oldLen, oldCappedLen := childHeader.ClearPrefix();
    childHeader.PushPrefix(parentPrefix, parentLen, parentHeader.full);
    childHeader.PushPrefix([b], 1, [b]);
    childHeader.PushPrefix(oldPrefix[..oldCappedLen], oldLen, old(childHeader.full));
  }

  /** The child takes over the prefix of its parent. */
  method MergePrefix(p: NodePtr, b: byte, c: NodePtr)
    requires !p.LeafPtr? && p.Valid() && !c.LeafPtr? && c.Valid() && p.Repr() !! c.Repr()
    requires |p.Header().full| + 1 + |c.Header().full| < KEY_LIMIT
    modifies c.Repr()
    ensures c.Valid() && c.Kids() == old(c.Kids())
    ensures c.Header().full == p.Header().full + [b] + old(c.Header().full)
  {
    hide NodePtr.Valid;
    p.ValidFacts();
    c.ValidFacts();
    PrependPrefix(p.Header(), b, c.Header());
    c.HeaderChanged();
  }

  /** Takes leaf `k` out of its parent. */
  method RemoveFrom(ghost s: Shape, ghost k: Key, ghost f: Key, p: NodePtr, b: byte)
    requires StoredAt(s, f, p) && HangsFrom(s.t, s.r, k, f) && s.t[k].Leaf? && b == k[|f|]
    modifies s.repr
    ensures LinkedElsewhere(s, {f}) && s.at[f] == p
    ensures Removed(s, k, f, p) && Fits(p.Type(), |s.t[f].kids|)
  {
    hide NodePtr.Valid, Fits;
    Stored(s, f, p);
    assert s.LinkedAt(f);
    RemoveSize(p.Kids(), b);
    var removed := p.RemoveChild(b);
    assert removed.Some?;
  }

  /** Node `p` at path `f` has lost leaf `k`, and is otherwise as `s` says. */
  ghost predicate Removed(s: Shape, k: Key, f: Key, p: NodePtr)
    requires s.WF() && f in s.t && |f| < |k|
    reads p.Repr()
  {
    && !p.LeafPtr? && p.Valid() && s.t[f].Inner? && p.Kids() == s.PointersOf(f) - {k[|f|]}
    && s.t[f].start <= |f| && p.Header().full == f[s.t[f].start..]
    && |p.Kids()| == |s.t[f].kids| - 1 && p.Repr() <= s.repr
  }

  /** A node that is left with one child is merged into it. */
  method MergeIntoChild(ghost s: Shape, ghost k: Key, ghost f: Key, p: NodePtr) returns (c: NodePtr, ghost x: Key)
    requires s.WF() && HangsFrom(s.t, s.r, k, f) && s.t[k].Leaf? && s.at[f] == p
    requires LinkedElsewhere(s, {f}) && Removed(s, k, f, p) && |p.Kids()| == 1
    modifies s.repr
    ensures MergesInto(s.t, s.r, k, f, x) && c == s.at[x]
    ensures LinkedElsewhere(s, {f, x})
    ensures Linked(c, x, s.t[x].(start := s.t[f].start), s.PointersOf(x))
  {
    hide NodePtr.Valid, Linked, LinkedElsewhere;
    var ks, cs := p.Iter();
    SingleEntry(ks, cs, p.Kids());
    assert |ks| == 1;
    var b := ks[0];
    c := cs[0];
    assert (s.t[f].kids - {k[|f|]}).Keys == p.Kids().Keys;
    x := s.t[f].kids[b];
    OnlyChild(s, k, f, b, x);
    MoveUp(s, f, x, p, b, c);
  }

  /** The only child begins where its parent began. */
  method MoveUp(ghost s: Shape, ghost f: Key, ghost x: Key, p: NodePtr, b: byte, c: NodePtr)
    requires LinkedElsewhere(s, {f}) && f in s.t && x in s.t && x != f && p == s.at[f] && c == s.at[x]
    requires !p.LeafPtr? && p.Valid() && s.t[f].start <= |f| && p.Header().full == f[s.t[f].start..]
    requires |f| < |x| < KEY_LIMIT && x[|f|] == b && x[..|f|] == f && s.t[x].start == |f| + 1
    modifies s.repr
    ensures LinkedElsewhere(s, {f, x})
    ensures Linked(c, x, s.t[x].(start := s.t[f].start), s.PointersOf(x))
  {
    hide NodePtr.Valid, Tries.WF, Fits;
    assert s.LinkedAt(x);
    if !c.LeafPtr? {
      MergePrefix(p, b, c);
      PathParts(f, x, s.t[f].start);
    }
  }

  lemma PathParts(f: Key, x: Key, start: nat)
    requires start <= |f| < |x| && x[..|f|] == f
    ensures f[start..] + [x[|f|]] + x[|f| + 1..] == x[start..]
  {
    assert x == x[..|f|] + x[|f|..];
  }

  lemma SingleEntry<C>(ks: seq<byte>, cs: seq<C>, m: map<byte, C>)
    requires Lists(ks, cs, m) && |m| == 1
    ensures |ks| == |cs| == 1 && m == map[ks[0] := cs[0]]
  {
    ListsSize(ks, cs, m);
    assert Holds(m, ks[0], cs[0]);
    forall b | b in m ensures b == ks[0] {
      assert b in ks;
    }
  }

  lemma OnlyChild(s: Shape, k: Key, f: Key, b: byte, x: Key)
    requires s.WF() && HangsFrom(s.t, s.r, k, f) && s.t[k].Leaf?
    requires (s.t[f].kids - {k[|f|]}).Keys == {b} && x == s.t[f].kids[b]
    ensures MergesInto(s.t, s.r, k, f, x) && |f| < |x| < KEY_LIMIT && x[|f|] == b && x[..|f|] == f
    ensures s.t[x].start == |f| + 1 && x != f && NodeOk(s.t, x)
  {
    assert KidOk(s.t, f, b) && NodeOk(s.t, x);
    EdgeUnique(s.t, s.r, x, f, b);
    assert s.t[f].kids.Keys == (s.t[f].kids - {k[|f|]}).Keys + {k[|f|]};
  }

  /** The node at `node` holds what is left of node `f`, or its only child took
      its place; all that is left to do is to write the edge to it. */
  ghost predicate Compressed(s: Shape, k: Key, s1: Shape, x: Key, node: NodePtr, stale: NodePtr, edge: Option<Edge>)
    reads s1.repr
  {
    && s.WF() && EdgePending(s1, x, stale) && node == s1.at[x]
    && Contents(s1.t) == Contents(s.t) - {k}
    && ParentEdge(s1, x, edge) && (edge.Some? ==> s1.at[s1.r] == s.at[s.r])
  }

  lemma CompressedDrop(s: Shape, k: Key, f: Key, node: NodePtr, edge: Option<Edge>, s1: Shape)
    requires s.WF() && HangsFrom(s.t, s.r, k, f) && s.t[k].Leaf? && s1 == WithoutLeaf(s, k, f, node)
    requires EdgePending(s1, f, s.at[f]) && ParentEdge(s, f, edge)
    ensures Compressed(s, k, s1, f, node, s.at[f], edge)
  {
    DropLeafContents(s.t, k);
    if f != s.r {
      assert UpOk(s1.t, f);
    }
  }

  lemma CompressedMerge(s: Shape, k: Key, f: Key, c: Key, edge: Option<Edge>, s1: Shape)
    requires s.WF() && MergesInto(s.t, s.r, k, f, c) && s1 == Merged(s, k, f, c)
    requires c in s1.t && EdgePending(s1, c, s.at[f]) && ParentEdge(s, f, edge)
    ensures Compressed(s, k, s1, c, s.at[c], s.at[f], edge)
  {
    MergeContents(s.t, s.r, k, f, c);
    MergedParent(s, k, f, c, s1);
  }

  /** Node `p` keeps at least two children. */
  lemma KeepsTwo(s: Shape, k: Key, f: Key, p: NodePtr, node: NodePtr, s1: Shape)
    requires s.WF() && HangsFrom(s.t, s.r, k, f) && s.t[k].Leaf? && s.at[f] == p && 3 <= |s.t[f].kids|
    requires LinkedElsewhere(s, {f}) && (node == p || node.Repr() !! s.repr) && s1 == WithoutLeaf(s, k, f, node)
    requires !node.LeafPtr? && node.Valid() && node.Kids() == s.PointersOf(f) - {k[|f|]}
    requires s.t[f].start <= |f| && node.Header().full == f[s.t[f].start..]
    requires Fits(node.Type(), |node.Kids()|)
    ensures EdgePending(s1, f, p)
  {
    WithoutLeafWF(s, k, f, node);
    WithoutLeafPending(s, k, f, node, s1);
  }

  lemma OnlyOneLeft(s: Shape, k: Key, f: Key, c: Key, s1: Shape)
    requires s.WF() && MergesInto(s.t, s.r, k, f, c) && s1 == Merged(s, k, f, c)
    requires LinkedElsewhere(s, {f, c})
    requires Linked(s.at[c], c, s.t[c].(start := s.t[f].start), s.PointersOf(c))
    ensures c in s1.t && EdgePending(s1, c, s.at[f])
  {
    MergedWF(s, k, f, c);
    MergedPending(s, k, f, c, s1);
  }

  /** When the node that gives way is freed, the map still has it as its root, or the
      root as before. */
  lemma DropRoot(s: Shape, k: Key, f: Key, node: NodePtr, s1: Shape)
    requires s.WF() && HangsFrom(s.t, s.r, k, f) && s1 == WithoutLeaf(s, k, f, node) && s1.WF()
    ensures s.r in s.at && s1.r in s1.at && s.at[s.r] == if f == s1.r then s.at[f] else s1.at[s1.r]
    ensures Places(s1.at) <= Places(s.at) + {node}
  {
    WithoutLeafAccounted(s, k, f, node);
  }

  lemma MergeRoot(s: Shape, k: Key, f: Key, c: Key, s1: Shape)
    requires s.WF() && MergesInto(s.t, s.r, k, f, c) && s1 == Merged(s, k, f, c) && s1.WF()
    ensures s.r in s.at && s1.r in s1.at && s.at[s.r] == if c == s1.r then s.at[f] else s1.at[s1.r]
    ensures Places(s1.at) <= Places(s.at)
  {
    MergedAccounted(s, k, f);
    MergedParent(s, k, f, c, s1);
  }

  /** The nodes on the heap are those of `s1` and the removed leaf `k`. */
  ghost predicate AccountsBut(heap: NodeHeap, s1: Shape, leaf: NodePtr)
    reads heap
  {
    heap !in s1.repr && heap.live == Places(s1.at) + {leaf} && leaf !in Places(s1.at)
  }

  lemma AccountsDrop(heap: NodeHeap, s: Shape, k: Key, f: Key, node: NodePtr, s1: Shape)
    requires s.WF() && HangsFrom(s.t, s.r, k, f) && s1 == WithoutLeaf(s, k, f, node)
    requires heap.live == Places(s.at) - {s.at[f]} + {node} && (node == s.at[f] || node !in Places(s.at))
    requires heap !in s1.repr
    ensures AccountsBut(heap, s1, s.at[k])
  {
    hide Tries.WF, Shape.WF;
    ShapeKeys(s);
    WithoutLeafAccounted(s, k, f, node);
    PlacesDistinct(s, k);
    PlaceLive(s.at, k);
  }

  lemma AccountsMerge(heap: NodeHeap, s: Shape, k: Key, f: Key, c: Key, s1: Shape)
    requires s.WF() && MergesInto(s.t, s.r, k, f, c) && s1 == Merged(s, k, f, c)
    requires heap.live == Places(s.at) - {s.at[f]} && heap !in s1.repr
    ensures AccountsBut(heap, s1, s.at[k])
  {
    hide Tries.WF, Shape.WF;
    ShapeKeys(s);
    MergedAccounted(s, k, f);
    PlacesDistinct(s, k);
    PlaceLive(s.at, k);
  }

  /** The removed leaf is as it was, and no longer shares objects with the tree. */
  lemma LeafApart(s: Shape, k: Key, f: Key, node: NodePtr, xs: set<Key>)
    requires LinkedElsewhere(s, xs) && k in s.t && k !in xs && f in s.t && k != f
    requires node == s.at[f] || node.Repr() !! s.repr
    ensures s.LinkedAt(k) && s.at[k].Repr() !! s.repr - s.at[k].Repr() + node.Repr()
  {
    assert s.at[k].Repr() !! s.at[f].Repr();
  }

  /** A copy in the next smaller layout, if the node has few enough children; the
      copy gets its place on the heap. */
  method ShrinkIfFew(heap: NodeHeap, p: NodePtr) returns (shrunk: Option<NodePtr>, ghost node: NodePtr)
    requires !p.LeafPtr? && p.Valid() && 2 <= |p.Kids()| && Fits(p.Type(), |p.Kids()| + 1)
    requires heap !in p.Repr() && p in heap.live
    modifies heap
    ensures node == if shrunk.Some? then shrunk.value else p
    ensures shrunk.Some? <==> p.Type().ShouldShrink(|p.Kids()|)
    ensures !node.LeafPtr? && node.Valid() && Fits(node.Type(), |node.Kids()|)
    ensures shrunk.Some? ==> node != p && fresh(node.Repr()) && node !in old(heap.live)
    ensures node.Kids() == p.Kids() && node.Header().full == p.Header().full
    ensures heap.live == old(heap.live) + {node} && heap.early == old(heap.early)
  {
    hide NodePtr.Valid, Fits;
    FitsOneLess(p.Type(), |p.Kids()| + 1);
    p.ValidFacts();
    node := p;
    shrunk := None;
    if p.Type().ShouldShrink(p.Header().numChildren) {
      var q := p.Shrink();
      heap.Allocate(q);
      return Some(q), q;
    }
  }

  /** After the removal of one child the node gives its place to another node: to
      its only child, or to a smaller copy of itself. */
  ghost predicate GivesWay(t: Trie, f: Key)
    requires f in t && t[f].Inner?
  {
    |t[f].kids| in {2, 5, 17, 49}
  }

  lemma ShrinkNode(ty: NodeType, n: nat)
    requires Fits(ty, n) && 3 <= n
    ensures ty.ShouldShrink(n - 1) <==> n in {2, 5, 17, 49}
  {
  }

  /** A node that is left with at least two children is shrunk if it has few. */
  method KeepOrShrink(heap: NodeHeap, ghost s: Shape, ghost k: Key, ghost f: Key, p: NodePtr, ghost edge: Option<Edge>)
    returns (newParent: Option<NodePtr>, ghost s1: Shape)
    requires s.WF() && HangsFrom(s.t, s.r, k, f) && s.t[k].Leaf? && s.at[f] == p && 3 <= |s.t[f].kids|
    requires LinkedElsewhere(s, {f}) && Removed(s, k, f, p) && Fits(p.Type(), |s.t[f].kids|)
    requires ParentEdge(s, f, edge) && Accounts(heap, s)
    modifies heap
    ensures Compressed(s, k, s1, f, if newParent.Some? then newParent.value else p, p, edge)
    ensures AccountsBut(heap, s1, s.at[k]) && fresh(s1.repr - s.repr) && s1.r == s.r
    ensures s.LinkedAt(k) && s.at[k].Repr() !! s1.repr
    ensures newParent.Some? <==> GivesWay(s.t, f)
    ensures newParent.Some? ==> p !in heap.live
    ensures heap.early == old(heap.early) + if GivesWay(s.t, f) then [p] else []
  {
    hide NodePtr.Valid, Linked, LinkedElsewhere, Places, EdgePending, Compressed, Fits, NodePtr.Repr, Tries.WF,
      ParentEdge, AccountsBut, NodeHeap.Reaches;
    PlaceLive(s.at, f);
    ShrinkNode(p.Type(), |s.t[f].kids|);
    ghost var node;
    newParent, node := ShrinkIfFew(heap, p);
    s1 := WithoutLeaf(s, k, f, node);
    LeafApart(s, k, f, node, {f});
    KeepsTwo(s, k, f, p, node, s1);
    if newParent.Some? {
      PendingKeys(s1, f, p);
      DropRoot(s, k, f, node, s1);
      Reachability.FreeStale(heap, s1, f, p, s.at[s.r]);
    }
    CompressedDrop(s, k, f, node, edge, s1);
    AccountsDrop(heap, s, k, f, node, s1);
  }

  /** A node that is left with one child gives its place to it and is freed. */
  method Compress(heap: NodeHeap, ghost s: Shape, ghost k: Key, ghost f: Key, p: NodePtr, ghost edge: Option<Edge>)
    returns (child: NodePtr, ghost s1: Shape, ghost x: Key)
    requires s.WF() && HangsFrom(s.t, s.r, k, f) && s.t[k].Leaf? && s.at[f] == p
    requires LinkedElsewhere(s, {f}) && Removed(s, k, f, p) && |p.Kids()| == 1
    requires ParentEdge(s, f, edge) && Accounts(heap, s)
    modifies s.repr, heap
    ensures Compressed(s, k, s1, x, child, p, edge)
    ensures AccountsBut(heap, s1, s.at[k]) && s1.repr <= s.repr
    ensures s.LinkedAt(k) && s.at[k].Repr() !! s1.repr
    ensures p !in heap.live && heap.early == old(heap.early) + [p]
  {
    hide NodePtr.Valid, Linked, LinkedElsewhere, Places, EdgePending, Compressed, NodePtr.Repr, Tries.WF, ParentEdge,
      AccountsBut, NodeHeap.Reaches;
    PlaceLive(s.at, f);
    child, x := MergeIntoChild(s, k, f, p);
    s1 := Merged(s, k, f, x);
    LeafApart(s, k, f, p, {f, x});
    OnlyOneLeft(s, k, f, x, s1);
    PendingKeys(s1, x, p);
    MergeRoot(s, k, f, x, s1);
    Reachability.FreeStale(heap, s1, x, p, s.at[s.r]);
    CompressedMerge(s, k, f, x, edge, s1);
    AccountsMerge(heap, s, k, f, x, s1);
  }

  /** `remove_child_from_inner_node_and_compress`. */
  method RemoveChildAndCompress(heap: NodeHeap, ghost s: Shape, ghost k: Key, ghost f: Key, p: NodePtr, b: byte,
                                ghost edge: Option<Edge>)
    returns (newParent: Option<NodePtr>, ghost s1: Shape, ghost x: Key)
    requires StoredAt(s, f, p) && HangsFrom(s.t, s.r, k, f) && s.t[k].Leaf? && b == k[|f|]
    requires ParentEdge(s, f, edge) && Accounts(heap, s)
    modifies s.repr, heap
    ensures Compressed(s, k, s1, x, if newParent.Some? then newParent.value else p, p, edge)
    ensures AccountsBut(heap, s1, s.at[k]) && fresh(s1.repr - s.repr)
    ensures newParent.None? ==> s1.r == s.r
    ensures s.LinkedAt(k) && s.at[k].Repr() !! s1.repr
    ensures newParent.Some? <==> GivesWay(s.t, f)
    ensures newParent.Some? ==> p !in heap.live
    ensures heap.early == old(heap.early) + if GivesWay(s.t, f) then [p] else []
  {
    hide NodePtr.Valid, Linked, LinkedElsewhere, Places, EdgePending, Compressed, Fits, NodePtr.Repr, Tries.WF,
      ParentEdge, AccountsBut;
    RemoveFrom(s, k, f, p, b);
    p.ValidFacts();
    if p.Header().numChildren == 1 {
      var child;
      child, s1, x := Compress(heap, s, k, f, p, edge);
      newParent := Some(child);
    } else {
      newParent, s1 := KeepOrShrink(heap, s, k, f, p, edge);
      x := f;
    }
  }

  /** The root after the deletion, if any, and the leaf that was taken out. */
  datatype DeleteResult = DeleteResult(newRoot: Option<NodePtr>, deleted: LeafNode)

  /** A tree whose root is a leaf has no other node. */
  lemma LeafRoot(t: Trie, r: Key)
    requires WF(t, r) && t[r].Leaf?
    ensures t.Keys == {r}
  {
    forall x | x in t ensures x == r {
      Relate(t, r, r, x);
    }
  }

  lemma SingleLeaf(s: Shape)
    requires s.WF() && s.t[s.r].Leaf?
    ensures Contents(s.t) - {s.r} == map[] && Places(s.at) == {s.at[s.r]}
  {
    LeafRoot(s.t, s.r);
    PlaceLive(s.at, s.r);
  }

  /** Leaf `k` hangs from its parent by the edge that the search found. */
  lemma LeafHangs(s: Shape, k: Key, point: DeletePoint)
    requires LeafPoint(s, k, point)
    ensures point.parent.None? ==> k == s.r && point.grandparent.None?
    ensures s.WF() && s.t[k].Leaf? && s.at[k] == LeafPtr(point.leaf)
    ensures point.leaf.key == k && point.leaf.value == s.t[k].value && point.leaf in s.repr
    ensures point.parent.Some? ==>
      k != s.r && UpOk(s.t, k) &&
      var f := Parent(s.t, k);
      && HangsFrom(s.t, s.r, k, f) && StoredAt(s, f, point.parent.value.0)
      && point.parent.value.1 == k[|f|] && ParentEdge(s, f, point.grandparent)
  {
    Stored(s, k, LeafPtr(point.leaf));
    assert point.leaf in s.at[k].Repr();
    if k != s.r {
      var f := Parent(s.t, k);
      Stored(s, f, s.at[f]);
    }
  }

  /** The node that is still reached when removing leaf `k` frees it: the leaf itself
      if it is the root, or else its parent, if that gives way to another node. */
  ghost function FreedEarly(s: Shape, k: Key): seq<NodePtr>
    requires s.WF() && k in s.t && s.t[k].Leaf?
  {
    if k == s.r then [s.at[k]]
    else
      assert UpOk(s.t, k);
      var f := Parent(s.t, k);
      if GivesWay(s.t, f) then [s.at[f]] else []
  }

  /** `inner_delete_non_root_unchecked`. */
  method DeleteNonRoot(heap: NodeHeap, ghost s: Shape, ghost k: Key, leaf: LeafNode, parent: Edge,
                       grandparent: Option<Edge>, originalRoot: NodePtr)
    returns (newRoot: NodePtr, ghost s1: Shape)
    requires LeafPoint(s, k, DeletePoint(grandparent, Some(parent), leaf))
    requires StoredAt(s, s.r, originalRoot) && Accounts(heap, s)
    modifies s.repr, heap
    ensures StoredAt(s1, s1.r, newRoot) && Contents(s1.t) == Contents(s.t) - {k}
    ensures Accounts(heap, s1) && fresh(s1.repr - s.repr)
    ensures leaf.key == k && k in Contents(s.t) && leaf.value == Contents(s.t)[k]
    ensures heap.early == old(heap.early) + FreedEarly(s, k)
  {
    hide NodePtr.Valid, Linked, LinkedElsewhere, Places, EdgePending, Fits, Tries.WF, Shape.Valid, Shape.WF,
      NodeHeap.Reaches;
    LeafHangs(s, k, DeletePoint(grandparent, Some(parent), leaf));
    ghost var f := Parent(s.t, k);
    var newParent;
    ghost var x;
    newParent, s1, x := RemoveChildAndCompress(heap, s, k, f, parent.0, parent.1, grandparent);
    LeafKept(s, k, leaf);
    PendingKeys(s1, x, parent.0);
    ShapeKeys(s1);
    if newParent.Some? {
      newRoot := Insert.WriteParent(s1, x, grandparent, parent.0, newParent.value, originalRoot);
    } else {
      PendingDone(s1, x);
      newRoot := originalRoot;
    }
    assert s1.Valid();
    Reachability.NotReached(heap, s1, newRoot, originalRoot, LeafPtr(leaf));
    heap.Deallocate(LeafPtr(leaf), originalRoot);
    assert s1.Valid();
  }

  lemma LeafKept(s: Shape, k: Key, leaf: LeafNode)
    requires s.WF() && k in s.t && s.t[k].Leaf? && s.LinkedAt(k) && s.at[k] == LeafPtr(leaf)
    ensures leaf.key == k && leaf.value == s.t[k].value && LeafPtr(leaf).Repr() == {leaf}
  {
  }

  /** `DeletePoint::apply`: removes exactly the leaf that the search found. */
  method Apply(heap: NodeHeap, ghost s: Shape, ghost k: Key, point: DeletePoint, root: NodePtr)
    returns (res: DeleteResult, ghost s1: Shape)
    requires LeafPoint(s, k, point) && StoredAt(s, s.r, root) && Accounts(heap, s)
    modifies s.repr, heap
    ensures res.deleted.key == k && k in Contents(s.t) && res.deleted.value == Contents(s.t)[k]
    ensures res.newRoot.None? ==> Contents(s.t) - {k} == map[] && heap.live == {}
    ensures res.newRoot.Some? ==>
      && StoredAt(s1, s1.r, res.newRoot.value) && Contents(s1.t) == Contents(s.t) - {k}
      && Accounts(heap, s1) && fresh(s1.repr - s.repr)
    ensures heap.early == old(heap.early) + FreedEarly(s, k)
  {
    LeafHangs(s, k, point);
    match point.parent {
      case None =>
        SingleLeaf(s);
        assert LeadsTo(root, [], root, heap.live);
        heap.Deallocate(LeafPtr(point.leaf), root);
        return DeleteResult(None, point.leaf), s;
      case Some(parent) =>
        var newRoot;
        newRoot, s1 := DeleteNonRoot(heap, s, k, point.leaf, parent, point.grandparent, root);
        return DeleteResult(Some(newRoot), point.leaf), s1;
    }
  }
}
