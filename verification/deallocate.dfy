/** Freeing a whole tree. */
module Deallocation {
  import opened Bytes
  import opened Layouts
  import opened Tries
  import opened Nodes
  import opened Shapes
  import opened Heaps
  import opened Frontiers

  ghost function Restrict(at: map<Key, NodePtr>, ks: seq<Key>): map<Key, NodePtr> {
    map z | z in at && Covered(ks, z) :: at[z]
  }

  /** `stack` holds the nodes at the paths `ks`, and each node in their subtrees
      is below only one of them. */
  ghost predicate Worklist(s: Shape, stack: seq<NodePtr>, ks: seq<Key>) {
    && |stack| == |ks| && Increasing(ks)
    && (forall i {:trigger ks[i]} | 0 <= i < |ks| :: ks[i] in s.t && ks[i] in s.at && s.at[ks[i]] == stack[i])
  }

  /** Taking an inner node off the worklist and putting its children on it leaves
      all nodes on it but that node. */
  lemma PopInner(s: Shape, ks: seq<Key>, x: Key, bs: seq<byte>)
    requires s.WF() && x in s.t && s.t[x].Inner? && AllEdges(s.t, x, bs) && Increasing(ks + [x])
    ensures Restrict(s.at, ks + KidPaths(s.t, x, bs)) == Restrict(s.at, ks + [x]) - {x}
    ensures x in Restrict(s.at, ks + [x])
  {
    hide Covered, Tries.WF, NodePtr.Repr, Increasing;
    forall z | z in s.t ensures Covered(ks + KidPaths(s.t, x, bs), z) <==> Covered(ks + [x], z) && z != x {
      CoveredLast(ks, x, z);
      CoveredConcat(ks, KidPaths(s.t, x, bs), z);
      CoveredKids(s.t, s.r, x, bs, z);
    }
    CoveredLast(ks, x, x);
  }

  lemma PopLeaf(s: Shape, ks: seq<Key>, x: Key)
    requires s.WF() && x in s.t && s.t[x].Leaf? && Increasing(ks + [x])
    ensures Restrict(s.at, ks) == Restrict(s.at, ks + [x]) - {x}
    ensures x in Restrict(s.at, ks + [x])
  {
    hide Covered, Tries.WF, NodePtr.Repr, Increasing;
    forall z | z in s.t ensures Covered(ks, z) <==> Covered(ks + [x], z) && z != x {
      CoveredLast(ks, x, z);
      NothingBelowLeaf(s.t, s.r, x, z);
    }
    CoveredLast(ks, x, x);
  }

  lemma AllCovered(s: Shape)
    requires s.WF()
    ensures Restrict(s.at, [s.r]) == s.at
  {
    forall z | z in s.at ensures Covered([s.r], z) {
      Relate(s.t, s.r, s.r, z);
      assert [s.r][0] <= z;
    }
  }

  lemma PushKids(s: Shape, stack: seq<NodePtr>, ks: seq<Key>, x: Key, p: NodePtr, bs: seq<byte>, cs: seq<NodePtr>)
    requires StoredAt(s, x, p) && s.t[x].Inner? && Lists(bs, cs, p.Kids())
    requires Worklist(s, stack + [p], ks + [x])
    ensures AllEdges(s.t, x, bs) && Worklist(s, stack + cs, ks + KidPaths(s.t, x, bs))
  {
    ListedKids(s, x, p, bs, cs);
    var ls := KidPaths(s.t, x, bs);
    assert ks + [x] == ks + [x] + [];
    IncreasingReplace(ks, x, ls, []);
    assert ks + ls == ks + ls + [];
    forall i | 0 <= i < |ks + ls|
      ensures (ks + ls)[i] in s.t && (ks + ls)[i] in s.at && s.at[(ks + ls)[i]] == (stack + cs)[i]
    {
      if i < |ks| {
        assert (ks + [x])[i] in s.t;
      }
    }
  }

  lemma RestrictDistinct(s: Shape, ks: seq<Key>, x: Key)
    requires s.WF() && x in Restrict(s.at, ks)
    ensures Places(Restrict(s.at, ks) - {x}) == Places(Restrict(s.at, ks)) - {s.at[x]}
    ensures s.at[x] in Places(Restrict(s.at, ks))
  {
    PlacesDistinct(s, x);
    RemovedValues(Restrict(s.at, ks), x);
    PlaceLive(Restrict(s.at, ks), x);
  }

  lemma PopWorklist(s: Shape, stack: seq<NodePtr>, ks: seq<Key>, p: NodePtr, x: Key)
    requires Worklist(s, stack + [p], ks + [x]) && |stack| == |ks|
    ensures Worklist(s, stack, ks)
  {
    IncreasingConcat(ks, [x]);
    forall i | 0 <= i < |ks| ensures ks[i] in s.t && ks[i] in s.at && s.at[ks[i]] == stack[i] {
      assert (ks + [x])[i] == ks[i];
    }
  }

  /** The live nodes are those that the stack leads to. */
  ghost predicate ToFree(s: Shape, stack: seq<NodePtr>, ks: seq<Key>, live: set<NodePtr>) {
    s.WF() && Worklist(s, stack, ks) && live == Places(Restrict(s.at, ks))
  }

  lemma FreeTop(s: Shape, stack: seq<NodePtr>, ks: seq<Key>, live: set<NodePtr>)
    requires s.Valid() && ToFree(s, stack, ks, live) && stack != []
    ensures |ks| == |stack| && StoredAt(s, ks[|ks| - 1], stack[|stack| - 1])
  {
  }

  lemma FreeLeaf(s: Shape, stack: seq<NodePtr>, ks: seq<Key>, live: set<NodePtr>, n: nat)
    requires ToFree(s, stack, ks, live) && n + 1 == |stack| == |ks| && ks[n] in s.t && s.t[ks[n]].Leaf?
    ensures stack[n] in live && ToFree(s, stack[..n], ks[..n], live - {stack[n]})
  {
    hide Places, Increasing, Restrict, Shape.WF, NodePtr.Repr;
    assert stack == stack[..n] + [stack[n]] && ks == ks[..n] + [ks[n]];
    PopLeaf(s, ks[..n], ks[n]);
    RestrictDistinct(s, ks, ks[n]);
    PopWorklist(s, stack[..n], ks[..n], stack[n], ks[n]);
  }

  lemma FreeInner(s: Shape, stack: seq<NodePtr>, ks: seq<Key>, live: set<NodePtr>, n: nat, bs: seq<byte>,
                  cs: seq<NodePtr>)
    requires ToFree(s, stack, ks, live) && n + 1 == |stack| == |ks|
    requires StoredAt(s, ks[n], stack[n]) && s.t[ks[n]].Inner? && Lists(bs, cs, stack[n].Kids())
    ensures AllEdges(s.t, ks[n], bs) && stack[n] in live
    ensures ToFree(s, stack[..n] + cs, ks[..n] + KidPaths(s.t, ks[n], bs), live - {stack[n]})
  {
    hide NodePtr.Valid, Places, Increasing, Restrict, Shape.WF, NodePtr.Repr, Lists;
    assert stack == stack[..n] + [stack[n]] && ks == ks[..n] + [ks[n]];
    PushKids(s, stack[..n], ks[..n], ks[n], stack[n], bs, cs);
    PopInner(s, ks[..n], ks[n], bs);
    RestrictDistinct(s, ks, ks[n]);
  }

  lemma FreeAll(s: Shape, root: NodePtr)
    requires StoredAt(s, s.r, root)
    ensures ToFree(s, [root], [s.r], Places(s.at))
  {
    AllCovered(s);
  }

  lemma NothingToFree(s: Shape, ks: seq<Key>, live: set<NodePtr>)
    requires ToFree(s, [], ks, live)
    ensures live == {}
  {
  }

  /** Reads the children of a node. Only a live node may be read. */
  method ReadChildren(heap: NodeHeap, p: NodePtr) returns (bs: seq<byte>, children: seq<NodePtr>)
    requires p in heap.live && !p.LeafPtr? && p.Valid()
    ensures Lists(bs, children, p.Kids())
  {
    bs, children := p.Iter();
  }

  /** `deallocate_tree`: frees every node of the tree exactly once, and reads a node
      only while it is live. Once the root is freed no node is reached. */
  method DeallocateTree(heap: NodeHeap, ghost s: Shape, root: NodePtr)
    requires StoredAt(s, s.r, root) && Accounts(heap, s)
    modifies heap
    ensures heap.live == {} && heap.early == old(heap.early) + [root]
  {
    hide NodePtr.Valid, Shape.Valid, Shape.WF, NodePtr.Repr, ToFree, Lists, KidPaths, Places, NodeHeap.Reaches;
    var stack := [root];
    ghost var ks := [s.r];
    FreeAll(s, root);
    ValidShape(s);
    PlaceLive(s.at, s.r);
    while stack != []
      invariant s.Valid() && heap !in s.repr && ToFree(s, stack, ks, heap.live)
      invariant if root in heap.live then stack == [root] && heap.early == old(heap.early)
                else heap.early == old(heap.early) + [root]
      decreases |heap.live|
    {
      var n := |stack| - 1;
      var next := stack[n];
      FreeTop(s, stack, ks, heap.live);
      Stored(s, ks[n], next);
      LiveTop(s, stack, ks, heap.live, n);
      if next.LeafPtr? {
        FreeLeaf(s, stack, ks, heap.live, n);
        stack, ks := stack[..n], ks[..n];
      } else {
        var bs, children := ReadChildren(heap, next);
        FreeInner(s, stack, ks, heap.live, n, bs, children);
        stack, ks := stack[..n] + children, ks[..n] + KidPaths(s.t, ks[n], bs);
      }
      OnlyRootReached(heap, root, next);
      heap.Deallocate(next, root);
    }
    NothingToFree(s, ks, heap.live);
  }

  /** From a root that is not live no other node is reached. */
  lemma OnlyRootReached(heap: NodeHeap, root: NodePtr, q: NodePtr)
    requires root == q || root !in heap.live
    ensures heap.Reaches(root, q) <==> root == q
  {
    if root == q {
      assert LeadsTo(root, [], q, heap.live);
    }
  }

  lemma LiveTop(s: Shape, stack: seq<NodePtr>, ks: seq<Key>, live: set<NodePtr>, n: nat)
    requires ToFree(s, stack, ks, live) && n < |stack| == |ks|
    ensures stack[n] in live
  {
    assert ks[n] in s.t && ks[n] <= ks[n];
    PlaceLive(Restrict(s.at, ks), ks[n]);
  }
}
