/** Which nodes the pointers of live nodes lead to from the root. */
module Reachability {
  import opened Bytes
  import opened Tries
  import opened Nodes
  import opened Shapes
  import opened Heaps
  import opened Pending

  lemma {:induction false} LeadsFurther(p: NodePtr, bs: seq<byte>, q: NodePtr, b: byte, live: set<NodePtr>)
    requires LeadsTo(p, bs, q, live) && q in live && b in q.Kids()
    ensures LeadsTo(p, bs + [b], q.Kids()[b], live)
    decreases |bs|
  {
    if bs == [] {
      assert LeadsTo(q.Kids()[b], [b][1..], q.Kids()[b], live);
    } else {
      LeadsFurther(p.Kids()[bs[0]], bs[1..], q, b, live);
      assert (bs + [b])[1..] == bs[1..] + [b];
    }
  }

  /** While the edge to `x` is pending, the nodes above `x` are reached. */
  lemma {:induction false} AboveReached(s: Shape, x: Key, stale: NodePtr, y: Key, live: set<NodePtr>)
    returns (bs: seq<byte>)
    requires EdgePending(s, x, stale) && Places(s.at) <= live && y in s.t && y <= x && (y == x ==> s.at[x] == stale)
    ensures y in s.at && s.r in s.at && LeadsTo(s.at[s.r], bs, s.at[y], live)
    decreases |y|
  {
    hide NodePtr.Repr;
    if y == s.r {
      bs := [];
    } else {
      assert UpOk(s.t, y);
      var z := Parent(s.t, y);
      var b := y[s.t[y].start - 1];
      var cs := AboveReached(s, x, stale, z, live);
      assert PendingAt(s, x, stale, z);
      PlaceLive(s.at, z);
      LeadsFurther(s.at[s.r], cs, s.at[z], b, live);
      bs := cs + [b];
    }
  }

  /** While the edge to `x` is pending, the node that `x` replaces is reached: over
      the edge to it, or because the map still has it as its root. */
  lemma StaleReached(heap: NodeHeap, s: Shape, x: Key, stale: NodePtr, root: NodePtr)
    requires EdgePending(s, x, stale) && Places(s.at) <= heap.live
    requires s.r in s.at && root == if x == s.r then stale else s.at[s.r]
    ensures heap.Reaches(root, stale)
  {
    hide NodePtr.Repr;
    if x == s.r {
      assert LeadsTo(root, [], stale, heap.live);
    } else {
      assert UpOk(s.t, x);
      var z := Parent(s.t, x);
      var b := x[s.t[x].start - 1];
      var bs := AboveReached(s, x, stale, z, heap.live);
      assert PendingAt(s, x, stale, z);
      PlaceLive(s.at, z);
      LeadsFurther(root, bs, s.at[z], b, heap.live);
    }
  }

  /** Some node of the tree has an edge to `q`. */
  ghost predicate HasEdgeTo(s: Shape, q: NodePtr)
    requires s.WF()
    reads s.repr
  {
    exists z, b :: z in s.at && b in s.at[z].Kids() && s.at[z].Kids()[b] == q
  }

  /** Of these two ways to reach the node that `x` replaces, the edge is the one
      unless `x` is the root. */
  lemma StaleLinked(s: Shape, x: Key, stale: NodePtr)
    requires EdgePending(s, x, stale) && stale !in Places(s.at)
    ensures HasEdgeTo(s, stale) <==> x != s.r
  {
    hide NodePtr.Repr;
    if x != s.r {
      assert UpOk(s.t, x);
      var z := Parent(s.t, x);
      assert PendingAt(s, x, stale, z);
      assert s.at[z].Kids()[x[s.t[x].start - 1]] == stale;
    } else {
      forall z, b | z in s.at && b in s.at[z].Kids() ensures s.at[z].Kids()[b] != stale {
        assert PendingAt(s, x, stale, z);
        assert KidOk(s.t, z, b);
        PlaceLive(s.at, s.t[z].kids[b]);
      }
    }
  }

  /** Frees the node that `x` replaces, while the edge to `x` is pending: it is still
      reached. */
  ghost method FreeStale(heap: NodeHeap, s: Shape, x: Key, stale: NodePtr, root: NodePtr)
    requires EdgePending(s, x, stale) && Places(s.at) <= heap.live && stale in heap.live && heap !in s.repr
    requires s.r in s.at && root == if x == s.r then stale else s.at[s.r]
    modifies heap
    ensures EdgePending(s, x, stale)
    ensures heap.live == old(heap.live) - {stale} && heap.early == old(heap.early) + [stale]
  {
    hide EdgePending, NodeHeap.Reaches, Places;
    StaleReached(heap, s, x, stale, root);
    heap.Deallocate(stale, root);
  }

  lemma {:induction false} OnlyPlaces(s: Shape, x: Key, bs: seq<byte>, q: NodePtr, live: set<NodePtr>)
    requires s.Valid() && x in s.t && LeadsTo(s.at[x], bs, q, live)
    ensures q in Places(s.at)
    decreases |bs|
  {
    PlaceLive(s.at, x);
    if bs != [] {
      Stored(s, x, s.at[x]);
      StoredKid(s, x, s.at[x], bs[0]);
      OnlyPlaces(s, s.t[x].kids[bs[0]], bs[1..], q, live);
    }
  }

  /** A node that has left the tree is not reached, neither from the new root nor
      from an old root that is no longer live. */
  lemma NotReached(heap: NodeHeap, s: Shape, newRoot: NodePtr, root: NodePtr, q: NodePtr)
    requires StoredAt(s, s.r, newRoot) && (root == newRoot || root !in heap.live)
    requires q !in Places(s.at) && q != root
    ensures !heap.Reaches(root, q)
  {
    forall bs ensures !LeadsTo(root, bs, q, heap.live) {
      if LeadsTo(root, bs, q, heap.live) && root == newRoot {
        OnlyPlaces(s, s.r, bs, q, heap.live);
      }
    }
  }

  /** In a tree that accounts for all live nodes, exactly these are reached. */
  lemma LiveReached(heap: NodeHeap, s: Shape, root: NodePtr, q: NodePtr)
    requires StoredAt(s, s.r, root) && Accounts(heap, s)
    ensures heap.Reaches(root, q) <==> q in heap.live
  {
    if heap.Reaches(root, q) {
      var bs :| LeadsTo(root, bs, q, heap.live);
      OnlyPlaces(s, s.r, bs, q, heap.live);
    }
    if q in heap.live {
      var x :| x in s.at && s.at[x] == q;
      Stored(s, x, q);
      ValidPending(s, x);
      var bs := AboveReached(s, x, q, x, heap.live);
    }
  }

  lemma ValidPending(s: Shape, x: Key)
    requires s.Valid() && x in s.t
    ensures EdgePending(s, x, s.at[x])
  {
    Stored(s, x, s.at[x]);
    forall z | z in s.t ensures PendingAt(s, x, s.at[x], z) {
      assert s.LinkedAt(z);
    }
  }
}
