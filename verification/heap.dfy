/** The live nodes: those that are allocated and not yet freed. */
module Heaps {
  import opened Bytes
  import opened Nodes
  import opened Shapes

  /** The objects of some nodes. */
  ghost function Objects(nodes: set<NodePtr>): set<object> {
    set p, o | p in nodes && o in p.Repr() :: o
  }

  /** Following the edges `bs` from node `p` through live nodes ends at `q`. */
  ghost predicate LeadsTo(p: NodePtr, bs: seq<byte>, q: NodePtr, live: set<NodePtr>)
    reads Objects(live)
    decreases |bs|
  {
    if bs == [] then p == q
    else p in live && bs[0] in p.Kids() && LeadsTo(p.Kids()[bs[0]], bs[1..], q, live)
  }

  /** The nodes that are allocated and not yet freed, and a log of those that could
      still be reached from the root when they were freed. */
  class NodeHeap {
    ghost var live: set<NodePtr>
    ghost var early: seq<NodePtr>

    constructor ()
      ensures live == {} && early == []
    {
      live, early := {}, [];
    }

    /** The pointers that the live nodes hold lead from `root` to `q`. */
    ghost predicate Reaches(root: NodePtr, q: NodePtr)
      reads this, Objects(live)
    {
      exists bs :: LeadsTo(root, bs, q, live)
    }

    /** `allocate_node_ptr`: a node that was built gets its place on the heap. A node
        that is built and not allocated is a local value, which needs no freeing. */
    ghost method Allocate(p: NodePtr)
      requires p !in live
      modifies this
      ensures live == old(live) + {p} && early == old(early)
    {
      live := live + {p};
    }

    /** `deallocate_node_ptr`; `root` is the root that the map has at that moment. */
    ghost method Deallocate(p: NodePtr, root: NodePtr)
      requires p in live
      modifies this
      ensures live == old(live) - {p}
      ensures early == old(early) + (if old(Reaches(root, p)) then [p] else [])
    {
      early := early + if Reaches(root, p) then [p] else [];
      live := live - {p};
    }
  }

  /** The nodes of a tree. */
  ghost function Places(at: map<Key, NodePtr>): set<NodePtr> {
    at.Values
  }

  lemma PlaceLive(at: map<Key, NodePtr>, x: Key)
    requires x in at
    ensures at[x] in Places(at)
  {
  }

  /** The heap of nodes holds exactly the nodes of the tree. */
  ghost predicate Accounts(heap: NodeHeap, s: Shape)
    reads heap
  {
    heap !in s.repr && heap.live == Places(s.at)
  }

  /** No two paths are stored at the same node. */
  lemma PlacesDistinct(s: Shape, x: Key)
    requires s.WF() && x in s.t
    ensures forall y :: y in s.at && y != x ==> s.at[y] != s.at[x]
  {
    forall y | y in s.at && y != x ensures s.at[y] != s.at[x] {
      assert s.at[x].Repr() !! s.at[y].Repr();
      s.at[x].ReprNonempty();
    }
  }

  lemma ReplacedValues<K, P>(at: map<K, P>, x: K, node: P)
    requires x in at && forall y :: y in at && y != x ==> at[y] != at[x]
    ensures at[x := node].Values == at.Values - {at[x]} + {node}
  {
    forall p | p in at.Values - {at[x]} + {node} ensures p in at[x := node].Values {
      if p != node {
        var y :| y in at && at[y] == p;
        assert at[x := node][y] == p;
      } else {
        assert at[x := node][x] == p;
      }
    }
  }

  lemma AddedValues<K, P>(at: map<K, P>, x: K, node: P)
    requires x !in at
    ensures at[x := node].Values == at.Values + {node}
  {
    forall p | p in at.Values + {node} ensures p in at[x := node].Values {
      if p != node {
        var y :| y in at && at[y] == p;
        assert at[x := node][y] == p;
      } else {
        assert at[x := node][x] == p;
      }
    }
  }

  lemma RemovedValues<K, P>(at: map<K, P>, x: K)
    requires x in at && forall y :: y in at && y != x ==> at[y] != at[x]
    ensures (at - {x}).Values == at.Values - {at[x]}
  {
    forall p | p in at.Values - {at[x]} ensures p in (at - {x}).Values {
      var y :| y in at && at[y] == p;
      assert (at - {x})[y] == p;
    }
  }

  lemma NotLive(s: Shape, p: NodePtr)
    requires s.WF() && p.Repr() !! s.repr
    ensures p !in Places(s.at)
  {
    p.ReprNonempty();
    forall x | x in s.at ensures s.at[x] != p {
      assert s.at[x].Repr() <= s.repr;
    }
  }
}
