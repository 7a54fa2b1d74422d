/** The double-ended iterator over all entries. */
module TreeIterators {
  import opened Bytes
  import opened Layouts
  import opened Tries
  import opened Nodes
  import opened Shapes
  import opened Frontiers
  import opened Maps
  import opened Listings

  function Reversed<T>(s: seq<T>): (r: seq<T>)
    ensures |r| == |s|
  {
    seq(|s|, i requires 0 <= i < |s| => s[|s| - 1 - i])
  }

  /** The deque holds the nodes at the paths `ks`, the last path at its front. */
  ghost predicate Deque(s: Shape, nodes: seq<NodePtr>, ks: seq<Key>) {
    && |nodes| == |ks|
    && forall i {:trigger ks[i]} | 0 <= i < |ks| ::
         ks[i] in s.t && ks[i] in s.at && s.at[ks[i]] == nodes[|ks| - 1 - i]
  }

  lemma DequeInTree(s: Shape, nodes: seq<NodePtr>, ks: seq<Key>)
    requires Deque(s, nodes, ks)
    ensures InTree(s.t, ks)
  {
  }

  lemma DequeConcat(s: Shape, ms: seq<NodePtr>, ls: seq<Key>, nodes: seq<NodePtr>, ks: seq<Key>)
    requires Deque(s, ms, ls) && Deque(s, nodes, ks)
    ensures Deque(s, ms + nodes, ks + ls)
  {
    forall i | 0 <= i < |ks + ls|
      ensures (ks + ls)[i] in s.t && (ks + ls)[i] in s.at && s.at[(ks + ls)[i]] == (ms + nodes)[|ks + ls| - 1 - i]
    {
      if i < |ks| {
        assert (ks + ls)[i] == ks[i];
      } else {
        assert (ks + ls)[i] == ls[i - |ks|];
      }
    }
  }

  /** The node at the back of the deque is the first in key order. */
  lemma DequeBack(s: Shape, nodes: seq<NodePtr>, ks: seq<Key>)
    requires Deque(s, nodes, ks) && nodes != []
    ensures ks[0] in s.t && ks[0] in s.at && s.at[ks[0]] == nodes[|nodes| - 1]
    ensures Deque(s, nodes[..|nodes| - 1], ks[1..])
  {
    forall i | 0 <= i < |ks| - 1
      ensures ks[1..][i] in s.t && ks[1..][i] in s.at && s.at[ks[1..][i]] == nodes[..|nodes| - 1][|ks[1..]| - 1 - i]
    {
      assert ks[1..][i] == ks[i + 1];
    }
  }

  lemma DequeFront(s: Shape, nodes: seq<NodePtr>, ks: seq<Key>)
    requires Deque(s, nodes, ks) && nodes != []
    ensures var x := ks[|ks| - 1]; x in s.t && x in s.at && s.at[x] == nodes[0]
    ensures Deque(s, nodes[1..], ks[..|ks| - 1])
  {
    var ls := ks[..|ks| - 1];
    forall i | 0 <= i < |ls|
      ensures ls[i] in s.t && ls[i] in s.at && s.at[ls[i]] == nodes[1..][|ls| - 1 - i]
    {
      assert ls[i] == ks[i];
    }
  }

  lemma DequeKids(s: Shape, x: Key, p: NodePtr, bs: seq<byte>, cs: seq<NodePtr>)
    requires StoredAt(s, x, p) && s.t[x].Inner? && Lists(bs, cs, p.Kids())
    ensures AllEdges(s.t, x, bs) && 2 <= |bs| && Deque(s, Reversed(cs), KidPaths(s.t, x, bs))
  {
    hide NodePtr.Valid, Shape.Valid, Shape.WF, Lists;
    ListedKids(s, x, p, bs, cs);
    ValidShape(s);
    TwoKids(s, x, p, bs, cs);
    var ks := KidPaths(s.t, x, bs);
    forall i | 0 <= i < |ks|
      ensures ks[i] in s.t && ks[i] in s.at && s.at[ks[i]] == Reversed(cs)[|ks| - 1 - i]
    {
    }
  }

  lemma TwoKids(s: Shape, x: Key, p: NodePtr, bs: seq<byte>, cs: seq<NodePtr>)
    requires StoredAt(s, x, p) && s.t[x].Inner? && Lists(bs, cs, p.Kids())
    ensures 2 <= |bs| == |cs|
  {
    Stored(s, x, p);
    ListsSize(bs, cs, p.Kids());
  }

  /** What is left to list after the first (last) node gave way to its children. */
  lemma StepLeaves(s: Shape, ls: seq<Key>, x: Key, bs: seq<byte>, rs: seq<Key>)
    requires s.WF() && x in s.t && s.t[x].Inner? && AllEdges(s.t, x, bs) && InTree(s.t, ls + [x] + rs)
    ensures InTree(s.t, ls + KidPaths(s.t, x, bs) + rs)
    ensures LeavesOf(s.t, s.r, ls + KidPaths(s.t, x, bs) + rs) == LeavesOf(s.t, s.r, ls + [x] + rs)
  {
    var ks := KidPaths(s.t, x, bs);
    LeavesSplit(s.t, s.r, ls, x, rs);
    LeavesKids(s.t, s.r, x, bs);
    LeavesConcat(s.t, s.r, ls, ks);
    LeavesConcat(s.t, s.r, ls + ks, rs);
  }

  lemma TakeLeaf(s: Shape, ls: seq<Key>, x: Key, rs: seq<Key>)
    requires s.WF() && x in s.t && s.t[x].Leaf? && InTree(s.t, ls + [x] + rs)
    ensures InTree(s.t, ls) && InTree(s.t, rs)
    ensures LeavesOf(s.t, s.r, ls + [x] + rs) == LeavesOf(s.t, s.r, ls) + [x] + LeavesOf(s.t, s.r, rs)
  {
    LeavesSplit(s.t, s.r, ls, x, rs);
  }

  /** The deque leads to the leaves `left`, in key order from its back. */
  ghost predicate Leads(s: Shape, nodes: seq<NodePtr>, ks: seq<Key>, left: seq<Key>)
    requires s.WF()
  {
    Deque(s, nodes, ks) && InTree(s.t, ks) && left == LeavesOf(s.t, s.r, ks)
  }

  /** A deque that holds only the root leads to all leaves. */
  lemma LeadsFromRoot(s: Shape, root: NodePtr)
    requires StoredAt(s, s.r, root)
    ensures s.WF() && Leads(s, [root], [s.r], Leaves(s.t, s.r, s.r))
    ensures ListsKeys(Leaves(s.t, s.r, s.r), Contents(s.t)) && |Leaves(s.t, s.r, s.r)| == |Contents(s.t)|
  {
    AllLeaves(s.t, s.r);
    LeavesOne(s.t, s.r, s.r);
  }

  /** The node at the back of the deque: a leaf is the first key that is left; an
      inner node can give way to its children. */
  lemma LeadsBack(s: Shape, nodes: seq<NodePtr>, ks: seq<Key>, left: seq<Key>)
    requires s.Valid() && Leads(s, nodes, ks, left) && nodes != []
    ensures |ks| == |nodes| && StoredAt(s, ks[0], nodes[|nodes| - 1]) && |ks[0]| < KEY_LIMIT
    ensures s.t[ks[0]].Leaf? ==> left != [] && left[0] == ks[0] && Leads(s, nodes[..|nodes| - 1], ks[1..], left[1..])
  {
    hide Tries.WF;
    DequeBack(s, nodes, ks);
    DequeInTree(s, nodes[..|nodes| - 1], ks[1..]);
    assert ks == [] + [ks[0]] + ks[1..];
    Stored(s, ks[0], s.at[ks[0]]);
    if s.t[ks[0]].Leaf? {
      TakeLeaf(s, [], ks[0], ks[1..]);
    }
  }

  lemma LeadsFront(s: Shape, nodes: seq<NodePtr>, ks: seq<Key>, left: seq<Key>)
    requires s.Valid() && Leads(s, nodes, ks, left) && nodes != []
    ensures |ks| == |nodes| && StoredAt(s, ks[|ks| - 1], nodes[0]) && |ks[|ks| - 1]| < KEY_LIMIT
    ensures s.t[ks[|ks| - 1]].Leaf? ==>
      left != [] && left[|left| - 1] == ks[|ks| - 1] && Leads(s, nodes[1..], ks[..|ks| - 1], left[..|left| - 1])
  {
    hide Tries.WF;
    var n := |ks| - 1;
    DequeFront(s, nodes, ks);
    DequeInTree(s, nodes[1..], ks[..n]);
    assert ks == ks[..n] + [ks[n]] + [];
    Stored(s, ks[n], s.at[ks[n]]);
    if s.t[ks[n]].Leaf? {
      TakeLeaf(s, ks[..n], ks[n], []);
    }
  }

  lemma LeadsBackKids(s: Shape, nodes: seq<NodePtr>, ks: seq<Key>, left: seq<Key>, bs: seq<byte>, cs: seq<NodePtr>)
    requires s.Valid() && Leads(s, nodes, ks, left) && nodes != [] && ks != []
    requires StoredAt(s, ks[0], nodes[|nodes| - 1]) && s.t[ks[0]].Inner? && Lists(bs, cs, nodes[|nodes| - 1].Kids())
    ensures AllEdges(s.t, ks[0], bs) && bs != [] && |ks[0]| < |KidPaths(s.t, ks[0], bs)[0]|
    ensures Leads(s, nodes[..|nodes| - 1] + Reversed(cs), KidPaths(s.t, ks[0], bs) + ks[1..], left)
  {
    hide Tries.WF, Lists, Deque;
    var x := ks[0];
    DequeBack(s, nodes, ks);
    assert ks == [] + [x] + ks[1..];
    DequeKids(s, x, nodes[|nodes| - 1], bs, cs);
    StepLeaves(s, [], x, bs, ks[1..]);
    assert [] + KidPaths(s.t, x, bs) == KidPaths(s.t, x, bs);
    DequeConcat(s, nodes[..|nodes| - 1], ks[1..], Reversed(cs), KidPaths(s.t, x, bs));
    KidsIncreasing(s.t, s.r, x, bs);
  }

  lemma LeadsFrontKids(s: Shape, nodes: seq<NodePtr>, ks: seq<Key>, left: seq<Key>, bs: seq<byte>, cs: seq<NodePtr>)
    requires s.Valid() && Leads(s, nodes, ks, left) && nodes != [] && ks != []
    requires var x := ks[|ks| - 1]; StoredAt(s, x, nodes[0]) && s.t[x].Inner? && Lists(bs, cs, nodes[0].Kids())
    ensures var x := ks[|ks| - 1];
      && AllEdges(s.t, x, bs) && bs != [] && |x| < |KidPaths(s.t, x, bs)[|bs| - 1]|
      && Leads(s, Reversed(cs) + nodes[1..], ks[..|ks| - 1] + KidPaths(s.t, x, bs), left)
  {
    hide Tries.WF, Lists, Deque;
    var n := |ks| - 1;
    var x := ks[n];
    DequeFront(s, nodes, ks);
    assert ks == ks[..n] + [x] + [];
    DequeKids(s, x, nodes[0], bs, cs);
    StepLeaves(s, ks[..n], x, bs, []);
    assert ks[..n] + KidPaths(s.t, x, bs) + [] == ks[..n] + KidPaths(s.t, x, bs);
    DequeConcat(s, Reversed(cs), KidPaths(s.t, x, bs), nodes[1..], ks[..n]);
    KidsIncreasing(s.t, s.r, x, bs);
  }

  /** The objects that an iterator over a tree reads. */
  ghost function Footprint(shape: Option<Shape>): set<object> {
    if shape.Some? then shape.value.repr else {}
  }

  /** The deque of an iterator over a map leads to the keys `left`. */
  ghost predicate Tracks(shape: Option<Shape>, nodes: seq<NodePtr>, ks: seq<Key>, left: seq<Key>)
    reads Footprint(shape)
  {
    match shape
    case None => nodes == [] && left == []
    case Some(s) => s.Valid() && Leads(s, nodes, ks, left)
  }

  /** What an iterator can tell when it looks at a node on its deque. */
  lemma AtNode(s: Shape, x: Key, p: NodePtr)
    requires StoredAt(s, x, p)
    ensures s.t[x].Leaf? <==> p.LeafPtr?
    ensures p.LeafPtr? ==> p.leaf.key == x && EntryAt(Contents(s.t), x) == Some((p.leaf.key, p.leaf.value))
    ensures !p.LeafPtr? ==> p.Valid()
    ensures p.Repr() <= s.repr
  {
    Stored(s, x, p);
  }

  /** The step of `next` at the back of the deque. */
  lemma TracksBack(shape: Option<Shape>, nodes: seq<NodePtr>, ks: seq<Key>, left: seq<Key>)
    requires Tracks(shape, nodes, ks, left) && nodes != []
    ensures shape.Some? && |ks| == |nodes| && ks[0] in shape.value.t && |ks[0]| < KEY_LIMIT
    ensures StoredAt(shape.value, ks[0], nodes[|nodes| - 1])
    ensures nodes[|nodes| - 1].LeafPtr? ==>
      left != [] && left[0] == ks[0] && Tracks(shape, nodes[..|nodes| - 1], ks[1..], left[1..])
  {
    LeadsBack(shape.value, nodes, ks, left);
    AtNode(shape.value, ks[0], nodes[|nodes| - 1]);
  }

  /** The step of `next_back` at the front of the deque. */
  lemma TracksFront(shape: Option<Shape>, nodes: seq<NodePtr>, ks: seq<Key>, left: seq<Key>)
    requires Tracks(shape, nodes, ks, left) && nodes != []
    ensures shape.Some? && |ks| == |nodes| && ks[|ks| - 1] in shape.value.t && |ks[|ks| - 1]| < KEY_LIMIT
    ensures StoredAt(shape.value, ks[|ks| - 1], nodes[0])
    ensures nodes[0].LeafPtr? ==>
      left != [] && left[|left| - 1] == ks[|ks| - 1] && Tracks(shape, nodes[1..], ks[..|ks| - 1], left[..|left| - 1])
  {
    LeadsFront(shape.value, nodes, ks, left);
    AtNode(shape.value, ks[|ks| - 1], nodes[0]);
  }

  lemma TracksBackKids(s: Shape, nodes: seq<NodePtr>, ks: seq<Key>, left: seq<Key>, bs: seq<byte>, cs: seq<NodePtr>)
    returns (ls: seq<Key>)
    requires Tracks(Some(s), nodes, ks, left) && nodes != [] && ks != [] && !nodes[|nodes| - 1].LeafPtr?
    requires StoredAt(s, ks[0], nodes[|nodes| - 1]) && Lists(bs, cs, nodes[|nodes| - 1].Kids())
    ensures ls != [] && |ks[0]| < |ls[0]|
    ensures Tracks(Some(s), nodes[..|nodes| - 1] + Reversed(cs), ls, left)
  {
    AtNode(s, ks[0], nodes[|nodes| - 1]);
    LeadsBackKids(s, nodes, ks, left, bs, cs);
    ls := KidPaths(s.t, ks[0], bs) + ks[1..];
  }

  lemma TracksFrontKids(s: Shape, nodes: seq<NodePtr>, ks: seq<Key>, left: seq<Key>, bs: seq<byte>, cs: seq<NodePtr>)
    returns (ls: seq<Key>)
    requires Tracks(Some(s), nodes, ks, left) && nodes != [] && ks != [] && !nodes[0].LeafPtr?
    requires StoredAt(s, ks[|ks| - 1], nodes[0]) && Lists(bs, cs, nodes[0].Kids())
    ensures ls != [] && |ks[|ks| - 1]| < |ls[|ls| - 1]|
    ensures Tracks(Some(s), Reversed(cs) + nodes[1..], ls, left)
  {
    AtNode(s, ks[|ks| - 1], nodes[0]);
    LeadsFrontKids(s, nodes, ks, left, bs, cs);
    ls := ks[..|ks| - 1] + KidPaths(s.t, ks[|ks| - 1], bs);
  }

  lemma TracksNone(shape: Option<Shape>, nodes: seq<NodePtr>, ks: seq<Key>, left: seq<Key>)
    requires Tracks(shape, nodes, ks, left)
    ensures nodes == [] <==> left == []
  {
    if shape.Some? {
      LeavesMany(shape.value.t, shape.value.r, ks);
    }
  }

  /** A new iterator leads to all keys. */
  lemma TracksAll(tree: TreeMap) returns (ks: seq<Key>, left: seq<Key>)
    requires tree.Valid()
    ensures Tracks(tree.shape, if tree.root.Some? then [tree.root.value] else [], ks, left)
    ensures ListsKeys(left, tree.Entries()) && |left| == tree.numEntries
  {
    match tree.shape {
      case None => ks, left := [], [];
      case Some(s) =>
        LeadsFromRoot(s, tree.root.value);
        ks, left := [s.r], Leaves(s.t, s.r, s.r);
    }
  }

  class TreeIterator {
    var nodes: seq<NodePtr>
    var size: nat
    /** The tree and the entries of the map that the iterator borrows. */
    ghost const shape: Option<Shape>
    ghost const entries: map<Key, Value>
    /** The paths of the nodes, and all keys of the map, split into those that
        `Next` has returned, those that are left, and those that `NextBack` has
        returned; all in key order. */
    ghost var ks: seq<Key>
    ghost const all: seq<Key>
    ghost var front: seq<Key>
    ghost var left: seq<Key>
    ghost var back: seq<Key>

    ghost predicate Valid()
      reads this, Footprint(shape)
    {
      && this !in Footprint(shape)
      && (shape.Some? ==> entries == Contents(shape.value.t)) && ListsKeys(all, entries)
      && all == front + left + back && size == |left|
      && Tracks(shape, nodes, ks, left)
    }

    constructor (tree: TreeMap)
      requires tree.Valid()
      ensures Valid() && entries == tree.Entries() && shape == tree.shape && front == back == []
    {
      hide Shape.Valid, Shape.WF, Tries.WF, Tracks, ListsKeys, Contents;
      nodes := if tree.root.Some? then [tree.root.value] else [];
      size := tree.numEntries;
      shape, entries := tree.shape, tree.Entries();
      ghost var paths, keys := TracksAll(tree);
      ks, left, all := paths, keys, keys;
      front, back := [], [];
    }

    /** `size_hint`: exactly so many keys are left. */
    method SizeHint() returns (lower: nat, upper: nat)
      requires Valid()
      ensures lower == upper == |left|
    {
      lower, upper := size, size;
    }

    /** `push_back_rev_iter`. */
    method PushBackRevIter(inner: NodePtr) returns (ghost bs: seq<byte>, ghost ds: seq<NodePtr>)
      requires !inner.LeafPtr? && inner.Valid() && this !in inner.Repr()
      modifies this`nodes
      ensures Lists(bs, ds, inner.Kids()) && nodes == old(nodes) + Reversed(ds)
    {
      var ls, cs := inner.Iter();
      bs, ds := ls, cs;
      var i := |cs|;
      while i > 0
        invariant 0 <= i <= |cs|
        invariant nodes == old(nodes) + Reversed(cs)[..|cs| - i]
      {
        i := i - 1;
        nodes := nodes + [cs[i]];
      }
      assert Reversed(cs)[..|cs|] == Reversed(cs);
    }

    /** `push_front`. */
    method PushFront(inner: NodePtr) returns (ghost bs: seq<byte>, ghost ds: seq<NodePtr>)
      requires !inner.LeafPtr? && inner.Valid() && this !in inner.Repr()
      modifies this`nodes
      ensures Lists(bs, ds, inner.Kids()) && nodes == Reversed(ds) + old(nodes)
    {
      var ls, cs := inner.Iter();
      bs, ds := ls, cs;
      var i := 0;
      while i < |cs|
        invariant 0 <= i <= |cs|
        invariant nodes == Reversed(cs)[|cs| - i..] + old(nodes)
      {
        nodes := [cs[i]] + nodes;
        i := i + 1;
      }
    }

    /** `next`: the first key that is left, with its value. */
    method Next() returns (r: Option<(Key, Value)>)
      requires Valid()
      modifies this
      ensures Valid() && back == old(back)
      ensures r.None? ==> old(left) == [] && left == [] && front == old(front)
      ensures r.Some? ==> old(left) == [r.value.0] + left && front == old(front) + [r.value.0]
      ensures r.Some? ==> EntryAt(entries, r.value.0) == r
    {
      hide Shape.Valid, Shape.WF, Tries.WF, Tracks, ListsKeys, NodePtr.Valid, NodePtr.Repr, Lists, EntryAt, Reversed;
      while nodes != []
        invariant Valid() && front == old(front) && left == old(left) && back == old(back)
        decreases if nodes == [] || ks == [] then 0 else KEY_LIMIT - |ks[0]|
      {
        TracksBack(shape, nodes, ks, left);
        var node := nodes[|nodes| - 1];
        ghost var was := nodes;
        AtNode(shape.value, ks[0], node);
        nodes := nodes[..|nodes| - 1];
        if node.LeafPtr? {
          size := size - 1;
          ks, left, front := ks[1..], left[1..], front + [ks[0]];
          return Some((node.leaf.key, node.leaf.value));
        }
        ghost var bs, cs := PushBackRevIter(node);
        ks := TracksBackKids(shape.value, was, ks, left, bs, cs);
      }
      TracksNone(shape, nodes, ks, left);
      return None;
    }

    /** `next_back`: the last key that is left, with its value. */
    method NextBack() returns (r: Option<(Key, Value)>)
      requires Valid()
      modifies this
      ensures Valid() && front == old(front)
      ensures r.None? ==> old(left) == [] && left == [] && back == old(back)
      ensures r.Some? ==> old(left) == left + [r.value.0] && back == [r.value.0] + old(back)
      ensures r.Some? ==> EntryAt(entries, r.value.0) == r
    {
      hide Shape.Valid, Shape.WF, Tries.WF, Tracks, ListsKeys, NodePtr.Valid, NodePtr.Repr, Lists, EntryAt, Reversed;
      while nodes != []
        invariant Valid() && front == old(front) && left == old(left) && back == old(back)
        decreases if nodes == [] || ks == [] then 0 else KEY_LIMIT - |ks[|ks| - 1]|
      {
        TracksFront(shape, nodes, ks, left);
        var node := nodes[0];
        ghost var was, last := nodes, |ks| - 1;
        AtNode(shape.value, ks[last], node);
        nodes := nodes[1..];
        if node.LeafPtr? {
          size := size - 1;
          ks, left, back := ks[..last], left[..|left| - 1], [ks[last]] + back;
          return Some((node.leaf.key, node.leaf.value));
        }
        ghost var bs, cs := PushFront(node);
        ks := TracksFrontKids(shape.value, was, ks, left, bs, cs);
      }
      TracksNone(shape, nodes, ks, left);
      return None;
    }
  }
}
