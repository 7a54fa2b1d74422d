/** The searches for a leaf to delete. */
module DeleteSearch {
  import opened Bytes
  import opened Tries
  import opened Surgery
  import opened Nodes
  import opened Shapes
  import opened Lookup
  import opened InsertSearch

  datatype DeletePoint = DeletePoint(grandparent: Option<Edge>, parent: Option<Edge>, leaf: LeafNode)

  /** The delete point leads to leaf `x`. */
  ghost predicate LeafPoint(s: Shape, x: Key, point: DeletePoint)
    reads s.repr
  {
    && LeafBelow(s, x, x, point.leaf)
    && ParentEdge(s, x, point.parent) && GrandparentEdge(s, x, point.grandparent)
  }

  /** `search_for_delete_point`: finds the leaf of a key, and the two edges that
      lead to it, exactly if the key is stored. */
  method SearchForDeletePoint(ghost s: Shape, root: NodePtr, key: Key) returns (r: Option<DeletePoint>)
    requires StoredAt(s, s.r, root)
    ensures r.Some? <==> key in Contents(s.t)
    ensures r.Some? ==> LeafPoint(s, key, r.value)
  {
    hide Shape.Valid, Shape.WF, NodePtr.Valid, Tries.WF;
    var grandparent, parent: Option<Edge> := None, None;
    var cur, depth := root, 0;
    ghost var x := s.r;
    RootReached(s, cur, key);
    while !cur.LeafPtr?
      invariant Reached(s, x, cur, key, depth) && s.WF()
      invariant ParentEdge(s, x, parent) && GrandparentEdge(s, x, grandparent)
      decreases KEY_LIMIT - |x|
    {
      NotBelow(s, x, key);
      var child;
      ghost var y;
      child, depth, y := CheckPrefixLookupChild(s, x, cur, key, depth);
      if child.None? {
        return None;
      }
      assert depth > 0;
      var lastKeyByte := key[depth - 1];
      EdgeTo(s, x, lastKeyByte);
      grandparent, parent := parent, Some((cur, lastKeyByte));
      cur, x := child.value, y;
    }
    NotBelow(s, x, key);
    Stored(s, x, cur);
    if cur.leaf.key == key {
      return Some(DeletePoint(grandparent, parent, cur.leaf));
    }
    return None;
  }

  /** If the key is stored, then the search is on the path to it. */
  lemma NotBelow(s: Shape, x: Key, key: Key)
    requires s.Valid() && x in s.t && NodeOk(s.t, x) && s.t[x].start <= |key|
      && key[..s.t[x].start] == x[..s.t[x].start]
    ensures key in Contents(s.t) ==> x == key || Below(s.t, x, key)
  {
    if key in Contents(s.t) {
      StoredBelow(s.t, s.r, x, key);
    }
  }

  /** One step down, to the child at edge `b`. */
  lemma StepDown(s: Shape, x: Key, p: NodePtr, b: byte)
    requires StoredAt(s, x, p) && s.t[x].Inner? && b in s.t[x].kids
    ensures !p.LeafPtr? && p.Valid() && b in p.Kids() && s.WF()
    ensures StoredAt(s, s.t[x].kids[b], p.Kids()[b]) && |x| < |s.t[x].kids[b]| < KEY_LIMIT
    ensures UpOk(s.t, s.t[x].kids[b]) && Parent(s.t, s.t[x].kids[b]) == x && s.t[x].kids[b] != s.r
    ensures ParentEdge(s, s.t[x].kids[b], Some((p, b)))
  {
    StoredKid(s, x, p, b);
    EdgeTo(s, x, b);
  }

  /** `find_minimum_to_delete`. */
  method FindMinimumToDelete(ghost s: Shape, root: NodePtr) returns (point: DeletePoint, ghost y: Key)
    requires StoredAt(s, s.r, root)
    ensures LeafPoint(s, y, point) && LeastBelow(s.t, [], y)
  {
    hide Shape.Valid, Shape.WF, NodePtr.Valid;
    var grandparent, parent: Option<Edge> := None, None;
    var cur := root;
    y := s.r;
    RootReached(s, cur, []);
    AtRoot(s.t, s.r);
    while !cur.LeafPtr?
      invariant StoredAt(s, y, cur) && LeastBelow(s.t, [], y) && s.WF() && |y| < KEY_LIMIT
      invariant ParentEdge(s, y, parent) && GrandparentEdge(s, y, grandparent)
      decreases KEY_LIMIT - |y|
    {
      Stored(s, y, cur);
      var b, c := cur.Min();
      StepDown(s, y, cur, b);
      ValidShape(s);
      LeastStep(s.t, s.r, [], y, b);
      grandparent, parent := parent, Some((cur, b));
      cur, y := c, s.t[y].kids[b];
    }
    Stored(s, y, cur);
    return DeletePoint(grandparent, parent, cur.leaf), y;
  }

  /** `find_maximum_to_delete`. */
  method FindMaximumToDelete(ghost s: Shape, root: NodePtr) returns (point: DeletePoint, ghost y: Key)
    requires StoredAt(s, s.r, root)
    ensures LeafPoint(s, y, point) && GreatestBelow(s.t, [], y)
  {
    hide Shape.Valid, Shape.WF, NodePtr.Valid;
    var grandparent, parent: Option<Edge> := None, None;
    var cur := root;
    y := s.r;
    RootReached(s, cur, []);
    AtRoot(s.t, s.r);
    while !cur.LeafPtr?
      invariant StoredAt(s, y, cur) && GreatestBelow(s.t, [], y) && s.WF() && |y| < KEY_LIMIT
      invariant ParentEdge(s, y, parent) && GrandparentEdge(s, y, grandparent)
      decreases KEY_LIMIT - |y|
    {
      Stored(s, y, cur);
      var b, c := cur.Max();
      StepDown(s, y, cur, b);
      ValidShape(s);
      GreatestStep(s.t, s.r, [], y, b);
      grandparent, parent := parent, Some((cur, b));
      cur, y := c, s.t[y].kids[b];
    }
    Stored(s, y, cur);
    return DeletePoint(grandparent, parent, cur.leaf), y;
  }

  /** Every node is at or below the root. */
  lemma AtRoot(t: Trie, r: Key)
    requires WF(t, r)
    ensures LeastBelow(t, [], r) && GreatestBelow(t, [], r)
  {
    forall z | z in t && t[z].Leaf? ensures r <= z {
      RootAbove(t, r, z);
    }
  }

  /** The insert search and the delete search agree: for a stored key the insert
      point is `Exact`, with the same leaf and the same edges. */
  lemma SearchesAgree(s: Shape, x: Key, key: Key, insert: InsertPoint, delete: DeletePoint)
    requires PointOk(s, x, key, insert) && LeafPoint(s, key, delete)
    ensures insert.insertType == Exact(delete.leaf)
    ensures insert.parent == delete.parent && insert.grandparent == delete.grandparent
  {
    match insert.insertType {
      case MismatchPrefix(m, _) => SplitFresh(s.t, s.r, x, insert.keyBytesUsed + m.matchedBytes, key); assert false;
      case SplitLeaf(_, d) => SplitFresh(s.t, s.r, x, d, key); assert false;
      case IntoExisting(_) => AddLeafFresh(s.t, s.r, x, key); assert false;
      case Exact(_) =>
    }
  }
}
