/** The tree map. */
module Maps {
  import opened Bytes
  import opened Tries
  import opened Nodes
  import opened Shapes
  import opened Heaps
  import opened Lookup
  import opened InsertSearch
  import opened DeleteSearch
  import Reachability
  import InsertApply
  import Delete
  import Deallocation

  /** The error is the byte string of a key that was not inserted. */
  datatype Result<+T> = Ok(value: T) | InsertPrefixError(bytes: Key)

  /** Some other key of the map is a prefix of `key`, or the reverse. */
  ghost predicate PrefixClash(m: map<Key, Value>, key: Key) {
    exists y :: y in m && y != key && (y <= key || key <= y)
  }

  function EntryAt(m: map<Key, Value>, key: Key): Option<(Key, Value)> {
    if key in m then Some((key, m[key])) else None
  }

  /** The least and the greatest key of a map, in byte order. */
  ghost predicate IsFirst(m: map<Key, Value>, key: Key) {
    key in m && forall y :: y in m && y != key ==> LexLess(key, y)
  }

  ghost predicate IsLast(m: map<Key, Value>, key: Key) {
    key in m && forall y :: y in m && y != key ==> LexLess(y, key)
  }

  lemma ClashesAgree(t: Trie, key: Key)
    ensures Clashes(t, key) <==> PrefixClash(Contents(t), key)
  {
    if Clashes(t, key) {
      var y :| y in t && t[y].Leaf? && y != key && (y <= key || key <= y);
      assert y in Contents(t);
    }
    if PrefixClash(Contents(t), key) {
      var y :| y in Contents(t) && y != key && (y <= key || key <= y);
      assert y in t && t[y].Leaf?;
    }
  }

  lemma LeastIsFirst(t: Trie, r: Key, y: Key)
    requires WF(t, r) && y in t && t[y].Leaf? && LeastBelow(t, [], y)
    ensures IsFirst(Contents(t), y)
  {
    forall z | z in Contents(t) && z != y ensures LexLess(y, z) {
      assert y <= z || Before(y, z);
    }
  }

  lemma GreatestIsLast(t: Trie, r: Key, y: Key)
    requires WF(t, r) && y in t && t[y].Leaf? && GreatestBelow(t, [], y)
    ensures IsLast(Contents(t), y)
  {
    forall z | z in Contents(t) && z != y ensures LexLess(z, y) {
      assert y <= z || Before(z, y);
      if y <= z {
        NothingBelowLeaf(t, r, y, z);
      }
    }
  }

  class TreeMap {
    var numEntries: nat
    var root: Option<NodePtr>
    /** The nodes that the map has allocated and not yet freed. */
    const heap: NodeHeap
    /** What the nodes stand for. */
    ghost var shape: Option<Shape>

    ghost function Repr(): set<object>
      reads this`shape
    {
      {this, heap} + (if shape.Some? then shape.value.repr else {})
    }

    /** The map from keys to values that the tree stores. */
    ghost function Entries(): map<Key, Value>
      reads this`shape
    {
      if shape.Some? then Contents(shape.value.t) else map[]
    }

    /** The tree is well formed, its nodes are the live nodes of the heap, and
        its leaves are counted. */
    ghost predicate Valid()
      reads Repr()
    {
      && numEntries == |Entries()|
      && match shape
         case None => root == None && heap.live == {}
         case Some(s) =>
           root.Some? && StoredAt(s, s.r, root.value) && this !in s.repr && Accounts(heap, s)
    }

    /** `with_prefix_len`. */
    constructor ()
      ensures Valid() && fresh(Repr()) && Entries() == map[]
    {
      numEntries, root, shape := 0, None, None;
      heap := new NodeHeap();
    }

    method Clear()
      requires Valid()
      modifies Repr()
      ensures Valid() && Repr() <= old(Repr()) && Entries() == map[]
      ensures heap.early == old(heap.early) + if old(root).Some? then [old(root).value] else []
    {
      if root.Some? {
        Deallocation.DeallocateTree(heap, shape.value, root.value);
        numEntries, root, shape := 0, None, None;
      }
    }

    method Len() returns (len: nat)
      requires Valid()
      ensures len == |Entries()|
    {
      len := numEntries;
    }

    method GetKeyValue(key: Key) returns (r: Option<(Key, Value)>)
      requires Valid()
      ensures r == if key in Entries() then Some((key, Entries()[key])) else None
    {
      if root.None? {
        return None;
      }
      var leaf := Search(shape.value, root.value, key);
      if leaf.None? {
        return None;
      }
      return Some((leaf.value.key, leaf.value.value));
    }

    method Get(key: Key) returns (r: Option<Value>)
      requires Valid()
      ensures r == if key in Entries() then Some(Entries()[key]) else None
    {
      var e := GetKeyValue(key);
      return if e.Some? then Some(e.value.1) else None;
    }

    method FirstKeyValue() returns (r: Option<(Key, Value)>)
      requires Valid()
      ensures r.None? <==> Entries() == map[]
      ensures r.Some? ==> IsFirst(Entries(), r.value.0) && r.value.1 == Entries()[r.value.0]
      ensures r.Some? ==> forall y :: y in Entries() && y != r.value.0 ==> LexLess(r.value.0, y)
    {
      if root.None? {
        return None;
      }
      ghost var s := shape.value;
      Stored(s, s.r, root.value);
      var leaf;
      ghost var y;
      leaf, y := Minimum(s, s.r, root.value);
      Stored(s, y, LeafPtr(leaf));
      AtRoot(s.t, s.r);
      LeastOfAll(s.t, s.r, y);
      LeastIsFirst(s.t, s.r, y);
      return Some((leaf.key, leaf.value));
    }

    method LastKeyValue() returns (r: Option<(Key, Value)>)
      requires Valid()
      ensures r.None? <==> Entries() == map[]
      ensures r.Some? ==> IsLast(Entries(), r.value.0) && r.value.1 == Entries()[r.value.0]
      ensures r.Some? ==> forall y :: y in Entries() && y != r.value.0 ==> LexLess(y, r.value.0)
    {
      if root.None? {
        return None;
      }
      ghost var s := shape.value;
      var leaf;
      ghost var y;
      leaf, y := Maximum(s, s.r, root.value);
      Stored(s, y, LeafPtr(leaf));
      AtRoot(s.t, s.r);
      GreatestOfAll(s.t, s.r, y);
      GreatestIsLast(s.t, s.r, y);
      return Some((leaf.key, leaf.value));
    }

    method InitTree(key: Key, value: Value) returns (leaf: LeafNode)
      requires Valid() && root.None? && |key| < KEY_LIMIT
      modifies Repr()
      ensures Valid() && fresh(Repr() - old(Repr()))
      ensures Entries() == map[key := value]
      ensures shape.Some? && LeafPoint(shape.value, key, DeletePoint(None, None, leaf))
      ensures heap.early == old(heap.early)
    {
      leaf := new LeafNode(key, value);
      heap.Allocate(LeafPtr(leaf));
      root := Some(LeafPtr(leaf));
      numEntries := 1;
      ghost var s := Shape(map[key := Leaf(0, value)], map[key := LeafPtr(leaf)], key, {leaf});
      OneLeaf(s, key, value, leaf);
      shape := Some(s);
    }

    /** `apply_insert_point`. */
    method ApplyInsertPoint(ghost x: Key, point: InsertPoint, key: Key, value: Value)
      returns (res: InsertApply.InsertResult)
      requires Valid() && root.Some? && PointOk(shape.value, x, key, point) && |key| < KEY_LIMIT
      modifies Repr()
      ensures Valid() && fresh(Repr() - old(Repr()))
      ensures Entries() == old(Entries())[key := value]
      ensures res.existing == if key in old(Entries()) then Some((key, old(Entries())[key])) else None
      ensures shape.Some? && LeafBelow(shape.value, key, key, res.leaf)
      ensures heap.early == old(heap.early) + InsertApply.FreedEarly(old(shape).value, key)
      ensures key !in old(Entries()) ==>
        shape.value.WF() && key in shape.value.t && !ParentEdge(shape.value, key, point.parent)
    {
      hide Tries.WF, Shape.WF, Places, NodePtr.Repr;
      ghost var s1;
      res, s1 := InsertApply.Apply(heap, shape.value, x, point, key, value);
      root := Some(res.newRoot);
      UpdateSize(Entries(), key, value);
      if res.existing.None? {
        numEntries := numEntries + 1;
      }
      shape := Some(s1);
    }

    /** `apply_delete_point`. */
    method ApplyDeletePoint(ghost k: Key, point: DeletePoint) returns (res: Delete.DeleteResult)
      requires Valid() && root.Some? && LeafPoint(shape.value, k, point)
      modifies Repr()
      ensures Valid() && fresh(Repr() - old(Repr()))
      ensures k in old(Entries()) && Entries() == old(Entries()) - {k}
      ensures res.deleted.key == k && res.deleted.value == old(Entries())[k]
      ensures heap.early == old(heap.early) + Delete.FreedEarly(old(shape).value, k)
    {
      hide Tries.WF, Shape.WF, Places, NodePtr.Repr;
      ghost var s1;
      res, s1 := Delete.Apply(heap, shape.value, k, point, root.value);
      root := res.newRoot;
      RemoveSize(Entries(), k);
      numEntries := numEntries - 1;
      shape := if res.newRoot.Some? then Some(s1) else None;
    }

    /** `try_insert`: an error, and no change, exactly if the key clashes with a
        stored key; otherwise the map is updated. */
    method TryInsert(key: Key, value: Value) returns (r: Result<Option<Value>>)
      requires Valid() && |key| < KEY_LIMIT
      modifies Repr()
      ensures Valid() && fresh(Repr() - old(Repr()))
      ensures r.InsertPrefixError? <==> PrefixClash(old(Entries()), key)
      ensures r.InsertPrefixError? <==> exists y :: y in old(Entries()) && y != key && (y <= key || key <= y)
      ensures r.InsertPrefixError? ==>
        r.bytes == key && shape == old(shape) && root == old(root) && Entries() == old(Entries())
      ensures r.Ok? ==> Entries() == old(Entries())[key := value]
      ensures r.Ok? ==> r.value == if key in old(Entries()) then Some(old(Entries())[key]) else None
      ensures heap.early == old(heap.early)
        + if r.Ok? && old(shape).Some? then InsertApply.FreedEarly(old(shape).value, key) else []
    {
      hide Tries.WF, Shape.WF, Shape.Valid, Places, NodePtr.Repr;
      if root.None? {
        var _ := InitTree(key, value);
        return Ok(None);
      }
      ghost var x;
      var found;
      found, x := SearchForInsertPoint(shape.value, root.value, key);
      ClashesAgree(shape.value.t, key);
      if found.InsertPrefixError? {
        return Result.InsertPrefixError(found.bytes);
      }
      var res := ApplyInsertPoint(x, found.point, key, value);
      return Ok(if res.existing.Some? then Some(res.existing.value.1) else None);
    }

    /** `insert`: never fails on keys from a set in which no key is a prefix of
        another. */
    method Insert(key: Key, value: Value, ghost universe: iset<Key>) returns (r: Option<Value>)
      requires Valid() && |key| < KEY_LIMIT
      requires key in universe && forall y :: y in Entries() ==> y in universe
      requires forall x, y :: x in universe && y in universe && x <= y ==> x == y
      modifies Repr()
      ensures Valid() && fresh(Repr() - old(Repr()))
      ensures Entries() == old(Entries())[key := value]
      ensures r == if key in old(Entries()) then Some(old(Entries())[key]) else None
    {
      var res := TryInsert(key, value);
      return res.value;
    }

    /** `remove_entry`: removes exactly the entry of the key, if there is one. */
    method RemoveEntry(key: Key) returns (r: Option<(Key, Value)>)
      requires Valid()
      modifies Repr()
      ensures Valid() && fresh(Repr() - old(Repr()))
      ensures r == if key in old(Entries()) then Some((key, old(Entries())[key])) else None
      ensures Entries() == old(Entries()) - {key}
      ensures heap.early == old(heap.early) + if r.Some? then Delete.FreedEarly(old(shape).value, key) else []
    {
      if root.None? {
        return None;
      }
      var point := SearchForDeletePoint(shape.value, root.value, key);
      if point.None? {
        return None;
      }
      var res := ApplyDeletePoint(key, point.value);
      return Some((res.deleted.key, res.deleted.value));
    }

    /** `pop_first`: removes the entry with the least key. */
    method PopFirst() returns (r: Option<(Key, Value)>)
      requires Valid()
      modifies Repr()
      ensures Valid() && fresh(Repr() - old(Repr()))
      ensures r.None? <==> old(Entries()) == map[]
      ensures r.Some? ==> IsFirst(old(Entries()), r.value.0) && r.value.1 == old(Entries())[r.value.0]
      ensures r.Some? ==> forall y :: y in old(Entries()) && y != r.value.0 ==> LexLess(r.value.0, y)
      ensures Entries() == if r.Some? then old(Entries()) - {r.value.0} else old(Entries())
      ensures heap.early == old(heap.early) + if r.Some? then Delete.FreedEarly(old(shape).value, r.value.0) else []
    {
      if root.None? {
        return None;
      }
      ghost var y;
      var point;
      point, y := FindMinimumToDelete(shape.value, root.value);
      LeastIsFirst(shape.value.t, shape.value.r, y);
      var res := ApplyDeletePoint(y, point);
      return Some((res.deleted.key, res.deleted.value));
    }

    /** `pop_last`: removes the entry with the greatest key. */
    method PopLast() returns (r: Option<(Key, Value)>)
      requires Valid()
      modifies Repr()
      ensures Valid() && fresh(Repr() - old(Repr()))
      ensures r.None? <==> old(Entries()) == map[]
      ensures r.Some? ==> IsLast(old(Entries()), r.value.0) && r.value.1 == old(Entries())[r.value.0]
      ensures r.Some? ==> forall y :: y in old(Entries()) && y != r.value.0 ==> LexLess(y, r.value.0)
      ensures Entries() == if r.Some? then old(Entries()) - {r.value.0} else old(Entries())
      ensures heap.early == old(heap.early) + if r.Some? then Delete.FreedEarly(old(shape).value, r.value.0) else []
    {
      if root.None? {
        return None;
      }
      ghost var y;
      var point;
      point, y := FindMaximumToDelete(shape.value, root.value);
      GreatestIsLast(shape.value.t, shape.value.r, y);
      var res := ApplyDeletePoint(y, point);
      return Some((res.deleted.key, res.deleted.value));
    }
  }

  /** At the end of every operation the live nodes are those that the root leads to. */
  lemma LiveNodes(tree: TreeMap, q: NodePtr)
    requires tree.Valid()
    ensures q in tree.heap.live <==> tree.root.Some? && tree.heap.Reaches(tree.root.value, q)
  {
    if tree.root.Some? {
      Reachability.LiveReached(tree.heap, tree.shape.value, tree.root.value, q);
    }
  }

  lemma UpdateSize<K, V>(m: map<K, V>, k: K, v: V)
    ensures |m[k := v]| == if k in m then |m| else |m| + 1
  {
    if k in m {
      KeysSize(m[k := v], m);
    } else {
      RemoveSize(m[k := v], k);
      assert m[k := v] - {k} == m;
    }
  }

  lemma LeastOfAll(t: Trie, r: Key, y: Key)
    requires WF(t, r) && LeastBelow(t, r, y)
    ensures LeastBelow(t, [], y)
  {
    forall z | z in t && t[z].Leaf? && [] <= z ensures y <= z || Before(y, z) {
      RootAbove(t, r, z);
    }
  }

  lemma GreatestOfAll(t: Trie, r: Key, y: Key)
    requires WF(t, r) && GreatestBelow(t, r, y)
    ensures GreatestBelow(t, [], y)
  {
    forall z | z in t && t[z].Leaf? && [] <= z ensures y <= z || Before(z, y) {
      RootAbove(t, r, z);
    }
  }

  /** A tree of one leaf. */
  lemma OneLeaf(s: Shape, key: Key, value: Value, leaf: LeafNode)
    requires s == Shape(map[key := Leaf(0, value)], map[key := LeafPtr(leaf)], key, {leaf})
    requires leaf.key == key && leaf.value == value && |key| < KEY_LIMIT
    ensures StoredAt(s, s.r, LeafPtr(leaf)) && Places(s.at) == {LeafPtr(leaf)}
    ensures Contents(s.t) == map[key := value]
  {
    assert NodeOk(s.t, key);
    assert s.LinkedAt(key);
    Delete.SingleLeaf(s);
  }
}
