/** Entries: views of one key of a map, found once and then changed. */
module Entries {
  import opened Bytes
  import opened Tries
  import opened Surgery
  import opened Nodes
  import opened Shapes
  import opened InsertSearch
  import opened DeleteSearch
  import opened Maps
  import Heaps
  import Lookup
  import InsertApply
  import Delete

  /** A key that is in the map, with the edges that lead to its leaf. */
  datatype OccupiedEntry = OccupiedEntry(tree: TreeMap, leaf: LeafNode, grandparent: Option<Edge>, parent: Option<Edge>)
  {
    /** The entry still leads to the leaf of `key`. */
    ghost predicate At(key: Key)
      reads tree, tree.Repr()
    {
      && tree.Valid() && tree.shape.Some?
      && LeafPoint(tree.shape.value, key, DeletePoint(grandparent, parent, leaf))
    }

    /** `get`. */
    method Get(ghost key: Key) returns (value: Value)
      requires At(key)
      ensures key in tree.Entries() && value == tree.Entries()[key]
    {
      Stored(tree.shape.value, key, LeafPtr(leaf));
      value := leaf.value;
    }

    /** `insert`: replaces the value, and leaves the entry in place. */
    method Insert(value: Value, ghost key: Key) returns (previous: Value)
      requires At(key)
      modifies tree.Repr()
      ensures At(key) && key in old(tree.Entries()) && previous == old(tree.Entries())[key]
      ensures tree.Entries() == old(tree.Entries())[key := value]
      ensures tree.Repr() == old(tree.Repr())
    {
      hide Tries.WF, Heaps.Places, NodePtr.Repr, NodePtr.Valid;
      ghost var s := tree.shape.value;
      Stored(s, key, LeafPtr(leaf));
      UpdateSize(tree.Entries(), key, value);
      var replaced;
      ghost var s1;
      replaced, s1 := InsertApply.ReplaceExact(s, key, leaf, leaf.key, value, tree.root.value);
      tree.shape := Some(s1);
      previous := replaced.1;
      SameEdges(s, s1, key, value, parent, grandparent);
    }

    /** `remove_entry`: removing through an entry that was found occupied removes
        what `TreeMap.RemoveEntry` removes. */
    method RemoveEntry(ghost key: Key) returns (entry: (Key, Value))
      requires At(key)
      modifies tree.Repr()
      ensures tree.Valid() && fresh(tree.Repr() - old(tree.Repr()))
      ensures key in old(tree.Entries()) && entry == (key, old(tree.Entries())[key])
      ensures tree.Entries() == old(tree.Entries()) - {key}
      ensures tree.heap.early == old(tree.heap.early) + Delete.FreedEarly(old(tree.shape).value, key)
    {
      var res := tree.ApplyDeletePoint(key, DeletePoint(grandparent, parent, leaf));
      entry := (res.deleted.key, res.deleted.value);
    }
  }

  /** A key that is not in the map, with the place where it belongs. */
  datatype VacantEntry = VacantEntry(tree: TreeMap, key: Key, insertPoint: Option<InsertPoint>)
  {
    ghost predicate Valid()
      reads tree, tree.Repr()
    {
      && tree.Valid() && |key| < KEY_LIMIT && key !in tree.Entries()
      && match insertPoint
         case None => tree.root.None?
         case Some(point) => tree.shape.Some? && exists x :: PointOk(tree.shape.value, x, key, point)
    }

    /** `insert_entry`. The new entry leads to the new leaf; the edges it carries
        are those from before the insertion, and right only if there was no tree. */
    method InsertEntry(value: Value) returns (entry: OccupiedEntry)
      requires Valid()
      modifies tree.Repr()
      ensures tree.Valid() && fresh(tree.Repr() - old(tree.Repr()))
      ensures tree.Entries() == old(tree.Entries())[key := value]
      ensures entry.tree == tree && tree.shape.Some? && Lookup.LeafBelow(tree.shape.value, key, key, entry.leaf)
      ensures entry.At(key) <==> old(tree.root).None?
      ensures tree.heap.early == old(tree.heap.early)
        + if old(tree.shape).Some? then InsertApply.FreedEarly(old(tree.shape).value, key) else []
    {
      hide Tries.WF, Shape.WF, Shape.Valid, PointOk, Heaps.Places, NodePtr.Repr, NodePtr.Valid, LeafPoint, ParentEdge,
        OccupiedEntry.At, InsertApply.FreedEarly;
      match insertPoint {
        case Some(point) =>
          assert tree.root.Some?;
          ghost var x :| PointOk(tree.shape.value, x, key, point);
          var res := tree.ApplyInsertPoint(x, point, key, value);
          entry := OccupiedEntry(tree, res.leaf, point.grandparent, point.parent);
          OtherEdge(entry, key);
        case None =>
          var leaf := tree.InitTree(key, value);
          entry := OccupiedEntry(tree, leaf, None, None);
          RootEdge(entry, key);
      }
    }
  }

  /** An entry with another edge than the one to the leaf does not lead to it. */
  lemma OtherEdge(entry: OccupiedEntry, key: Key)
    requires entry.tree.shape.Some? && entry.tree.shape.value.WF() && key in entry.tree.shape.value.t
    requires !ParentEdge(entry.tree.shape.value, key, entry.parent)
    ensures !entry.At(key)
  {
  }

  lemma RootEdge(entry: OccupiedEntry, key: Key)
    requires entry.tree.Valid() && entry.tree.shape.Some?
    requires LeafPoint(entry.tree.shape.value, key, DeletePoint(entry.grandparent, entry.parent, entry.leaf))
    ensures entry.At(key)
  {
  }

  datatype Entry = Occupied(occupied: OccupiedEntry) | Vacant(vacant: VacantEntry)

  /** An edge that leads to a node still does if no node moved. */
  lemma SameEdges(s: Shape, s1: Shape, x: Key, value: Value, parent: Option<Edge>, grandparent: Option<Edge>)
    requires s.WF() && x in s.t && s.t[x].Leaf? && s1 == Shape(SetValue(s.t, x, value), s.at, s.r, s.repr)
    requires s1.WF()
    requires ParentEdge(s, x, parent) && GrandparentEdge(s, x, grandparent)
    ensures ParentEdge(s1, x, parent) && GrandparentEdge(s1, x, grandparent)
  {
  }

  /** `try_entry`. */
  method TryEntry(tree: TreeMap, key: Key) returns (r: Result<Entry>)
    requires tree.Valid() && |key| < KEY_LIMIT
    ensures r.InsertPrefixError? <==> PrefixClash(tree.Entries(), key)
    ensures r.InsertPrefixError? ==> r.bytes == key
    ensures r.Ok? && r.value.Occupied? ==>
      key in tree.Entries() && r.value.occupied.tree == tree && r.value.occupied.At(key)
    ensures r.Ok? && r.value.Vacant? ==>
      r.value.vacant.tree == tree && r.value.vacant.key == key && r.value.vacant.Valid()
  {
    if tree.root.None? {
      return Ok(Vacant(VacantEntry(tree, key, None)));
    }
    ghost var s := tree.shape.value;
    ghost var x;
    var found;
    found, x := SearchForInsertPoint(s, tree.root.value, key);
    ClashesAgree(s.t, key);
    if found.InsertPrefixError? {
      return Result.InsertPrefixError(found.bytes);
    }
    var point := found.point;
    if point.insertType.Exact? {
      return Ok(Occupied(OccupiedEntry(tree, point.insertType.leaf, point.grandparent, point.parent)));
    }
    NotStored(s, x, key, point);
    return Ok(Vacant(VacantEntry(tree, key, Some(point))));
  }

  /** Inserting through the entry of a key does what `TreeMap.TryInsert` does. */
  method InsertByEntry(tree: TreeMap, key: Key, value: Value) returns (r: Result<Option<Value>>)
    requires tree.Valid() && |key| < KEY_LIMIT
    modifies tree.Repr()
    ensures tree.Valid() && fresh(tree.Repr() - old(tree.Repr()))
    ensures r.InsertPrefixError? <==> PrefixClash(old(tree.Entries()), key)
    ensures r.InsertPrefixError? ==> r.bytes == key && tree.Entries() == old(tree.Entries())
    ensures r.Ok? ==> tree.Entries() == old(tree.Entries())[key := value]
    ensures r.Ok? ==> r.value == if key in old(tree.Entries()) then Some(old(tree.Entries())[key]) else None
  {
    hide TreeMap.Valid, TreeMap.Entries, PrefixClash, OccupiedEntry.At, VacantEntry.Valid;
    ghost var objects := tree.Repr();
    var found := TryEntry(tree, key);
    assert tree.Repr() == objects;
    match found {
      case InsertPrefixError(bytes) => return Result.InsertPrefixError(bytes);
      case Ok(Occupied(entry)) =>
        EntryTree(entry, key);
        var previous := entry.Insert(value, key);
        EntryTree(entry, key);
        return Ok(Some(previous));
      case Ok(Vacant(entry)) =>
        VacantKey(entry);
        var inserted := entry.InsertEntry(value);
        return Ok(None);
    }
  }

  lemma VacantKey(entry: VacantEntry)
    requires entry.Valid()
    ensures var m := entry.tree.Entries();
      entry.key !in m && m - {entry.key} == m
  {
  }

  lemma EntryTree(entry: OccupiedEntry, key: Key)
    requires entry.At(key)
    ensures entry.tree.Valid()
  {
  }

  /** Removing through the entry of a key does what `TreeMap.RemoveEntry` does. */
  method RemoveByEntry(tree: TreeMap, key: Key) returns (r: Result<Option<(Key, Value)>>)
    requires tree.Valid() && |key| < KEY_LIMIT
    modifies tree.Repr()
    ensures tree.Valid() && fresh(tree.Repr() - old(tree.Repr()))
    ensures r.InsertPrefixError? <==> PrefixClash(old(tree.Entries()), key)
    ensures r.InsertPrefixError? ==> r.bytes == key && tree.Entries() == old(tree.Entries())
    ensures r.Ok? ==> tree.Entries() == old(tree.Entries()) - {key}
    ensures r.Ok? ==> r.value == if key in old(tree.Entries()) then Some((key, old(tree.Entries())[key])) else None
  {
    hide TreeMap.Valid, TreeMap.Entries, PrefixClash, OccupiedEntry.At, VacantEntry.Valid;
    ghost var objects := tree.Repr();
    var found := TryEntry(tree, key);
    assert tree.Repr() == objects;
    match found {
      case InsertPrefixError(bytes) => return Result.InsertPrefixError(bytes);
      case Ok(Occupied(entry)) =>
        EntryTree(entry, key);
        var removed := entry.RemoveEntry(key);
        return Ok(Some(removed));
      case Ok(Vacant(entry)) =>
        VacantKey(entry);
        return Ok(None);
    }
  }

  /** If the insert search does not end at the key's own leaf, then the key is not
      in the map. */
  lemma NotStored(s: Shape, x: Key, key: Key, point: InsertPoint)
    requires PointOk(s, x, key, point) && !point.insertType.Exact?
    ensures key !in s.t
  {
    match point.insertType {
      case MismatchPrefix(m, _) => SplitFresh(s.t, s.r, x, point.keyBytesUsed + m.matchedBytes, key);
      case SplitLeaf(_, d) => SplitFresh(s.t, s.r, x, d, key);
      case IntoExisting(_) => AddLeafFresh(s.t, s.r, x, key);
    }
  }
}
