/** The owning iterator: it drains a map from both ends. */
module IntoIters {
  import opened Bytes
  import opened Tries
  import opened Shapes
  import opened Maps
  import opened Listings
  import Heaps
  import Frontiers

  /** In a listing of prefix-free keys the first key comes first. */
  lemma FirstListed(ks: seq<Key>, m: map<Key, Value>, k: Key)
    requires ListsKeys(ks, m) && IsFirst(m, k)
    ensures ks != [] && ks[0] == k && ListsKeys(ks[1..], m - {k})
  {
    assert k in ks;
    assert ks[0] in m;
    var i :| 0 <= i < |ks| && ks[i] == k;
    if i > 0 {
      assert Before(ks[0], ks[i]);
      LcpSymmetric(ks[0], k);
      ApartOrPrefix(k, ks[0]);
    }
    ListingWithoutFirst(ks, m);
  }

  lemma ListingWithoutFirst(ks: seq<Key>, m: map<Key, Value>)
    requires ListsKeys(ks, m) && ks != []
    ensures ListsKeys(ks[1..], m - {ks[0]})
  {
    var rest := ks[1..];
    assert ks == [ks[0]] + rest;
    Frontiers.IncreasingConcat([ks[0]], rest);
    forall k | k in rest ensures k != ks[0] && k in m {
      var i :| 0 <= i < |rest| && rest[i] == k;
      assert Before(ks[0], ks[i + 1]);
      assert k in ks;
    }
    forall k | k in m - {ks[0]} ensures k in rest {
      assert k in ks;
    }
  }

  lemma LastListed(ks: seq<Key>, m: map<Key, Value>, k: Key)
    requires ListsKeys(ks, m) && IsLast(m, k)
    ensures ks != [] && ks[|ks| - 1] == k && ListsKeys(ks[..|ks| - 1], m - {k})
  {
    var n := |ks| - 1;
    assert k in ks;
    assert ks[n] in m;
    LastIsGreatest(ks, k);
    if k != ks[n] {
      LcpSymmetric(ks[n], k);
      ApartOrPrefix(k, ks[n]);
    }
    ListingWithoutLast(ks, m);
  }

  lemma ListedNone(ks: seq<Key>, m: map<Key, Value>)
    requires ListsKeys(ks, m)
    ensures ks == [] <==> m == map[]
  {
    if ks != [] {
      assert ks[0] in m;
    }
    if ks == [] {
      assert forall k :: k in m ==> k in ks;
    }
  }

  lemma ListingOf(tree: TreeMap) returns (ks: seq<Key>)
    requires tree.Valid()
    ensures ListsKeys(ks, tree.Entries())
  {
    match tree.shape {
      case None => ks := [];
      case Some(s) =>
        AllLeaves(s.t, s.r);
        ks := Leaves(s.t, s.r, s.r);
    }
  }

  class IntoIter {
    const tree: TreeMap
    /** The entries of the map when the iterator was made, and their keys, split
        into those that `Next` has returned, those that are left, and those that
        `NextBack` has returned; all in key order. */
    ghost const entries: map<Key, Value>
    ghost const all: seq<Key>
    ghost var front: seq<Key>
    ghost var left: seq<Key>
    ghost var back: seq<Key>

    ghost predicate Valid()
      reads this, tree, tree.Repr()
    {
      && tree.Valid() && this !in tree.Repr()
      && ListsKeys(all, entries) && all == front + left + back
      && ListsKeys(left, tree.Entries())
      && forall k :: k in tree.Entries() ==> k in entries && tree.Entries()[k] == entries[k]
    }

    constructor (tree: TreeMap)
      requires tree.Valid()
      ensures Valid() && this.tree == tree && entries == tree.Entries() && front == back == []
    {
      hide Shape.Valid, Shape.WF, Heaps.Accounts, Contents, ListsKeys;
      ghost var ks := ListingOf(tree);
      this.tree, entries := tree, tree.Entries();
      all, left, front, back := ks, ks, [], [];
      new;
    }

    method Next() returns (r: Option<(Key, Value)>)
      requires Valid()
      modifies this, tree.Repr()
      ensures Valid() && back == old(back) && fresh(tree.Repr() - old(tree.Repr()))
      ensures r.None? ==> old(left) == [] && left == [] && front == old(front)
      ensures r.Some? ==> old(left) == [r.value.0] + left && front == old(front) + [r.value.0]
      ensures r.Some? ==> EntryAt(entries, r.value.0) == r
    {
      hide ListsKeys, IsFirst, TreeMap.Valid, TreeMap.Entries, LexLess, EntryAt;
      ListedNone(left, tree.Entries());
      ghost var m := tree.Entries();
      r := tree.PopFirst();
      if r.Some? {
        FirstListed(left, m, r.value.0);
        FirstStored(m, r.value.0);
        AsEntry(entries, r.value);
        left, front := left[1..], front + [r.value.0];
      }
    }

    method NextBack() returns (r: Option<(Key, Value)>)
      requires Valid()
      modifies this, tree.Repr()
      ensures Valid() && front == old(front) && fresh(tree.Repr() - old(tree.Repr()))
      ensures r.None? ==> old(left) == [] && left == [] && back == old(back)
      ensures r.Some? ==> old(left) == left + [r.value.0] && back == [r.value.0] + old(back)
      ensures r.Some? ==> EntryAt(entries, r.value.0) == r
    {
      hide ListsKeys, IsLast, TreeMap.Valid, TreeMap.Entries, LexLess, EntryAt;
      ListedNone(left, tree.Entries());
      ghost var m := tree.Entries();
      r := tree.PopLast();
      if r.Some? {
        LastListed(left, m, r.value.0);
        LastStored(m, r.value.0);
        AsEntry(entries, r.value);
        left, back := left[..|left| - 1], [r.value.0] + back;
      }
    }
  }

  lemma AsEntry(m: map<Key, Value>, e: (Key, Value))
    requires e.0 in m && m[e.0] == e.1
    ensures EntryAt(m, e.0) == Some(e)
  {
  }

  lemma FirstStored(m: map<Key, Value>, k: Key)
    requires IsFirst(m, k)
    ensures k in m
  {
  }

  lemma LastStored(m: map<Key, Value>, k: Key)
    requires IsLast(m, k)
    ensures k in m
  {
  }
}
