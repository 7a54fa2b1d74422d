/** Running the iterators of a map to their end. */
module Collecting {
  import opened Bytes
  import opened Tries
  import opened Maps
  import opened Listings
  import opened Selections
  import opened TreeIterators
  import opened PrefixIterators
  import opened Levenshtein
  import opened FuzzyIterators

  /** The values are those of the keys. */
  ghost predicate Pairs(keys: seq<Key>, values: seq<Value>, m: map<Key, Value>) {
    |values| == |keys| && forall i :: 0 <= i < |keys| ==> keys[i] in m && m[keys[i]] == values[i]
  }

  lemma PairsMore(keys: seq<Key>, values: seq<Value>, m: map<Key, Value>, e: (Key, Value))
    requires Pairs(keys, values, m) && EntryAt(m, e.0) == Some(e)
    ensures Pairs(keys + [e.0], values + [e.1], m)
  {
  }

  lemma ReversedMore(back: seq<Key>, k: Key)
    ensures Reversed([k] + back) == Reversed(back) + [k]
  {
  }

  /** The wanted keys have only one increasing listing. */
  lemma WantedUnique(ks: seq<Key>, ls: seq<Key>, m: map<Key, Value>, wanted: iset<Key>)
    requires ListsWanted(ks, m, wanted) && ListsWanted(ls, m, wanted)
    ensures ks == ls
  {
    ListingUnique(ks, ls, map k | k in m && k in wanted :: m[k]);
  }

  lemma PairsUnique(keys: seq<Key>, vs: seq<Value>, us: seq<Value>, m: map<Key, Value>)
    requires Pairs(keys, vs, m) && Pairs(keys, us, m)
    ensures vs == us
  {
  }

  lemma ReversedTwice(ks: seq<Key>)
    ensures Reversed(Reversed(ks)) == ks
  {
  }

  /** What listings in key order say of each key and of their order. */
  lemma KeysListed(keys: seq<Key>, m: map<Key, Value>)
    requires ListsKeys(keys, m)
    ensures forall k :: k in keys <==> k in m
    ensures forall i, j :: 0 <= i < j < |keys| ==> LexLess(keys[i], keys[j])
  {
    forall i, j | 0 <= i < j < |keys| ensures LexLess(keys[i], keys[j]) {
      assert Before(keys[i], keys[j]);
    }
  }

  lemma PrefixListed(keys: seq<Key>, m: map<Key, Value>, prefix: Key)
    requires ListsWanted(keys, m, Extensions(prefix))
    ensures forall k :: k in keys <==> k in m && prefix <= k
    ensures forall i, j :: 0 <= i < j < |keys| ==> LexLess(keys[i], keys[j])
  {
    forall i, j | 0 <= i < j < |keys| ensures LexLess(keys[i], keys[j]) {
      assert Before(keys[i], keys[j]);
    }
  }

  lemma NearListed(keys: seq<Key>, m: map<Key, Value>, q: Key, max: nat)
    requires ListsWanted(Reversed(keys), m, Near(q, max))
    ensures forall k :: k in keys <==> k in m && Distance(q, k) <= max
    ensures forall i, j :: 0 <= i < j < |keys| ==> LexLess(keys[j], keys[i])
  {
    hide Distance;
    var ks := Reversed(keys);
    WantedNear(ks, m, q, max);
    forall i, j | 0 <= i < j < |keys| ensures LexLess(keys[j], keys[i]) {
      assert Before(ks[|ks| - 1 - j], ks[|ks| - 1 - i]);
    }
    forall k ensures k in keys <==> k in m && Distance(q, k) <= max {
      ReversedMember(keys, k);
    }
  }

  lemma ReversedMember(ks: seq<Key>, k: Key)
    ensures k in Reversed(ks) <==> k in ks
  {
    if k in ks {
      var i :| 0 <= i < |ks| && ks[i] == k;
      assert Reversed(ks)[|ks| - 1 - i] == k;
    }
  }

  /** `iter` and `collect`. */
  method CollectAll(tree: TreeMap) returns (keys: seq<Key>, values: seq<Value>)
    requires tree.Valid()
    ensures ListsKeys(keys, tree.Entries()) && Pairs(keys, values, tree.Entries())
    ensures forall k :: k in keys <==> k in tree.Entries()
    ensures forall i, j :: 0 <= i < j < |keys| ==> LexLess(keys[i], keys[j])
  {
    hide TreeMap.Valid, TreeMap.Entries, ListsKeys, Pairs, EntryAt, Tracks;
    var it := new TreeIterator(tree);
    keys, values := [], [];
    ghost var m := tree.Entries();
    assert Pairs([], [], m) by { NoPairs(m); }
    while true
      invariant fresh(it) && it.Valid() && it.front == keys && it.back == [] && Pairs(keys, values, m)
      invariant it.entries == m == tree.Entries()
      decreases |it.left|
    {
      var r := it.Next();
      if r.None? {
        assert keys == it.front + it.left + it.back;
        KeysListed(keys, m);
        return;
      }
      PairsMore(keys, values, m, r.value);
      keys, values := keys + [r.value.0], values + [r.value.1];
    }
  }

  lemma NoPairs(m: map<Key, Value>)
    ensures Pairs([], [], m)
  {
  }

  /** `prefix` and `collect`. */
  method CollectPrefix(tree: TreeMap, prefix: Key) returns (keys: seq<Key>, values: seq<Value>)
    requires tree.Valid()
    ensures ListsWanted(keys, tree.Entries(), Extensions(prefix)) && Pairs(keys, values, tree.Entries())
    ensures forall k :: k in keys <==> k in tree.Entries() && prefix <= k
    ensures forall i, j :: 0 <= i < j < |keys| ==> LexLess(keys[i], keys[j])
  {
    hide TreeMap.Valid, TreeMap.Entries, ListsWanted, Pairs, EntryAt, Finds;
    var it := new Prefix(tree, prefix);
    keys, values := [], [];
    ghost var m := tree.Entries();
    assert Pairs([], [], m) by { NoPairs(m); }
    while true
      invariant fresh(it) && it.Valid() && it.front == keys && it.back == [] && Pairs(keys, values, m)
      invariant it.entries == m == tree.Entries()
      decreases |it.left|
    {
      var r := it.Next();
      if r.None? {
        assert keys == it.front + it.left + it.back;
        PrefixListed(keys, m, prefix);
        return;
      }
      PairsMore(keys, values, m, r.value);
      keys, values := keys + [r.value.0], values + [r.value.1];
    }
  }

  /** Edits that turn the query into each of the near keys. */
  lemma EditsTo(keys: seq<Key>, q: Key, max: nat) returns (edits: seq<seq<Edit>>)
    requires forall k :: k in keys ==> Distance(q, k) <= max
    ensures |edits| == |keys| && forall i {:trigger edits[i]} {:trigger keys[i]} :: 0 <= i < |keys| ==>
      Read(edits[i]) == q && Written(edits[i]) == keys[i] && Cost(edits[i]) <= max
  {
    hide Distance;
    if keys == [] {
      edits := [];
    } else {
      var rest := EditsTo(keys[1..], q, max);
      var first := DistanceReached(q, keys[0]);
      edits := [first] + rest;
    }
  }

  /** `fuzzy` and `collect`: the near keys, in descending order. These are exactly the
      keys that edits at no more than the cost turn the query into. */
  method CollectFuzzy(tree: TreeMap, key: Key, maxEditDist: nat)
    returns (keys: seq<Key>, values: seq<Value>, ghost edits: seq<seq<Edit>>)
    requires tree.Valid()
    ensures ListsWanted(Reversed(keys), tree.Entries(), Near(key, maxEditDist)) && Pairs(keys, values, tree.Entries())
    ensures forall k :: k in keys ==> k in tree.Entries()
    ensures |edits| == |keys| && forall i {:trigger edits[i]} {:trigger keys[i]} :: 0 <= i < |keys| ==>
      Read(edits[i]) == key && Written(edits[i]) == keys[i] && Cost(edits[i]) <= maxEditDist
    ensures forall es :: Read(es) == key && Cost(es) <= maxEditDist && Written(es) in tree.Entries() ==>
      Written(es) in keys
    ensures forall i, j :: 0 <= i < j < |keys| ==> LexLess(keys[j], keys[i])
  {
    hide TreeMap.Valid, TreeMap.Entries, ListsWanted, Pairs, EntryAt, Seeks, Reversed, Distance,
      LexLess, Near;
    var it := new Fuzzy(tree, key, maxEditDist);
    keys, values, edits := [], [], [];
    ghost var m := tree.Entries();
    assert Pairs([], [], m) by { NoPairs(m); }
    assert Reversed(it.back) == [] by { NoneReversed(); }
    while true
      invariant fresh(it) && it.Valid() && keys == Reversed(it.back) && Pairs(keys, values, m)
      invariant it.entries == m == tree.Entries()
      invariant fresh(it.oldRow) && fresh(it.newRow) && fresh(it.arena) && fresh(it.arena.data)
      decreases |it.left|
    {
      ghost var back := it.back;
      var r := it.Next();
      if r.None? {
        assert it.back == it.left + it.back;
        ReversedTwice(it.back);
        NearListed(keys, m, key, maxEditDist);
        edits := EditsTo(keys, key, maxEditDist);
        forall es | Read(es) == key && Cost(es) <= maxEditDist && Written(es) in m ensures Written(es) in keys {
          DistanceLeast(es);
        }
        return;
      }
      ReversedMore(back, r.value.0);
      PairsMore(keys, values, m, r.value);
      keys, values := keys + [r.value.0], values + [r.value.1];
    }
  }

  lemma NoneReversed()
    ensures Reversed<Key>([]) == []
  {
  }
}
