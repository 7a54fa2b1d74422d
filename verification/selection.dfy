/** Searches that list only some of the keys. */
module Selections {
  import opened Bytes
  import opened Tries
  import opened Frontiers
  import opened Listings

  /** The keys of a listing that are wanted, in the same order. */
  ghost function Select(ks: seq<Key>, wanted: iset<Key>): (ls: seq<Key>)
    ensures |ls| <= |ks|
  {
    if ks == [] then []
    else if ks[0] in wanted then [ks[0]] + Select(ks[1..], wanted)
    else Select(ks[1..], wanted)
  }

  lemma {:induction false} SelectConcat(ks: seq<Key>, ls: seq<Key>, wanted: iset<Key>)
    ensures Select(ks + ls, wanted) == Select(ks, wanted) + Select(ls, wanted)
  {
    if ks == [] {
      assert ks + ls == ls;
    } else {
      assert (ks + ls)[1..] == ks[1..] + ls;
      SelectConcat(ks[1..], ls, wanted);
    }
  }

  lemma {:induction false} SelectNone(ks: seq<Key>, wanted: iset<Key>)
    requires forall k :: k in ks ==> k !in wanted
    ensures Select(ks, wanted) == []
  {
    if ks != [] {
      assert forall k :: k in ks[1..] ==> k in ks;
      SelectNone(ks[1..], wanted);
    }
  }

  lemma {:induction false} SelectMember(ks: seq<Key>, wanted: iset<Key>, k: Key)
    ensures k in Select(ks, wanted) <==> k in ks && k in wanted
  {
    if ks != [] {
      assert ks == [ks[0]] + ks[1..];
      SelectMember(ks[1..], wanted, k);
    }
  }

  lemma {:induction false} SelectIncreasing(ks: seq<Key>, wanted: iset<Key>)
    requires Increasing(ks)
    ensures Increasing(Select(ks, wanted))
  {
    if ks != [] {
      var rest := ks[1..];
      assert ks == [ks[0]] + rest;
      IncreasingConcat([ks[0]], rest);
      SelectIncreasing(rest, wanted);
      var ls := Select(rest, wanted);
      forall j | 0 <= j < |ls| ensures Before(ks[0], ls[j]) {
        SelectMember(rest, wanted, ls[j]);
        var i :| 0 <= i < |rest| && rest[i] == ls[j];
        assert Before([ks[0]][0], rest[i]);
      }
      IncreasingConcat([ks[0]], ls);
    }
  }

  /** The increasing listing of the wanted keys of a map. */
  ghost predicate ListsWanted(ks: seq<Key>, m: map<Key, Value>, wanted: iset<Key>) {
    Increasing(ks) && forall k :: k in ks <==> k in m && k in wanted
  }

  lemma SelectLists(ks: seq<Key>, m: map<Key, Value>, wanted: iset<Key>)
    requires ListsKeys(ks, m)
    ensures ListsWanted(Select(ks, wanted), m, wanted)
  {
    SelectIncreasing(ks, wanted);
    forall k ensures k in Select(ks, wanted) <==> k in m && k in wanted {
      SelectMember(ks, wanted, k);
    }
  }
}
