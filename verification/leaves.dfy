/** The leaves below a node, listed in key order. */
module Listings {
  import opened Bytes
  import opened Layouts
  import opened Tries
  import opened Frontiers

  /** The keys of the leaves at or below node `x`: those below its child at edge
      0 first, then those below its child at edge 1, and so on. */
  ghost function Leaves(t: Trie, r: Key, x: Key): seq<Key>
    requires WF(t, r) && x in t
    decreases KEY_LIMIT - |x|, 257
  {
    if t[x].Leaf? then [x] else LeavesFrom(t, r, x, 0)
  }

  ghost function LeavesFrom(t: Trie, r: Key, x: Key, b: nat): seq<Key>
    requires WF(t, r) && x in t && t[x].Inner? && b <= 256
    decreases KEY_LIMIT - |x|, 256 - b
  {
    if b == 256 then []
    else if b in t[x].kids then
      assert KidOk(t, x, b) && NodeOk(t, t[x].kids[b]);
      Leaves(t, r, t[x].kids[b]) + LeavesFrom(t, r, x, b + 1)
    else LeavesFrom(t, r, x, b + 1)
  }

  /** The leaves below each of a list of nodes. */
  ghost function LeavesOf(t: Trie, r: Key, ks: seq<Key>): seq<Key>
    requires WF(t, r) && InTree(t, ks)
  {
    if ks == [] then []
    else
      assert ks[0] in t && forall i {:trigger ks[1..][i]} | 0 <= i < |ks| - 1 :: ks[1..][i] == ks[i + 1];
      Leaves(t, r, ks[0]) + LeavesOf(t, r, ks[1..])
  }

  lemma InTreeConcat(t: Trie, ks: seq<Key>, ls: seq<Key>)
    ensures InTree(t, ks + ls) <==> InTree(t, ks) && InTree(t, ls)
  {
    if InTree(t, ks + ls) {
      forall i | 0 <= i < |ks| ensures ks[i] in t {
        assert (ks + ls)[i] in t;
      }
      forall i | 0 <= i < |ls| ensures ls[i] in t {
        assert (ks + ls)[|ks| + i] in t;
      }
    }
  }

  lemma {:induction false} LeavesConcat(t: Trie, r: Key, ks: seq<Key>, ls: seq<Key>)
    requires WF(t, r) && InTree(t, ks) && InTree(t, ls)
    ensures InTree(t, ks + ls)
    ensures LeavesOf(t, r, ks + ls) == LeavesOf(t, r, ks) + LeavesOf(t, r, ls)
  {
    InTreeConcat(t, ks, ls);
    if ks == [] {
      assert ks + ls == ls;
    } else {
      assert ks == [ks[0]] + ks[1..];
      InTreeConcat(t, [ks[0]], ks[1..]);
      assert (ks + ls)[1..] == ks[1..] + ls;
      LeavesConcat(t, r, ks[1..], ls);
    }
  }

  lemma LeavesOne(t: Trie, r: Key, x: Key)
    requires WF(t, r) && x in t
    ensures InTree(t, [x]) && LeavesOf(t, r, [x]) == Leaves(t, r, x)
  {
    assert LeavesOf(t, r, [x][1..]) == [];
  }

  lemma LeavesSplit(t: Trie, r: Key, ls: seq<Key>, x: Key, rs: seq<Key>)
    requires WF(t, r) && InTree(t, ls + [x] + rs)
    ensures InTree(t, ls) && x in t && InTree(t, rs)
    ensures LeavesOf(t, r, ls + [x] + rs) == LeavesOf(t, r, ls) + Leaves(t, r, x) + LeavesOf(t, r, rs)
  {
    hide Tries.WF;
    InTreeConcat(t, ls + [x], rs);
    InTreeConcat(t, ls, [x]);
    assert [x][0] in t;
    LeavesOne(t, r, x);
    LeavesConcat(t, r, ls, [x]);
    LeavesConcat(t, r, ls + [x], rs);
  }

  /** Every subtree has a leaf. */
  lemma {:induction false} LeavesMany(t: Trie, r: Key, ks: seq<Key>)
    requires WF(t, r) && InTree(t, ks)
    ensures |ks| <= |LeavesOf(t, r, ks)|
  {
    if ks != [] {
      assert ks == [ks[0]] + ks[1..];
      InTreeConcat(t, [ks[0]], ks[1..]);
      var y := LeafExists(t, r, ks[0]);
      LeavesComplete(t, r, ks[0], y);
      LeavesMany(t, r, ks[1..]);
    }
  }

  lemma LeavesNext(t: Trie, r: Key, ks: seq<Key>, i: nat)
    requires WF(t, r) && InTree(t, ks) && i < |ks|
    ensures InTree(t, ks[..i]) && InTree(t, ks[..i + 1]) && ks[i] in t
    ensures LeavesOf(t, r, ks[..i + 1]) == LeavesOf(t, r, ks[..i]) + Leaves(t, r, ks[i])
    ensures 1 <= |Leaves(t, r, ks[i])|
  {
    hide Tries.WF;
    assert ks == ks[..i + 1] + ks[i + 1..] && ks[..i + 1] == ks[..i] + [ks[i]];
    InTreeConcat(t, ks[..i + 1], ks[i + 1..]);
    InTreeConcat(t, ks[..i], [ks[i]]);
    LeavesOne(t, r, ks[i]);
    LeavesConcat(t, r, ks[..i], [ks[i]]);
    LeavesMany(t, r, [ks[i]]);
  }

  /** Listing the children of a node lists the leaves below it. */
  lemma LeavesKids(t: Trie, r: Key, x: Key, bs: seq<byte>)
    requires WF(t, r) && x in t && t[x].Inner? && AllEdges(t, x, bs)
    ensures InTree(t, KidPaths(t, x, bs))
    ensures Leaves(t, r, x) == LeavesOf(t, r, KidPaths(t, x, bs))
  {
    KidsIncreasing(t, r, x, bs);
    var ks := KidPaths(t, x, bs);
    assert ks[0..] == ks;
    LeavesKidsFrom(t, r, x, bs, ks, 0, 0);
  }

  lemma {:induction false} LeavesKidsFrom(t: Trie, r: Key, x: Key, bs: seq<byte>, ks: seq<Key>, b: nat, i: nat)
    requires WF(t, r) && x in t && t[x].Inner? && AllEdges(t, x, bs) && b <= 256 && i <= |bs|
    requires ks == KidPaths(t, x, bs) && InTree(t, ks) && InTree(t, ks[i..])
    requires (forall j :: 0 <= j < i ==> bs[j] < b) && (forall j :: i <= j < |bs| ==> b <= bs[j])
    ensures LeavesFrom(t, r, x, b) == LeavesOf(t, r, ks[i..])
    decreases 256 - b
  {
    if b == 256 {
      assert ks[i..] == [];
    } else {
      hide Tries.WF, Sorted, Leaves, LeavesFrom, LeavesOf;
      NextEdge(t, x, bs, b, i);
      FromStep(t, r, x, b);
      if b in t[x].kids {
        OfStep(t, r, ks, i);
        LeavesKidsFrom(t, r, x, bs, ks, b + 1, i + 1);
      } else {
        LeavesKidsFrom(t, r, x, bs, ks, b + 1, i);
      }
    }
  }

  lemma FromStep(t: Trie, r: Key, x: Key, b: byte)
    requires WF(t, r) && x in t && t[x].Inner?
    ensures b in t[x].kids ==> KidOk(t, x, b) && |t[x].kids[b]| < KEY_LIMIT
    ensures LeavesFrom(t, r, x, b)
      == (if b in t[x].kids then Leaves(t, r, t[x].kids[b]) else []) + LeavesFrom(t, r, x, b + 1)
  {
    assert b in t[x].kids ==> KidOk(t, x, b) && NodeOk(t, t[x].kids[b]);
  }

  lemma OfStep(t: Trie, r: Key, ks: seq<Key>, i: nat)
    requires WF(t, r) && i < |ks| && InTree(t, ks[i..])
    ensures InTree(t, ks[i + 1..]) && ks[i] in t
    ensures LeavesOf(t, r, ks[i..]) == Leaves(t, r, ks[i]) + LeavesOf(t, r, ks[i + 1..])
  {
    assert ks[i..] == [ks[i]] + ks[i + 1..] && ks[i..][1..] == ks[i + 1..];
    InTreeConcat(t, [ks[i]], ks[i + 1..]);
    assert [ks[i]][0] in t;
  }

  lemma NextEdge(t: Trie, x: Key, bs: seq<byte>, b: byte, i: nat)
    requires x in t && t[x].Inner? && AllEdges(t, x, bs) && i <= |bs|
    requires (forall j :: 0 <= j < i ==> bs[j] < b) && (forall j :: i <= j < |bs| ==> b <= bs[j])
    ensures b in t[x].kids <==> i < |bs| && bs[i] == b
    ensures forall j :: i < j < |bs| ==> b + 1 <= bs[j]
    ensures b !in t[x].kids ==> forall j :: i <= j < |bs| ==> b + 1 <= bs[j]
  {
  }

  /** The keys are leaves at or below `x`. */
  ghost predicate LeafKeysBelow(t: Trie, x: Key, ks: seq<Key>) {
    forall i {:trigger ks[i]} | 0 <= i < |ks| :: ks[i] in t && t[ks[i]].Leaf? && x <= ks[i]
  }

  /** The keys go on from `x` with a byte that is at least `b`. */
  ghost predicate GoOnFrom(x: Key, b: nat, ks: seq<Key>) {
    forall i {:trigger ks[i]} | 0 <= i < |ks| :: |x| < |ks[i]| && b <= ks[i][|x|]
  }

  lemma {:induction false} LeavesBelow(t: Trie, r: Key, x: Key)
    requires WF(t, r) && x in t
    ensures LeafKeysBelow(t, x, Leaves(t, r, x)) && Increasing(Leaves(t, r, x))
    decreases KEY_LIMIT - |x|, 257
  {
    if t[x].Inner? {
      LeavesFromBelow(t, r, x, 0);
    }
  }

  lemma {:induction false} LeavesFromBelow(t: Trie, r: Key, x: Key, b: nat)
    requires WF(t, r) && x in t && t[x].Inner? && b <= 256
    ensures LeafKeysBelow(t, x, LeavesFrom(t, r, x, b)) && Increasing(LeavesFrom(t, r, x, b))
    ensures GoOnFrom(x, b, LeavesFrom(t, r, x, b))
    decreases KEY_LIMIT - |x|, 256 - b
  {
    if b < 256 {
      hide Tries.WF, Leaves, LeavesFrom, Increasing, LeafKeysBelow, GoOnFrom;
      LeavesFromBelow(t, r, x, b + 1);
      FromStep(t, r, x, b);
      var ls := LeavesFrom(t, r, x, b + 1);
      if b in t[x].kids {
        LeavesBelow(t, r, t[x].kids[b]);
        OneMoreKid(t, x, b, Leaves(t, r, t[x].kids[b]), ls);
      } else {
        assert [] + ls == ls;
        GoOnWeaker(x, b, ls);
      }
    }
  }

  lemma GoOnWeaker(x: Key, b: nat, ks: seq<Key>)
    requires GoOnFrom(x, b + 1, ks)
    ensures GoOnFrom(x, b, ks)
  {
  }

  /** The leaves below the child at edge `b` come before those at later edges. */
  lemma OneMoreKid(t: Trie, x: Key, b: byte, ks: seq<Key>, ls: seq<Key>)
    requires x in t && t[x].Inner? && b in t[x].kids && KidOk(t, x, b)
    requires LeafKeysBelow(t, t[x].kids[b], ks) && Increasing(ks)
    requires LeafKeysBelow(t, x, ls) && Increasing(ls) && GoOnFrom(x, b + 1, ls)
    ensures LeafKeysBelow(t, x, ks + ls) && Increasing(ks + ls) && GoOnFrom(x, b, ks + ls)
  {
    forall i, j | 0 <= i < |ks| && 0 <= j < |ls| ensures Before(ks[i], ls[j]) {
      LcpUnique(ks[i], ls[j], |x|);
    }
    IncreasingConcat(ks, ls);
  }

  /** The listing misses no leaf. */
  lemma {:induction false} LeavesComplete(t: Trie, r: Key, x: Key, z: Key)
    requires WF(t, r) && x in t && z in t && t[z].Leaf? && x <= z
    ensures z in Leaves(t, r, x)
    decreases KEY_LIMIT - |x|, 257
  {
    Relate(t, r, x, z);
    BelowOrApart(t, x, z);
    if x != z {
      LeavesFromComplete(t, r, x, 0, z);
    }
  }

  lemma {:induction false} LeavesFromComplete(t: Trie, r: Key, x: Key, b: nat, z: Key)
    requires WF(t, r) && x in t && z in t && t[z].Leaf? && Below(t, x, z) && b <= z[|x|]
    ensures z in LeavesFrom(t, r, x, b)
    decreases KEY_LIMIT - |x|, 256 - b
  {
    if b < z[|x|] {
      LeavesFromComplete(t, r, x, b + 1, z);
    } else {
      assert KidOk(t, x, b) && NodeOk(t, t[x].kids[b]);
      LeavesComplete(t, r, t[x].kids[b], z);
    }
  }

  /** The increasing listing of the keys of a map. */
  ghost predicate ListsKeys(ks: seq<Key>, m: map<Key, Value>) {
    Increasing(ks) && forall k :: k in ks <==> k in m
  }

  /** All leaves of a tree, in order, are the stored keys, in order. */
  lemma AllLeaves(t: Trie, r: Key)
    requires WF(t, r)
    ensures ListsKeys(Leaves(t, r, r), Contents(t))
    ensures |Leaves(t, r, r)| == |Contents(t)|
  {
    var ks := Leaves(t, r, r);
    LeavesBelow(t, r, r);
    forall z | z in Contents(t) ensures z in ks {
      RootAbove(t, r, z);
      LeavesComplete(t, r, r, z);
    }
    IncreasingSize(ks, Contents(t).Keys);
  }

  lemma {:induction false} IncreasingSize(ks: seq<Key>, s: set<Key>)
    requires Increasing(ks) && forall k :: k in ks <==> k in s
    ensures |ks| == |s|
  {
    if ks == [] {
      assert s == {};
    } else {
      var n := |ks| - 1;
      assert ks == ks[..n] + [ks[n]] && ks[n] in s;
      IncreasingInit(ks);
      IncreasingSize(ks[..n], s - {ks[n]});
    }
  }

  /** There is only one increasing listing of the keys of a map. */
  lemma {:induction false} ListingUnique(ks: seq<Key>, ls: seq<Key>, m: map<Key, Value>)
    requires ListsKeys(ks, m) && ListsKeys(ls, m)
    ensures ks == ls
    decreases |m|
  {
    hide ListsKeys;
    ListingSize(ks, m);
    ListingSize(ls, m);
    if ks != [] {
      var n := |ks| - 1;
      SameLast(ks, ls, m);
      ListingWithoutLast(ks, m);
      ListingWithoutLast(ls, m);
      ListingUnique(ks[..n], ls[..n], m - {ks[n]});
      SamePieces(ks, ls, n);
    }
  }

  lemma ListingSize(ks: seq<Key>, m: map<Key, Value>)
    requires ListsKeys(ks, m)
    ensures |ks| == |m|
  {
    IncreasingSize(ks, m.Keys);
  }

  lemma SamePieces(ks: seq<Key>, ls: seq<Key>, n: nat)
    requires n < |ks| == |ls| == n + 1 && ks[..n] == ls[..n] && ks[n] == ls[n]
    ensures ks == ls
  {
    assert ks == ks[..n] + [ks[n]] && ls == ls[..n] + [ls[n]];
  }

  lemma LastIsGreatest(ks: seq<Key>, k: Key)
    requires Increasing(ks) && k in ks
    ensures k == ks[|ks| - 1] || Before(k, ks[|ks| - 1])
  {
    var i :| 0 <= i < |ks| && ks[i] == k;
    assert i < |ks| - 1 ==> Before(ks[i], ks[|ks| - 1]);
  }

  lemma SameLast(ks: seq<Key>, ls: seq<Key>, m: map<Key, Value>)
    requires ListsKeys(ks, m) && ListsKeys(ls, m) && |ks| == |ls| > 0
    ensures ks[|ks| - 1] == ls[|ls| - 1]
  {
    var a, b := ks[|ks| - 1], ls[|ls| - 1];
    assert a in ks && b in ls;
    LastIsGreatest(ls, a);
    LastIsGreatest(ks, b);
    LcpSymmetric(a, b);
  }

  lemma ListingWithoutLast(ks: seq<Key>, m: map<Key, Value>)
    requires ListsKeys(ks, m) && ks != []
    ensures ListsKeys(ks[..|ks| - 1], m - {ks[|ks| - 1]}) && ks[|ks| - 1] in m
    ensures |m - {ks[|ks| - 1]}| == |m| - 1
  {
    hide Increasing;
    var k := ks[|ks| - 1];
    IncreasingInit(ks);
    MemberInit(ks, k);
    RemoveSize(m, k);
    forall l ensures l in ks[..|ks| - 1] <==> l in m - {k} {
      MemberInit(ks, l);
    }
  }

  lemma MemberInit(ks: seq<Key>, l: Key)
    requires ks != []
    ensures l in ks <==> l in ks[..|ks| - 1] || l == ks[|ks| - 1]
  {
    assert ks == ks[..|ks| - 1] + [ks[|ks| - 1]];
  }

  lemma IncreasingInit(ks: seq<Key>)
    requires Increasing(ks) && ks != []
    ensures Increasing(ks[..|ks| - 1]) && ks[|ks| - 1] !in ks[..|ks| - 1]
  {
    var n := |ks| - 1;
    assert ks == ks[..n] + [ks[n]];
    IncreasingConcat(ks[..n], [ks[n]]);
    forall i | 0 <= i < n ensures ks[..n][i] != ks[n] {
      assert Before(ks[i], ks[n]);
    }
  }
}
