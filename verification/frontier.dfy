/** Worklists of subtrees, and the leaves below them in key order. Iterators and
    the deallocation of a tree keep such worklists. */
module Frontiers {
  import opened Bytes
  import opened Layouts
  import opened Tries
  import opened Nodes
  import opened Shapes

  /** The byte strings branch from each other, in increasing order. */
  ghost predicate Increasing(ks: seq<Key>) {
    forall i, j :: 0 <= i < j < |ks| ==> Before(ks[i], ks[j])
  }

  ghost predicate AllBefore(ks: seq<Key>, ls: seq<Key>) {
    forall i, j :: 0 <= i < |ks| && 0 <= j < |ls| ==> Before(ks[i], ls[j])
  }

  lemma IncreasingConcat(ks: seq<Key>, ls: seq<Key>)
    ensures Increasing(ks + ls) <==> Increasing(ks) && Increasing(ls) && AllBefore(ks, ls)
  {
    var ms := ks + ls;
    if Increasing(ms) {
      forall i, j | 0 <= i < j < |ks| ensures Before(ks[i], ks[j]) {
        assert ms[i] == ks[i] && ms[j] == ks[j];
      }
      forall i, j | 0 <= i < j < |ls| ensures Before(ls[i], ls[j]) {
        assert ms[|ks| + i] == ls[i] && ms[|ks| + j] == ls[j];
      }
      forall i, j | 0 <= i < |ks| && 0 <= j < |ls| ensures Before(ks[i], ls[j]) {
        assert ms[i] == ks[i] && ms[|ks| + j] == ls[j];
      }
    }
  }

  /** The paths of the children at the edges `bs` of node `x`. */
  ghost function KidPaths(t: Trie, x: Key, bs: seq<byte>): (ks: seq<Key>)
    requires x in t && t[x].Inner? && forall i :: 0 <= i < |bs| ==> bs[i] in t[x].kids
    ensures |ks| == |bs| && forall i :: 0 <= i < |bs| ==> ks[i] == t[x].kids[bs[i]]
  {
    seq(|bs|, i requires 0 <= i < |bs| => t[x].kids[bs[i]])
  }

  ghost predicate AllEdges(t: Trie, x: Key, bs: seq<byte>)
    requires x in t && t[x].Inner?
  {
    && Sorted(bs)
    && (forall i :: 0 <= i < |bs| ==> bs[i] in t[x].kids)
    && (forall b :: b in t[x].kids ==> b in bs)
  }

  ghost predicate InTree(t: Trie, ks: seq<Key>) {
    forall i {:trigger ks[i]} | 0 <= i < |ks| :: ks[i] in t
  }

  lemma KidsIncreasing(t: Trie, r: Key, x: Key, bs: seq<byte>)
    requires WF(t, r) && x in t && t[x].Inner? && AllEdges(t, x, bs)
    ensures Increasing(KidPaths(t, x, bs)) && InTree(t, KidPaths(t, x, bs))
    ensures forall i :: 0 <= i < |bs| ==> x < KidPaths(t, x, bs)[i]
  {
    var ks := KidPaths(t, x, bs);
    forall i | 0 <= i < |bs| ensures KidOk(t, x, bs[i]) {
    }
    forall i, j | 0 <= i < j < |ks| ensures Before(ks[i], ks[j]) {
      assert KidOk(t, x, bs[i]) && KidOk(t, x, bs[j]);
      LcpUnique(ks[i], ks[j], |x|);
    }
  }

  /** What is before or after a node is so for everything below it. */
  lemma BeforeBelow(ks: seq<Key>, x: Key, ls: seq<Key>)
    requires forall i :: 0 <= i < |ls| ==> x <= ls[i]
    ensures AllBefore(ks, [x]) ==> AllBefore(ks, ls)
    ensures AllBefore([x], ks) ==> AllBefore(ls, ks)
  {
    if AllBefore(ks, [x]) {
      forall i, j | 0 <= i < |ks| && 0 <= j < |ls| ensures Before(ks[i], ls[j]) {
        assert Before(ks[i], [x][0]);
        ApartExtends(ks[i], x, ks[i], ls[j]);
      }
    }
    if AllBefore([x], ks) {
      forall i, j | 0 <= i < |ls| && 0 <= j < |ks| ensures Before(ls[i], ks[j]) {
        assert Before([x][0], ks[j]);
        ApartExtends(x, ks[j], ls[i], ks[j]);
      }
    }
  }

  /** A node on the worklist is replaced by what is below it. */
  lemma IncreasingReplace(ls: seq<Key>, x: Key, ks: seq<Key>, rs: seq<Key>)
    requires Increasing(ls + [x] + rs) && Increasing(ks)
    requires forall i :: 0 <= i < |ks| ==> x <= ks[i]
    ensures Increasing(ls + ks + rs)
  {
    IncreasingConcat(ls + [x], rs);
    IncreasingConcat(ls, [x]);
    assert AllBefore([x], rs) by {
      forall j | 0 <= j < |rs| ensures Before([x][0], rs[j]) {
        assert (ls + [x])[|ls|] == x;
      }
    }
    assert AllBefore(ls, rs) by {
      forall i, j | 0 <= i < |ls| && 0 <= j < |rs| ensures Before(ls[i], rs[j]) {
        assert (ls + [x])[i] == ls[i];
      }
    }
    BeforeBelow(ls, x, ks);
    BeforeBelow(rs, x, ks);
    IncreasingConcat(ls, ks);
    IncreasingConcat(ls + ks, rs);
  }

  /** The listed children of a stored node are the nodes at its edges. */
  lemma ListedKids(s: Shape, x: Key, p: NodePtr, bs: seq<byte>, cs: seq<NodePtr>)
    requires StoredAt(s, x, p) && s.t[x].Inner? && Lists(bs, cs, p.Kids())
    ensures AllEdges(s.t, x, bs) && |cs| == |bs|
    ensures forall i :: 0 <= i < |bs| ==>
      var y := KidPaths(s.t, x, bs)[i]; y in s.t && y in s.at && s.at[y] == cs[i]
    ensures Increasing(KidPaths(s.t, x, bs)) && forall i :: 0 <= i < |bs| ==> x < KidPaths(s.t, x, bs)[i]
  {
    Stored(s, x, p);
    assert s.LinkedAt(x);
    forall i | 0 <= i < |bs| ensures bs[i] in s.t[x].kids {
      assert Holds(p.Kids(), bs[i], cs[i]);
    }
    assert AllEdges(s.t, x, bs);
    KidsIncreasing(s.t, s.r, x, bs);
    forall i | 0 <= i < |bs|
      ensures var y := KidPaths(s.t, x, bs)[i]; y in s.t && y in s.at && s.at[y] == cs[i]
    {
      assert Holds(p.Kids(), bs[i], cs[i]);
      StoredKid(s, x, p, bs[i]);
    }
  }

  /** The node is at or below one of the paths. */
  ghost predicate Covered(ks: seq<Key>, z: Key) {
    exists i :: 0 <= i < |ks| && ks[i] <= z
  }

  lemma CoveredConcat(ks: seq<Key>, ls: seq<Key>, z: Key)
    ensures Covered(ks + ls, z) <==> Covered(ks, z) || Covered(ls, z)
  {
    if Covered(ks, z) {
      var i :| 0 <= i < |ks| && ks[i] <= z;
      assert (ks + ls)[i] <= z;
    }
    if Covered(ls, z) {
      var i :| 0 <= i < |ls| && ls[i] <= z;
      assert (ks + ls)[|ks| + i] <= z;
    }
  }

  /** No other path on the worklist covers node `x`. */
  lemma NotCovered(ks: seq<Key>, x: Key)
    requires Increasing(ks + [x])
    ensures !Covered(ks, x)
  {
    forall i | 0 <= i < |ks| ensures !(ks[i] <= x) {
      assert Before((ks + [x])[i], (ks + [x])[|ks|]);
      ApartOrPrefix(ks[i], x);
    }
  }

  lemma CoveredKids(t: Trie, r: Key, x: Key, bs: seq<byte>, z: Key)
    requires WF(t, r) && x in t && t[x].Inner? && AllEdges(t, x, bs) && z in t
    ensures Covered(KidPaths(t, x, bs), z) <==> x < z
  {
    var ks := KidPaths(t, x, bs);
    KidsIncreasing(t, r, x, bs);
    if x < z {
      Relate(t, r, x, z);
      BelowOrApart(t, x, z);
      var i :| 0 <= i < |bs| && bs[i] == z[|x|];
      assert ks[i] <= z;
    }
  }

  lemma CoveredLast(ks: seq<Key>, x: Key, z: Key)
    requires Increasing(ks + [x])
    ensures Covered(ks + [x], z) <==> Covered(ks, z) || x <= z
    ensures !Covered(ks, x)
  {
    NotCovered(ks, x);
    CoveredConcat(ks, [x], z);
    assert [x][0] == x;
  }
}
