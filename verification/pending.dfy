/** A tree in which one edge is still to be written. */
module Pending {
  import opened Bytes
  import opened Tries
  import opened Nodes
  import opened Shapes

  /** The pointers that the node at `z` has while the edge to `x` still leads to
      the node `stale` that `x` replaces. */
  ghost function StalePointers(s: Shape, x: Key, stale: NodePtr, z: Key): map<byte, NodePtr>
    requires s.WF() && x in s.t && z in s.t
  {
    if x != s.r && UpOk(s.t, x) && z == Parent(s.t, x)
    then s.PointersOf(z)[x[s.t[x].start - 1] := stale]
    else s.PointersOf(z)
  }

  ghost predicate PendingAt(s: Shape, x: Key, stale: NodePtr, z: Key)
    requires s.WF() && x in s.t && z in s.t
    reads s.at[z].Repr()
  {
    Linked(s.at[z], z, s.t[z], StalePointers(s, x, stale, z))
  }

  /** The heap represents `s`, except that the edge to `x` is still to be written. */
  ghost predicate EdgePending(s: Shape, x: Key, stale: NodePtr)
    reads s.repr
  {
    && s.WF() && x in s.t && NodeOk(s.t, x)
    && forall z {:trigger PendingAt(s, x, stale, z)} | z in s.t :: PendingAt(s, x, stale, z)
  }

  /** Only its parent has an edge to a node. */
  lemma EdgeUnique(t: Trie, r: Key, x: Key, z: Key, b: byte)
    requires WF(t, r) && x in t && z in t && t[z].Inner? && b in t[z].kids && t[z].kids[b] == x
    ensures x != r && UpOk(t, x) && z == Parent(t, x) && b == x[t[x].start - 1]
  {
    assert KidOk(t, z, b);
    assert x != r ==> UpOk(t, x);
  }

  lemma PendingRoot(s: Shape, stale: NodePtr)
    requires EdgePending(s, s.r, stale)
    ensures s.Valid()
  {
    forall y | y in s.t ensures s.LinkedAt(y) {
      assert PendingAt(s, s.r, stale, y);
    }
  }

  /** The parent is an inner node that has the edge, so writing it needs no room. */
  lemma PendingParent(s: Shape, x: Key, stale: NodePtr)
    requires EdgePending(s, x, stale) && x != s.r && UpOk(s.t, x)
    ensures var z := Parent(s.t, x);
      var p := s.at[z];
      var b := x[s.t[x].start - 1];
      && !p.LeafPtr? && p.Valid() && p.Repr() <= s.repr && b in p.Kids()
      && p.Kids()[b := s.at[x]] == s.PointersOf(z) && |p.Kids()| == |s.PointersOf(z)|
      && Fits(p.Type(), |p.Kids()|) && s.t[z].start <= |z| && p.Header().full == z[s.t[z].start..]
  {
    var z := Parent(s.t, x);
    assert PendingAt(s, x, stale, z);
    assert StalePointers(s, x, stale, z).Keys == s.PointersOf(z).Keys;
    KeysSize(StalePointers(s, x, stale, z), s.PointersOf(z));
  }

  lemma PendingKeys(s: Shape, x: Key, stale: NodePtr)
    requires EdgePending(s, x, stale)
    ensures s.WF() && x in s.t && s.r in s.t
  {
  }

  lemma PendingDone(s: Shape, x: Key)
    requires x in s.t && x in s.at && EdgePending(s, x, s.at[x])
    ensures s.Valid()
  {
    forall z | z in s.t ensures s.LinkedAt(z) {
      assert PendingAt(s, x, s.at[x], z);
    }
  }
}
