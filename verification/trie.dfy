/** The logical radix tree: what the heap of nodes stands for.

    A node is identified by its path, the bytes every key below it starts with;
    the path of a leaf is its whole key. `start` is the depth at which the node
    begins, so `path[start..]` is the compressed prefix of the node and
    `path[..start]` is spelled out by its ancestors. */
module Tries {
  import opened Bytes

  /** The type of stored values. */
  type Value

  datatype Desc =
    | Leaf(start: nat, value: Value)
    | Inner(start: nat, kids: map<byte, Key>)

  type Trie = map<Key, Desc>

  /** A node begins within its path, its path is a prefix of some storable key,
      and an inner node branches. */
  ghost predicate NodeOk(t: Trie, x: Key)
    requires x in t
  {
    t[x].start <= |x| < KEY_LIMIT && (t[x].Inner? ==> 2 <= |t[x].kids|)
  }

  /** The edge `b` of node `x` leads to a node that begins right after it. */
  ghost predicate KidOk(t: Trie, x: Key, b: byte)
    requires x in t && t[x].Inner? && b in t[x].kids
  {
    var y := t[x].kids[b];
    y in t && t[y].start == |x| + 1 <= |y| && y[..|x|] == x && y[|x|] == b
  }

  /** The parent of a node other than the root: the path up to its edge byte. */
  function Parent(t: Trie, x: Key): Key
    requires x in t && 1 <= t[x].start <= |x|
  {
    x[..t[x].start - 1]
  }

  /** Node `x` hangs from its parent by the edge its path names. */
  ghost predicate UpOk(t: Trie, x: Key)
    requires x in t
  {
    && 1 <= t[x].start <= |x|
    && var p := Parent(t, x);
       var b := x[t[x].start - 1];
       p in t && t[p].Inner? && b in t[p].kids && t[p].kids[b] == x
  }

  /** A compressed radix tree with root `r`: every node begins within its path,
      inner nodes branch, and edges and parents agree. */
  ghost predicate WF(t: Trie, r: Key) {
    && r in t && t[r].start == 0
    && (forall x {:trigger NodeOk(t, x)} | x in t :: NodeOk(t, x))
    && (forall x, b {:trigger KidOk(t, x, b)} | x in t && t[x].Inner? && b in t[x].kids ::
          KidOk(t, x, b))
    && (forall x {:trigger UpOk(t, x)} | x in t && x != r :: UpOk(t, x))
  }

  /** The map from keys to values that a tree stores. */
  ghost function Contents(t: Trie): (m: map<Key, Value>) {
    map x | x in t && t[x].Leaf? :: t[x].value
  }

  /** `x` lies strictly below inner node `f`, along the edge its path names. */
  ghost predicate Below(t: Trie, f: Key, x: Key)
    requires f in t && x in t
  {
    && f < x && t[f].Inner? && x[|f|] in t[f].kids && t[f].kids[x[|f|]] <= x
    && |f| < t[x].start
  }

  /** Neither node is above the other: they branch before either begins. */
  ghost predicate Beside(t: Trie, f: Key, x: Key)
    requires f in t && x in t && t[f].start <= |f| && t[x].start <= |x|
  {
    Apart(f[..t[f].start], x[..t[x].start])
  }

  /** Two nodes are equal, one above the other, or beside each other. */
  lemma Relate(t: Trie, r: Key, f: Key, x: Key)
    requires WF(t, r) && f in t && x in t
    ensures NodeOk(t, f) && NodeOk(t, x)
    ensures f == x || Below(t, f, x) || Below(t, x, f) || Beside(t, f, x)
    decreases |f| + |x|
  {
    if f == x {
    } else if x != r && (f == r || |f| <= |x|) {
      RelateStep(t, r, f, x);
    } else {
      RelateStep(t, r, x, f);
      LcpSymmetric(f[..t[f].start], x[..t[x].start]);
    }
  }

  /** Every node is at or below the root. */
  lemma RootAbove(t: Trie, r: Key, x: Key)
    requires WF(t, r) && x in t
    ensures r <= x && (r == x || Below(t, r, x))
  {
    Relate(t, r, r, x);
  }

  /** The step of `Relate` from the parent of `x` to `x`. */
  lemma RelateStep(t: Trie, r: Key, f: Key, x: Key)
    requires WF(t, r) && f in t && x in t && f != x && x != r
    requires f == r || |f| <= |x|
    ensures NodeOk(t, f) && NodeOk(t, x)
    ensures Below(t, f, x) || Beside(t, f, x)
    decreases |f| + |x|, 0
  {
    assert UpOk(t, x);
    var p := Parent(t, x);
    Relate(t, r, f, p);
    if Below(t, p, f) {
      assert KidOk(t, p, f[|p|]);
      SiblingEdges(t, p, f, x);
    } else if Beside(t, f, p) {
      ApartExtends(f[..t[f].start], p[..t[p].start], f[..t[f].start], x[..t[x].start]);
    }
  }

  /** A node below `p` and a child of `p` that does not lead to it are beside
      each other. */
  lemma SiblingEdges(t: Trie, p: Key, f: Key, x: Key)
    requires f in t && x in t && p in t && t[p].Inner?
    requires t[f].start <= |f| && t[x].start <= |x|
    requires UpOk(t, x) && Parent(t, x) == p && Below(t, p, f)
    requires !(x <= f)
    ensures Beside(t, f, x)
  {
    LcpUnique(f[..t[f].start], x[..t[x].start], |p|);
  }

  /** Nodes beside each other are not in a prefix relation. */
  lemma BelowOrApart(t: Trie, y: Key, z: Key)
    requires y in t && z in t && t[y].start <= |y| && t[z].start <= |z|
    ensures Beside(t, y, z) ==> Apart(y, z) && !(y <= z) && !(z <= y)
  {
    if Beside(t, y, z) {
      ApartExtends(y[..t[y].start], z[..t[z].start], y, z);
      ApartOrPrefix(y, z);
    }
  }

  /** Only the leaf itself is at or below it. */
  lemma NothingBelowLeaf(t: Trie, r: Key, x: Key, z: Key)
    requires WF(t, r) && x in t && z in t && t[x].Leaf?
    ensures x <= z <==> x == z
  {
    Relate(t, r, x, z);
    BelowOrApart(t, x, z);
  }

  /** Every subtree has a leaf. */
  lemma {:induction false} LeafExists(t: Trie, r: Key, x: Key) returns (y: Key)
    requires WF(t, r) && x in t
    ensures y in t && t[y].Leaf? && x <= y
    decreases KEY_LIMIT - |x|
  {
    assert NodeOk(t, x);
    if t[x].Leaf? {
      y := x;
    } else {
      var b :| b in t[x].kids;
      assert KidOk(t, x, b) && NodeOk(t, t[x].kids[b]);
      y := LeafExists(t, r, t[x].kids[b]);
    }
  }
}
