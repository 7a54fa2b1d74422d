/** What inserting and removing a leaf does to the logical tree. */
module Surgery {
  import opened Bytes
  import opened Tries

  /** Where the root is after node `x` gave its place to node `m`. */
  function NewRoot(r: Key, x: Key, m: Key): Key {
    if x == r then m else r
  }

  /** The edge that led to `x`, if any, now leads to `m`. */
  function Rehang(t: Trie, x: Key, m: Key): (u: Trie)
    requires x in t && (t[x].start == 0 || UpOk(t, x))
    ensures u.Keys == t.Keys
  {
    if t[x].start == 0 then t
    else
      var p := Parent(t, x);
      t[p := t[p].(kids := t[p].kids[x[t[x].start - 1] := m])]
  }

  /** A new leaf `k` below inner node `f`. */
  function AddLeaf(t: Trie, f: Key, k: Key, v: Value): Trie
    requires f in t && t[f].Inner? && f < k
  {
    t[f := t[f].(kids := t[f].kids[k[|f|] := k])][k := Leaf(|f| + 1, v)]
  }

  /** A new inner node above `x` that ends at depth `d`, where `k` leaves the
      path of `x`; the new leaf `k` is its other child. */
  function Split(t: Trie, x: Key, d: nat, k: Key, v: Value): Trie
    requires x in t && (t[x].start == 0 || UpOk(t, x))
    requires d < |x| && d < |k|
  {
    var m := x[..d];
    Rehang(t, x, m)
      [x := t[x].(start := d + 1)]
      [m := Inner(t[x].start, map[x[d] := x, k[d] := k])]
      [k := Leaf(d + 1, v)]
  }

  /** Leaf `k` is gone from a parent that keeps at least two children. */
  function DropLeaf(t: Trie, k: Key): Trie
    requires k in t && UpOk(t, k)
  {
    var f := Parent(t, k);
    (t - {k})[f := t[f].(kids := t[f].kids - {k[|f|]})]
  }

  /** Leaf `k` is gone and its parent `f`, left with the single child `c`, is
      merged into that child, which now begins where the parent began. */
  function Merge(t: Trie, k: Key, f: Key, c: Key): Trie
    requires f in t && (t[f].start == 0 || UpOk(t, f)) && c in t && c != f
  {
    (Rehang(t, f, c) - {k, f})[c := t[c].(start := t[f].start)]
  }

  /** The same leaf with another value. */
  function SetValue(t: Trie, k: Key, v: Value): Trie
    requires k in t && t[k].Leaf?
  {
    t[k := t[k].(value := v)]
  }

  lemma AddLeafFresh(t: Trie, r: Key, f: Key, k: Key)
    requires WF(t, r) && f in t && t[f].Inner? && f < k && k[|f|] !in t[f].kids
    ensures k !in t && k != r
  {
    if k in t {
      Relate(t, r, f, k);
      ApartOrPrefix(f[..t[f].start], k[..t[k].start]);
    }
  }

  lemma AddLeafKid(t: Trie, r: Key, f: Key, k: Key, v: Value, x: Key, b: byte)
    requires WF(t, r) && f in t && t[f].Inner? && f < k && k !in t
    requires x in t && t[x].Inner? && b in AddLeaf(t, f, k, v)[x].kids
    ensures KidOk(AddLeaf(t, f, k, v), x, b)
  {
    if x == f && b == k[|f|] {
      assert k[..|f|] == f;
    } else {
      assert KidOk(t, x, b);
    }
  }

  lemma AddLeafUp(t: Trie, r: Key, f: Key, k: Key, v: Value, x: Key)
    requires WF(t, r) && f in t && t[f].Inner? && f < k && k !in t && k[|f|] !in t[f].kids
    requires x in AddLeaf(t, f, k, v) && x != r
    ensures UpOk(AddLeaf(t, f, k, v), x)
  {
    if x == k {
      assert k[..|f|] == f;
    } else {
      assert UpOk(t, x);
    }
  }

  lemma AddLeafContents(t: Trie, f: Key, k: Key, v: Value)
    requires f in t && t[f].Inner? && f < k && k !in t
    ensures Contents(AddLeaf(t, f, k, v)) == Contents(t)[k := v]
  {
  }

  lemma AddLeafWF(t: Trie, r: Key, f: Key, k: Key, v: Value)
    requires WF(t, r) && f in t && t[f].Inner? && f < k && k[|f|] !in t[f].kids
    requires |k| < KEY_LIMIT
    ensures WF(AddLeaf(t, f, k, v), r)
  {
    AddLeafFresh(t, r, f, k);
    var u := AddLeaf(t, f, k, v);
    forall x | x in u ensures NodeOk(u, x) {
      assert x in t ==> NodeOk(t, x);
      assert NodeOk(t, f);
    }
    forall x, b | x in u && u[x].Inner? && b in u[x].kids ensures KidOk(u, x, b) {
      AddLeafKid(t, r, f, k, v, x, b);
    }
    forall x | x in u && x != r ensures UpOk(u, x) {
      AddLeafUp(t, r, f, k, v, x);
    }
  }

  /** Where a new key can be split off the node at `x`: at a depth inside the
      node's own prefix, with another byte than the node has there. */
  ghost predicate SplitsAt(t: Trie, r: Key, x: Key, d: nat, k: Key) {
    && WF(t, r) && x in t && NodeOk(t, x) && (x != r ==> UpOk(t, x))
    && t[x].start <= d < |x| && d < |k| < KEY_LIMIT && k[..d] == x[..d] && k[d] != x[d]
  }

  lemma SplitFresh(t: Trie, r: Key, x: Key, d: nat, k: Key)
    requires SplitsAt(t, r, x, d, k)
    ensures k !in t && x[..d] !in t
  {
    if k in t {
      Relate(t, r, x, k);
      LcpUnique(x, k, d);
      ApartOrPrefix(x, k);
    }
    if x[..d] in t {
      Relate(t, r, x[..d], x);
    }
  }

  lemma SplitKid(t: Trie, r: Key, x: Key, d: nat, k: Key, v: Value, y: Key, b: byte)
    requires SplitsAt(t, r, x, d, k) && k !in t && x[..d] !in t
    requires y in Split(t, x, d, k, v) && Split(t, x, d, k, v)[y].Inner?
    requires b in Split(t, x, d, k, v)[y].kids
    ensures KidOk(Split(t, x, d, k, v), y, b)
  {
    if y != x[..d] {
      assert b in t[y].kids;
      assert KidOk(t, y, b);
    }
  }

  lemma SplitUp(t: Trie, r: Key, x: Key, d: nat, k: Key, v: Value, y: Key)
    requires SplitsAt(t, r, x, d, k) && k !in t && x[..d] !in t
    requires y in Split(t, x, d, k, v) && y != NewRoot(r, x, x[..d])
    ensures UpOk(Split(t, x, d, k, v), y)
  {
    var m := x[..d];
    if y == m {
      assert m[..t[x].start - 1] == x[..t[x].start - 1];
    } else if y != x && y != k {
      assert UpOk(t, y);
    }
  }

  lemma SplitContents(t: Trie, r: Key, x: Key, d: nat, k: Key, v: Value)
    requires SplitsAt(t, r, x, d, k) && k !in t && x[..d] !in t
    ensures Contents(Split(t, x, d, k, v)) == Contents(t)[k := v]
  {
  }

  lemma SplitWF(t: Trie, r: Key, x: Key, d: nat, k: Key, v: Value)
    requires SplitsAt(t, r, x, d, k)
    ensures WF(Split(t, x, d, k, v), NewRoot(r, x, x[..d]))
  {
    SplitFresh(t, r, x, d, k);
    var u := Split(t, x, d, k, v);
    forall y | y in u ensures NodeOk(u, y) {
      assert y in t ==> NodeOk(t, y);
    }
    forall y, b | y in u && u[y].Inner? && b in u[y].kids ensures KidOk(u, y, b) {
      SplitKid(t, r, x, d, k, v, y, b);
    }
    forall y | y in u && y != NewRoot(r, x, x[..d]) ensures UpOk(u, y) {
      SplitUp(t, r, x, d, k, v, y);
    }
  }

  /** Node `k` hangs from `f` by its byte at depth `|f|`. */
  ghost predicate HangsFrom(t: Trie, r: Key, k: Key, f: Key) {
    WF(t, r) && k in t && k != r && UpOk(t, k) && Parent(t, k) == f && (f != r ==> UpOk(t, f))
    && NodeOk(t, f)
  }

  lemma DropLeafKid(t: Trie, r: Key, k: Key, f: Key, y: Key, b: byte)
    requires HangsFrom(t, r, k, f) && t[k].Leaf?
    requires y in DropLeaf(t, k) && DropLeaf(t, k)[y].Inner? && b in DropLeaf(t, k)[y].kids
    ensures KidOk(DropLeaf(t, k), y, b)
  {
    assert KidOk(t, y, b);
  }

  lemma DropLeafUp(t: Trie, r: Key, k: Key, f: Key, y: Key)
    requires HangsFrom(t, r, k, f) && t[k].Leaf?
    requires y in DropLeaf(t, k) && y != r
    ensures UpOk(DropLeaf(t, k), y)
  {
    assert UpOk(t, y);
  }

  lemma DropLeafContents(t: Trie, k: Key)
    requires k in t && t[k].Leaf? && UpOk(t, k)
    ensures Contents(DropLeaf(t, k)) == Contents(t) - {k}
  {
  }

  lemma DropLeafNode(t: Trie, r: Key, k: Key, f: Key, y: Key)
    requires HangsFrom(t, r, k, f) && t[k].Leaf? && 3 <= |t[f].kids|
    requires y in DropLeaf(t, k)
    ensures NodeOk(DropLeaf(t, k), y)
  {
    RemoveSize(t[f].kids, k[|f|]);
    assert NodeOk(t, y);
  }

  lemma DropLeafWF(t: Trie, r: Key, k: Key, f: Key)
    requires HangsFrom(t, r, k, f) && t[k].Leaf? && 3 <= |t[f].kids|
    ensures WF(DropLeaf(t, k), r)
  {
    var u := DropLeaf(t, k);
    forall y | y in u ensures NodeOk(u, y) {
      DropLeafNode(t, r, k, f, y);
    }
    forall y, b | y in u && u[y].Inner? && b in u[y].kids ensures KidOk(u, y, b) {
      DropLeafKid(t, r, k, f, y, b);
    }
    forall y | y in u && y != r ensures UpOk(u, y) {
      DropLeafUp(t, r, k, f, y);
    }
  }

  /** `c` is the only other child of the parent `f` of leaf `k`. */
  ghost predicate MergesInto(t: Trie, r: Key, k: Key, f: Key, c: Key) {
    && HangsFrom(t, r, k, f) && t[k].Leaf?
    && HangsFrom(t, r, c, f) && c != k
    && t[f].kids.Keys == {k[|f|], c[|f|]}
  }

  lemma MergeKid(t: Trie, r: Key, k: Key, f: Key, c: Key, y: Key, b: byte)
    requires MergesInto(t, r, k, f, c)
    requires y in Merge(t, k, f, c) && Merge(t, k, f, c)[y].Inner?
    requires b in Merge(t, k, f, c)[y].kids
    ensures KidOk(Merge(t, k, f, c), y, b)
  {
    assert KidOk(t, y, b);
    if f != r && y == Parent(t, f) {
      assert c[..|f|] == f;
    }
  }

  lemma MergeUp(t: Trie, r: Key, k: Key, f: Key, c: Key, y: Key)
    requires MergesInto(t, r, k, f, c)
    requires y in Merge(t, k, f, c) && y != NewRoot(r, f, c)
    ensures UpOk(Merge(t, k, f, c), y)
  {
    assert y != r ==> UpOk(t, y);
    assert c[..|f|] == f;
    if y == c {
      assert c[..t[f].start - 1] == f[..t[f].start - 1];
    }
  }

  lemma MergeContents(t: Trie, r: Key, k: Key, f: Key, c: Key)
    requires MergesInto(t, r, k, f, c)
    ensures Contents(Merge(t, k, f, c)) == Contents(t) - {k}
  {
  }

  lemma MergeWF(t: Trie, r: Key, k: Key, f: Key, c: Key)
    requires MergesInto(t, r, k, f, c)
    ensures WF(Merge(t, k, f, c), NewRoot(r, f, c))
  {
    var u := Merge(t, k, f, c);
    forall y | y in u ensures NodeOk(u, y) {
      assert NodeOk(t, y);
    }
    forall y, b | y in u && u[y].Inner? && b in u[y].kids ensures KidOk(u, y, b) {
      MergeKid(t, r, k, f, c, y, b);
    }
    forall y | y in u && y != NewRoot(r, f, c) ensures UpOk(u, y) {
      MergeUp(t, r, k, f, c, y);
    }
  }
}
