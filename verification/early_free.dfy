/** A node that is freed while its parent still leads to it. */
module EarlyFrees {
  import opened Bytes
  import opened Tries
  import opened Maps
  import InsertSearch
  import Insert
  import InsertApply
  import Canonical

  /** The keys `[0, 0]` to `[0, n - 1]`. */
  predicate RowKey(k: Key, n: nat) {
    |k| == 2 && k[0] == 0 && k[1] < n
  }

  /** The stored keys are `[0, 0]` to `[0, 3]`, which fill a `Node4`, and `[1]`. */
  ghost predicate Filled(m: map<Key, Value>) {
    forall k :: k in m <==> RowKey(k, 4) || k == [1]
  }

  /** However it was made, a tree of these keys has a full `Node4` below its root. */
  lemma FullBelowRoot(t: Trie, r: Key)
    requires WF(t, r) && Filled(Contents(t))
    ensures InsertApply.EndsAt(t, [0], [0, 4]) && Insert.Full(t, [0]) && [0] != r
  {
    assert [0, 0] in Contents(t) && [0, 1] in Contents(t) && [1] in Contents(t);
    assert [0, 0] in t && [0, 1] in t && [1] in t;
    RootAbove(t, r, [0, 0]);
    RootAbove(t, r, [0, 1]);
    RootAbove(t, r, [1]);
    LcpUnique([0, 0], [0, 1], 1);
    LcpUnique([0, 0], [1], 0);
    assert [0, 0][..1] == [0];
    Canonical.BranchIsInner(t, r, r, [0, 0], [0, 1]);
    Canonical.BranchIsInner(t, r, r, [0, 0], [1]);
    RootAbove(t, r, []);
    assert t[[0]].kids.Keys == {0, 1, 2, 3} by {
      forall b | b in t[[0]].kids ensures b in {0, 1, 2, 3} {
        assert KidOk(t, [0], b);
        var k := LeafExists(t, r, t[[0]].kids[b]);
        assert k in Contents(t) && k[0] == 0 && k[1] == b;
      }
      forall b: byte | b < 4 ensures b in t[[0]].kids {
        assert [0, b] in Contents(t);
        var y := Canonical.StepTowards(t, r, [0], [0, b]);
      }
    }
    assert |t[[0]].kids| == |t[[0]].kids.Keys|;
  }

  /** The stored keys are `[0, 0]` to `[0, n - 1]`. */
  ghost predicate HasRow(m: map<Key, Value>, n: nat) {
    forall k :: k in m <==> RowKey(k, n)
  }

  lemma AddToRow(m: map<Key, Value>, n: byte, v: Value)
    requires HasRow(m, n) && n < 4
    ensures !PrefixClash(m, [0, n]) && HasRow(m[[0, n] := v], n + 1)
  {
    forall y | y in m ensures !(y <= [0, n]) && !([0, n] <= y) {
      assert y[1] != n;
    }
    forall k: Key ensures RowKey(k, n + 1) <==> RowKey(k, n) || k == [0, n] {
    }
  }

  lemma AddBeside(m: map<Key, Value>, v: Value)
    requires HasRow(m, 4)
    ensures !PrefixClash(m, [1]) && Filled(m[[1] := v])
  {
    forall y | y in m ensures !(y <= [1]) && !([1] <= y) {
      assert y[0] == 0;
    }
  }

  /** Some map has these keys. */
  method FillNode(v: Value) returns (tree: TreeMap)
    ensures tree.Valid() && Filled(tree.Entries())
  {
    hide TreeMap.Valid, TreeMap.Entries, PrefixClash, HasRow, Filled;
    tree := new TreeMap();
    assert HasRow(tree.Entries(), 0) by { NoRow(); }
    var n := 0;
    while n < 4
      invariant n <= 4 && tree.Valid() && fresh(tree.Repr()) && HasRow(tree.Entries(), n)
    {
      AddToRow(tree.Entries(), n, v);
      var r := tree.TryInsert([0, n], v);
      n := n + 1;
    }
    AddBeside(tree.Entries(), v);
    var r := tree.TryInsert([1], v);
  }

  lemma NoRow()
    ensures HasRow(map[], 0)
  {
  }

  lemma ValidTree(tree: TreeMap)
    requires tree.Valid() && tree.shape.Some?
    ensures tree.shape.value.WF()
  {
  }

  /** Inserting one more key below the full node frees it while it is reached. */
  method GrowBelowRoot(tree: TreeMap, v: Value)
    requires tree.Valid() && Filled(tree.Entries())
    modifies tree.Repr()
    ensures old(tree.shape).Some? && [0] in old(tree.shape).value.at
    ensures tree.heap.early == old(tree.heap.early) + [old(tree.shape).value.at[[0]]]
  {
    hide TreeMap.Valid, PrefixClash;
    assert [1] in tree.Entries();
    ghost var s := tree.shape.value;
    ValidTree(tree);
    FullBelowRoot(s.t, s.r);
    InsertSearch.NoClashAdd(s.t, s.r, [0], [0, 4]);
    ClashesAgree(s.t, [0, 4]);
    forall x | InsertApply.EndsAt(s.t, x, [0, 4]) ensures x == [0] {
      InsertApply.EndsOnce(s.t, s.r, x, [0], [0, 4]);
    }
    var _ := tree.TryInsert([0, 4], v);
  }
}
