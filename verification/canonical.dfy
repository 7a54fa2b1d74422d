/** History independence: the stored entries determine the tree. */
module Canonical {
  import opened Bytes
  import opened Headers
  import opened Layouts
  import opened Tries
  import opened Nodes
  import opened Shapes
  import opened Maps

  /** Two stored keys branch right after `x`. */
  ghost predicate BranchesAt(m: map<Key, Value>, x: Key, a: Key, b: Key) {
    a in m && b in m && Apart(a, b) && a[..Lcp(a, b)] == x
  }

  /** Where an inner node is, two stored keys branch. */
  lemma InnerBranches(t: Trie, r: Key, x: Key) returns (a: Key, b: Key)
    requires WF(t, r) && x in t && t[x].Inner?
    ensures BranchesAt(Contents(t), x, a, b)
  {
    assert NodeOk(t, x);
    var c :| c in t[x].kids;
    RemoveSize(t[x].kids, c);
    assert t[x].kids - {c} != map[];
    var d :| d in t[x].kids - {c};
    assert KidOk(t, x, c) && KidOk(t, x, d);
    a := LeafExists(t, r, t[x].kids[c]);
    b := LeafExists(t, r, t[x].kids[d]);
    LcpUnique(a, b, |x|);
  }

  /** The child that leads to a key below it. */
  lemma StepTowards(t: Trie, r: Key, x: Key, a: Key) returns (y: Key)
    requires WF(t, r) && x in t && a in t && t[a].Leaf? && x < a
    ensures t[x].Inner? && a[|x|] in t[x].kids && y == t[x].kids[a[|x|]] && KidOk(t, x, a[|x|])
    ensures y in t && x < y <= a && |y| < KEY_LIMIT
  {
    Relate(t, r, x, a);
    BelowOrApart(t, x, a);
    y := t[x].kids[a[|x|]];
    assert KidOk(t, x, a[|x|]) && NodeOk(t, y);
  }

  /** Where two stored keys branch, there is an inner node. */
  lemma {:induction false} BranchIsInner(t: Trie, r: Key, x: Key, a: Key, b: Key)
    requires WF(t, r) && x in t && x <= a && x <= b
    requires a in t && t[a].Leaf? && b in t && t[b].Leaf? && Apart(a, b)
    ensures a[..Lcp(a, b)] in t && t[a[..Lcp(a, b)]].Inner?
    decreases KEY_LIMIT - |x|
  {
    LcpPrefix(a, b);
    assert x != a && x != b;
    var y := StepTowards(t, r, x, a);
    var z := StepTowards(t, r, x, b);
    if a[|x|] == b[|x|] {
      BranchIsInner(t, r, y, a, b);
    } else {
      LcpUnique(a, b, |x|);
      assert a[..|x|] == x;
    }
  }

  /** The nodes of one tree are nodes of the same kind in the other. */
  lemma SameKind(t: Trie, r: Key, u: Trie, q: Key, x: Key)
    requires WF(t, r) && WF(u, q) && Contents(t) == Contents(u) && x in t
    ensures x in u && (t[x].Leaf? <==> u[x].Leaf?)
    ensures t[x].Leaf? ==> t[x].value == u[x].value
  {
    if t[x].Leaf? {
      assert x in Contents(u) && Contents(t)[x] == t[x].value;
    } else {
      var a, b := InnerBranches(t, r, x);
      assert a in Contents(u) && b in Contents(u);
      RootAbove(u, q, a);
      RootAbove(u, q, b);
      BranchIsInner(u, q, q, a, b);
    }
  }

  ghost predicate SameKinds(t: Trie, u: Trie) {
    t.Keys == u.Keys && forall x :: x in t ==> (t[x].Leaf? <==> u[x].Leaf?)
  }

  /** An edge of a node in one tree is an edge of it in the other, to the same
      child or to one above it. */
  lemma SameEdge(t: Trie, r: Key, u: Trie, q: Key, x: Key, b: byte)
    requires WF(t, r) && WF(u, q) && SameKinds(t, u) && x in t && t[x].Inner? && b in t[x].kids
    ensures u[x].Inner? && b in u[x].kids && u[x].kids[b] <= t[x].kids[b]
  {
    assert KidOk(t, x, b);
    Relate(u, q, x, t[x].kids[b]);
    BelowOrApart(u, x, t[x].kids[b]);
  }

  lemma SameKids(t: Trie, r: Key, u: Trie, q: Key, x: Key)
    requires WF(t, r) && WF(u, q) && SameKinds(t, u) && x in t && t[x].Inner?
    ensures u[x].Inner? && t[x].kids == u[x].kids
  {
    forall b | b in t[x].kids || b in u[x].kids
      ensures b in t[x].kids && b in u[x].kids && t[x].kids[b] == u[x].kids[b]
    {
      if b in t[x].kids {
        SameEdge(t, r, u, q, x, b);
      }
      if b in u[x].kids {
        SameEdge(u, q, t, r, x, b);
      }
      if b in t[x].kids {
        SameEdge(t, r, u, q, x, b);
      }
    }
  }

  lemma SameStart(t: Trie, r: Key, u: Trie, q: Key, x: Key)
    requires WF(t, r) && WF(u, q) && SameKinds(t, u) && r == q && x in t
    ensures t[x].start == u[x].start
  {
    if x != r {
      assert UpOk(t, x);
      var p := Parent(t, x);
      var b := x[t[x].start - 1];
      SameKids(t, r, u, q, p);
      assert KidOk(t, p, b) && KidOk(u, p, b);
    }
  }

  /** Trees with the same entries are the same. */
  lemma Unique(t: Trie, r: Key, u: Trie, q: Key)
    requires WF(t, r) && WF(u, q) && Contents(t) == Contents(u)
    ensures t == u && r == q
  {
    forall x | x in t || x in u ensures x in t && x in u && (t[x].Leaf? <==> u[x].Leaf?) {
      if x in t {
        SameKind(t, r, u, q, x);
      } else {
        SameKind(u, q, t, r, x);
      }
    }
    RootAbove(t, r, q);
    RootAbove(u, q, r);
    forall x | x in t ensures t[x] == u[x] {
      SameStart(t, r, u, q, x);
      SameKind(t, r, u, q, x);
      if t[x].Inner? {
        SameKids(t, r, u, q, x);
      }
    }
  }

  /** What a node holds, apart from where its children are stored: the key and
      value of a leaf; the layout, the key bytes, the prefix length and the stored
      prefix bytes of an inner node. */
  datatype Summary =
    | LeafSummary(key: Key, value: Value)
    | InnerSummary(ty: NodeType, bytes: set<byte>, numChildren: nat, prefixLen: nat, stored: seq<byte>)

  ghost function Summarize(p: NodePtr): Summary
    requires p.Valid()
    reads p.Repr()
  {
    if p.LeafPtr? then LeafSummary(p.leaf.key, p.leaf.value)
    else
      p.ValidFacts();
      var h := p.Header();
      InnerSummary(p.Type(), p.Kids().Keys, h.numChildren, h.prefixLen, h.prefix[..h.CappedPrefixLen()])
  }

  /** What node `x` must hold, in terms of the logical tree alone. */
  ghost function SummaryOf(x: Key, d: Desc): Summary
    requires d.start <= |x|
  {
    match d
    case Leaf(_, value) => LeafSummary(x, value)
    case Inner(start, kids) =>
      var full := x[start..];
      InnerSummary(TypeFor(|kids|), kids.Keys, |kids|, |full|, full[..Min(|full|, PREFIX_LEN)])
  }

  lemma StoredBytes(h: Header)
    requires h.Valid()
    ensures h.prefixLen == |h.full| && h.prefix[..h.CappedPrefixLen()] == h.full[..Min(|h.full|, PREFIX_LEN)]
  {
  }

  /** The logical tree determines what each node holds. */
  lemma SummaryFixed(s: Shape, x: Key)
    requires s.Valid() && x in s.t
    ensures x in s.at && s.at[x].Valid() && s.t[x].start <= |x|
    ensures Summarize(s.at[x]) == SummaryOf(x, s.t[x])
  {
    var p := s.at[x];
    Stored(s, x, p);
    if s.t[x].Inner? {
      p.ValidFacts();
      FitsOnce(p.Type(), |p.Kids()|);
      StoredBytes(p.Header());
    }
  }

  /** The same, said of the node itself: the logical tree determines the layout, the
      key bytes, the prefix length and the stored prefix bytes of an inner node. */
  lemma NodeFixed(s: Shape, x: Key, p: NodePtr)
    requires StoredAt(s, x, p)
    ensures s.t[x].start <= |x| && (p.LeafPtr? <==> s.t[x].Leaf?)
    ensures p.LeafPtr? ==> p.leaf.key == x && p.leaf.value == s.t[x].value
    ensures !p.LeafPtr? ==>
      var h := p.Header();
      && p.Type() == TypeFor(|s.t[x].kids|) && p.Kids().Keys == s.t[x].kids.Keys
      && h.numChildren == |s.t[x].kids| && h.prefixLen == |x| - s.t[x].start && h.prefix.Length == PREFIX_LEN
      && h.prefix[..Min(h.prefixLen, PREFIX_LEN)] == x[s.t[x].start..][..Min(h.prefixLen, PREFIX_LEN)]
  {
    Stored(s, x, p);
    if s.t[x].Inner? {
      p.ValidFacts();
      FitsOnce(p.Type(), |p.Kids()|);
      StoredBytes(p.Header());
    }
  }

  /** The node at one place is alike in two shapes of the same tree. */
  lemma SameNode(s: Shape, s': Shape, x: Key)
    requires s.Valid() && s'.Valid() && s.t == s'.t && s.r == s'.r && x in s.t
    ensures
      && x in s.at && x in s'.at
      && var p := s.at[x];
         var q := s'.at[x];
         if p.LeafPtr? then q.LeafPtr? && p.leaf.key == q.leaf.key && p.leaf.value == q.leaf.value
         else
           && !q.LeafPtr? && p.Type() == q.Type() && p.Kids().Keys == q.Kids().Keys
           && p.Header().numChildren == q.Header().numChildren && p.Header().prefixLen == q.Header().prefixLen
           && p.Header().prefix.Length == q.Header().prefix.Length == PREFIX_LEN
           && var n := Min(p.Header().prefixLen, PREFIX_LEN);
              p.Header().prefix[..n] == q.Header().prefix[..n]
  {
    NodeFixed(s, x, s.at[x]);
    NodeFixed(s', x, s'.at[x]);
  }

  /** All nodes of a map. */
  ghost function NodesOf(tree: TreeMap): map<Key, Summary>
    requires tree.Valid()
    reads tree, tree.Repr()
  {
    if tree.shape.None? then map[]
    else
      var s := tree.shape.value;
      assert forall x :: x in s.t ==> x in s.at && s.at[x].Valid() by {
        forall x | x in s.t ensures x in s.at && s.at[x].Valid() {
          SummaryFixed(s, x);
        }
      }
      map x | x in s.t :: Summarize(s.at[x])
  }

  /** All nodes of a map, in terms of its logical tree alone. */
  lemma NodesFixed(tree: TreeMap, t: Trie, r: Key)
    requires tree.Valid() && WF(t, r) && tree.Entries() == Contents(t)
    ensures tree.shape.Some? && tree.shape.value.t == t && tree.shape.value.r == r
    ensures forall x :: x in t ==> t[x].start <= |x|
    ensures NodesOf(tree) == map x | x in t :: SummaryOf(x, t[x])
  {
    var y := LeafExists(t, r, r);
    assert y in Contents(t);
    var s := tree.shape.value;
    Unique(s.t, s.r, t, r);
    forall x | x in t ensures x in s.at && s.at[x].Valid() && t[x].start <= |x|
      && Summarize(s.at[x]) == SummaryOf(x, t[x])
    {
      SummaryFixed(s, x);
    }
  }

  lemma NotEmpty(a: TreeMap)
    requires a.Valid()
    ensures a.shape.Some? <==> a.Entries() != map[]
  {
    if a.shape.Some? {
      var s := a.shape.value;
      var y := LeafExists(s.t, s.r, s.r);
      assert y in a.Entries();
    }
  }

  /** Two maps have the same entries if and only if they have the same nodes,
      whatever insertions and removals led to them. */
  lemma HistoryIndependent(a: TreeMap, b: TreeMap)
    requires a.Valid() && b.Valid()
    ensures a.Entries() == b.Entries() <==> NodesOf(a) == NodesOf(b)
    ensures a.Entries() == b.Entries() ==> (a.shape.Some? <==> b.shape.Some?)
    ensures a.Entries() == b.Entries() && a.shape.Some? ==>
      a.shape.value.t == b.shape.value.t && a.shape.value.r == b.shape.value.r
    ensures a.Entries() == b.Entries() && a.shape.Some? ==>
      forall x :: x in a.shape.value.t ==>
        && x in a.shape.value.at && x in b.shape.value.at
        && var p := a.shape.value.at[x];
           var q := b.shape.value.at[x];
           if p.LeafPtr? then q.LeafPtr? && p.leaf.key == q.leaf.key && p.leaf.value == q.leaf.value
           else
             && !q.LeafPtr? && p.Type() == q.Type() && p.Kids().Keys == q.Kids().Keys
             && p.Header().numChildren == q.Header().numChildren && p.Header().prefixLen == q.Header().prefixLen
             && p.Header().prefix.Length == q.Header().prefix.Length == PREFIX_LEN
             && var n := Min(p.Header().prefixLen, PREFIX_LEN);
                p.Header().prefix[..n] == q.Header().prefix[..n]
  {
    hide TreeMap.Valid, TreeMap.Entries, NodesOf, Summarize, Shape.Valid, NodePtr.Kids, Tries.WF;
    NotEmpty(a);
    NotEmpty(b);
    NodesOfEntries(a);
    NodesOfEntries(b);
    if a.Entries() == b.Entries() && a.shape.Some? {
      var s := b.shape.value;
      TreeOf(b);
      NodesFixed(a, s.t, s.r);
      NodesFixed(b, s.t, s.r);
      TreeOf(a);
      forall x | x in s.t {
        SameNode(a.shape.value, s, x);
      }
    }
  }

  lemma TreeOf(tree: TreeMap)
    requires tree.Valid() && tree.shape.Some?
    ensures WF(tree.shape.value.t, tree.shape.value.r) && tree.Entries() == Contents(tree.shape.value.t)
    ensures tree.shape.value.Valid() && tree.shape.value.at.Keys == tree.shape.value.t.Keys
  {
  }

  /** The nodes tell the entries. */
  lemma NodesOfEntries(tree: TreeMap)
    requires tree.Valid()
    ensures tree.Entries() == map x | x in NodesOf(tree) && NodesOf(tree)[x].LeafSummary? :: NodesOf(tree)[x].value
    ensures tree.shape.None? ==> NodesOf(tree) == map[]
  {
    if tree.shape.Some? {
      var s := tree.shape.value;
      forall x | x in s.t ensures x in s.at && s.at[x].Valid() && s.t[x].start <= |x|
        && Summarize(s.at[x]) == SummaryOf(x, s.t[x])
      {
        SummaryFixed(s, x);
      }
    }
  }

  /** Removing a key that was not there before it was inserted gives back the very
      same nodes: splits and merges, and growing and shrinking, undo each other. */
  method InsertThenRemove(tree: TreeMap, key: Key, value: Value)
    requires tree.Valid() && |key| < KEY_LIMIT && key !in tree.Entries() && !PrefixClash(tree.Entries(), key)
    modifies tree.Repr()
    ensures tree.Valid() && tree.Entries() == old(tree.Entries()) && NodesOf(tree) == old(NodesOf(tree))
    ensures tree.shape.Some? <==> old(tree.shape).Some?
    ensures tree.shape.Some? ==>
      tree.shape.value.t == old(tree.shape).value.t && tree.shape.value.r == old(tree.shape).value.r
  {
    hide *;
    NotEmpty(tree);
    NodesOfEntries(tree);
    if tree.shape.Some? {
      TreeOf(tree);
      NodesFixed(tree, tree.shape.value.t, tree.shape.value.r);
    }
    var inserted := tree.TryInsert(key, value);
    var removed := tree.RemoveEntry(key);
    assert tree.Entries() == old(tree.Entries());
    NotEmpty(tree);
    NodesOfEntries(tree);
    if tree.shape.Some? {
      NodesFixed(tree, old(tree.shape).value.t, old(tree.shape).value.r);
    }
  }
}
