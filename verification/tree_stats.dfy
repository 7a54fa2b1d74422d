/** Counting the nodes of a tree. */
module TreeStats {
  import opened Bytes
  import opened Layouts
  import opened Tries
  import opened Nodes
  import opened Shapes
  import opened Frontiers
  import opened Maps
  import opened Listings
  import opened WellFormedTrees

  /** `InnerNodeStats`: how many inner nodes, how many slots they have and use, how
      many bytes their headers have room for, and how long their prefixes are. */
  datatype InnerCounts = InnerCounts(count: nat, totalSlots: nat, sumSlots: nat, totalHeaderBytes: nat,
                                     sumPrefixLen: nat, sumCappedPrefixLen: nat, maxPrefixLen: nat)
  {
    function Plus(c: InnerCounts): InnerCounts {
      InnerCounts(count + c.count, totalSlots + c.totalSlots, sumSlots + c.sumSlots,
                  totalHeaderBytes + c.totalHeaderBytes, sumPrefixLen + c.sumPrefixLen,
                  sumCappedPrefixLen + c.sumCappedPrefixLen, Max(maxPrefixLen, c.maxPrefixLen))
    }
  }

  function Max(a: nat, b: nat): nat {
    if a < b then b else a
  }

  const NO_INNERS := InnerCounts(0, 0, 0, 0, 0, 0, 0)

  /** `aggregate_data` of one node. */
  function OneInner(ty: NodeType, n: nat, len: nat): InnerCounts {
    InnerCounts(1, ty.UpperCapacity(), n, PREFIX_LEN, len, Min(len, PREFIX_LEN), len)
  }

  /** `TreeStats`: the inner nodes of each layout, all inner nodes, the leaves, and
      the bytes of their keys. */
  datatype Counts = Counts(node4: InnerCounts, node16: InnerCounts, node48: InnerCounts, node256: InnerCounts,
                           tree: InnerCounts, leaves: nat, keyBytes: nat)
  {
    function Plus(c: Counts): Counts {
      Counts(node4.Plus(c.node4), node16.Plus(c.node16), node48.Plus(c.node48), node256.Plus(c.node256),
             tree.Plus(c.tree), leaves + c.leaves, keyBytes + c.keyBytes)
    }
  }

  const NO_COUNTS := Counts(NO_INNERS, NO_INNERS, NO_INNERS, NO_INNERS, NO_INNERS, 0, 0)

  /** One inner node. */
  function InnerNode(ty: NodeType, n: nat, len: nat): Counts {
    var c := OneInner(ty, n, len);
    var counts := NO_COUNTS.(tree := c);
    match ty
    case Node4 => counts.(node4 := c)
    case Node16 => counts.(node16 := c)
    case Node48 => counts.(node48 := c)
    case Node256 => counts.(node256 := c)
  }

  /** One leaf. */
  function LeafCounts(keyLen: nat): Counts {
    NO_COUNTS.(leaves := 1, keyBytes := keyLen)
  }

  lemma PlusNone(c: Counts)
    ensures c.Plus(NO_COUNTS) == c && NO_COUNTS.Plus(c) == c
  {
  }

  lemma InnerAssoc(a: InnerCounts, b: InnerCounts, c: InnerCounts)
    ensures a.Plus(b).Plus(c) == a.Plus(b.Plus(c)) && a.Plus(b) == b.Plus(a)
  {
  }

  lemma PlusAssoc(a: Counts, b: Counts, c: Counts)
    ensures a.Plus(b).Plus(c) == a.Plus(b.Plus(c)) && a.Plus(b) == b.Plus(a)
  {
    hide InnerCounts.Plus;
    InnerAssoc(a.node4, b.node4, c.node4);
    InnerAssoc(a.node16, b.node16, c.node16);
    InnerAssoc(a.node48, b.node48, c.node48);
    InnerAssoc(a.node256, b.node256, c.node256);
    InnerAssoc(a.tree, b.tree, c.tree);
  }

  /** The sums of two counts, and the counts of one node. */
  lemma PlusSums(a: Counts, b: Counts)
    ensures var c := a.Plus(b);
      && c.leaves == a.leaves + b.leaves && c.tree.count == a.tree.count + b.tree.count
      && c.tree.sumSlots == a.tree.sumSlots + b.tree.sumSlots
  {
  }

  lemma NodeSums(ty: NodeType, n: nat, len: nat)
    ensures var c := InnerNode(ty, n, len); c.leaves == 0 && c.tree.count == 1 && c.tree.sumSlots == n
    ensures LeafCounts(len).leaves == 1 && LeafCounts(len).tree == NO_COUNTS.tree == NO_INNERS && NO_COUNTS.leaves == 0
  {
  }

  /** The nodes are nodes of the tree below `x`. */
  ghost predicate KidsOf(t: Trie, x: Key, ks: seq<Key>) {
    forall i {:trigger ks[i]} | 0 <= i < |ks| :: ks[i] in t && |x| < |ks[i]| < KEY_LIMIT
  }

  /** The paths of the children of a node, in the order of iteration. */
  ghost function EdgePaths(t: Trie, x: Key): (ks: seq<Key>)
    requires x in t && t[x].Inner?
  {
    seq(|Edges(t[x].kids)|, i requires 0 <= i < |Edges(t[x].kids)| => Edges(t[x].kids)[i].1)
  }

  lemma EdgePathsBelow(t: Trie, r: Key, x: Key)
    requires WF(t, r) && x in t && t[x].Inner?
    ensures KidsOf(t, x, EdgePaths(t, x)) && |EdgePaths(t, x)| == |t[x].kids| >= 2 && |x| < KEY_LIMIT
    ensures NodeOk(t, x)
  {
    hide Edges;
    EdgesCounted(t[x].kids);
    assert NodeOk(t, x);
    forall i | 0 <= i < |EdgePaths(t, x)| ensures EdgePaths(t, x)[i] in t && |x| < |EdgePaths(t, x)[i]| < KEY_LIMIT {
      GraphStep(t, r, x, i);
      assert NodeOk(t, EdgePaths(t, x)[i]);
    }
  }

  /** The inner node at `x`. */
  ghost function InnerCountsAt(t: Trie, x: Key): Counts
    requires x in t && t[x].Inner? && NodeOk(t, x)
  {
    InnerNode(TypeFor(|t[x].kids|), |t[x].kids|, |x| - t[x].start)
  }

  ghost function CountsOf(t: Trie, r: Key, x: Key): Counts
    requires WF(t, r) && x in t
    decreases KEY_LIMIT - |x|, 1, 0
  {
    if t[x].Leaf? then LeafCounts(|x|)
    else
      EdgePathsBelow(t, r, x);
      CountsList(t, r, x, EdgePaths(t, x)).Plus(InnerCountsAt(t, x))
  }

  ghost function CountsList(t: Trie, r: Key, x: Key, ks: seq<Key>): Counts
    requires WF(t, r) && x in t && KidsOf(t, x, ks) && |x| < KEY_LIMIT
    decreases KEY_LIMIT - |x|, 0, |ks|
  {
    if ks == [] then NO_COUNTS
    else
      KidsOfRest(t, x, ks);
      CountsOf(t, r, ks[0]).Plus(CountsList(t, r, x, ks[1..]))
  }

  lemma KidsOfRest(t: Trie, x: Key, ks: seq<Key>)
    requires KidsOf(t, x, ks) && ks != []
    ensures ks[0] in t && |x| < |ks[0]| < KEY_LIMIT && KidsOf(t, x, ks[1..])
  {
    forall i | 0 <= i < |ks| - 1 ensures ks[1..][i] in t && |x| < |ks[1..][i]| < KEY_LIMIT {
      assert ks[1..][i] == ks[i + 1];
    }
  }

  /** Every node but the topmost takes one slot, and inner nodes branch. */
  lemma {:induction false} SlotsUsed(t: Trie, r: Key, x: Key)
    requires WF(t, r) && x in t
    ensures var c := CountsOf(t, r, x); c.tree.sumSlots + 1 == c.tree.count + c.leaves && c.tree.count < c.leaves
    decreases KEY_LIMIT - |x|, 1, 0
  {
    hide Counts.Plus, InnerNode, LeafCounts;
    if t[x].Leaf? {
      NodeSums(Node4, 0, |x|);
    } else {
      EdgePathsBelow(t, r, x);
      NodeSums(TypeFor(|t[x].kids|), |t[x].kids|, |x| - t[x].start);
      SlotsUsedBelow(t, r, x, EdgePaths(t, x));
      PlusSums(CountsList(t, r, x, EdgePaths(t, x)), InnerCountsAt(t, x));
    }
  }

  lemma {:induction false} SlotsUsedBelow(t: Trie, r: Key, x: Key, ks: seq<Key>)
    requires WF(t, r) && x in t && KidsOf(t, x, ks) && |x| < KEY_LIMIT
    ensures var c := CountsList(t, r, x, ks);
      c.tree.sumSlots + |ks| == c.tree.count + c.leaves && c.tree.count + |ks| <= c.leaves
    decreases KEY_LIMIT - |x|, 0, |ks|
  {
    hide Counts.Plus;
    if ks != [] {
      KidsOfRest(t, x, ks);
      SlotsUsed(t, r, ks[0]);
      SlotsUsedBelow(t, r, x, ks[1..]);
      PlusSums(CountsOf(t, r, ks[0]), CountsList(t, r, x, ks[1..]));
    }
  }

  /** The counts of the whole tree are the sums over the layouts, no layout uses more
      slots than it has, and stored prefixes fit in the headers. */
  ghost predicate Consistent(c: Counts) {
    && c.tree == c.node4.Plus(c.node16).Plus(c.node48).Plus(c.node256)
    && Bounded(c.node4) && Bounded(c.node16) && Bounded(c.node48) && Bounded(c.node256)
  }

  ghost predicate Bounded(c: InnerCounts) {
    c.sumSlots <= c.totalSlots && c.sumCappedPrefixLen <= c.sumPrefixLen && c.sumCappedPrefixLen <= c.totalHeaderBytes
  }

  lemma ConsistentPlus(a: Counts, b: Counts)
    requires Consistent(a) && Consistent(b)
    ensures Consistent(a.Plus(b))
  {
    hide InnerCounts.Plus, Bounded;
    SumSwap(a.node4, a.node16, a.node48, a.node256, b.node4, b.node16, b.node48, b.node256);
    BoundedPlus(a.node4, b.node4);
    BoundedPlus(a.node16, b.node16);
    BoundedPlus(a.node48, b.node48);
    BoundedPlus(a.node256, b.node256);
  }

  lemma NodeConsistent(ty: NodeType, n: nat, len: nat)
    requires n <= ty.UpperCapacity()
    ensures Consistent(InnerNode(ty, n, len)) && Consistent(LeafCounts(len)) && Consistent(NO_COUNTS)
  {
    hide InnerCounts.Plus, Bounded, OneInner;
    OneBounded(ty, n, len);
    InnersNone(OneInner(ty, n, len));
    InnersNone(NO_INNERS);
  }

  lemma OneBounded(ty: NodeType, n: nat, len: nat)
    requires n <= ty.UpperCapacity()
    ensures Bounded(OneInner(ty, n, len)) && Bounded(NO_INNERS)
  {
  }

  lemma InnersNone(c: InnerCounts)
    ensures c.Plus(NO_INNERS) == c && NO_INNERS.Plus(c) == c
  {
  }

  lemma BoundedPlus(a: InnerCounts, b: InnerCounts)
    requires Bounded(a) && Bounded(b)
    ensures Bounded(a.Plus(b))
  {
  }

  lemma SumSwap(a: InnerCounts, b: InnerCounts, c: InnerCounts, d: InnerCounts, a': InnerCounts, b': InnerCounts,
                c': InnerCounts, d': InnerCounts)
    ensures a.Plus(b).Plus(c).Plus(d).Plus(a'.Plus(b').Plus(c').Plus(d'))
         == a.Plus(a').Plus(b.Plus(b')).Plus(c.Plus(c')).Plus(d.Plus(d'))
  {
    hide InnerCounts.Plus;
    SwapTwo(a, b, a', b');
    SwapTwo(a.Plus(b), c, a'.Plus(b'), c');
    SwapTwo(a.Plus(b).Plus(c), d, a'.Plus(b').Plus(c'), d');
  }

  lemma SwapTwo(a: InnerCounts, b: InnerCounts, a': InnerCounts, b': InnerCounts)
    ensures a.Plus(b).Plus(a'.Plus(b')) == a.Plus(a').Plus(b.Plus(b'))
  {
  }

  lemma {:induction false} CountsConsistent(t: Trie, r: Key, x: Key)
    requires WF(t, r) && x in t
    ensures Consistent(CountsOf(t, r, x))
    decreases KEY_LIMIT - |x|, 1, 0
  {
    hide Counts.Plus, InnerNode, LeafCounts, Consistent;
    if t[x].Leaf? {
      NodeConsistent(Node4, 0, |x|);
    } else {
      EdgePathsBelow(t, r, x);
      CountsConsistentBelow(t, r, x, EdgePaths(t, x));
      AtMost256(t[x].kids);
      NodeConsistent(TypeFor(|t[x].kids|), |t[x].kids|, |x| - t[x].start);
      ConsistentPlus(CountsList(t, r, x, EdgePaths(t, x)), InnerCountsAt(t, x));
    }
  }

  lemma {:induction false} CountsConsistentBelow(t: Trie, r: Key, x: Key, ks: seq<Key>)
    requires WF(t, r) && x in t && KidsOf(t, x, ks) && |x| < KEY_LIMIT
    ensures Consistent(CountsList(t, r, x, ks))
    decreases KEY_LIMIT - |x|, 0, |ks|
  {
    hide Counts.Plus, Consistent;
    if ks == [] {
      NodeConsistent(Node4, 0, 0);
    } else {
      KidsOfRest(t, x, ks);
      CountsConsistent(t, r, ks[0]);
      CountsConsistentBelow(t, r, x, ks[1..]);
      ConsistentPlus(CountsOf(t, r, ks[0]), CountsList(t, r, x, ks[1..]));
    }
  }

  /** There is only one listing of the children of a node. */
  lemma OneListing(t: Trie, r: Key, x: Key, bs: seq<byte>)
    requires WF(t, r) && x in t && t[x].Inner? && AllEdges(t, x, bs)
    ensures KidPaths(t, x, bs) == EdgePaths(t, x)
  {
    hide Edges, Tries.WF;
    var es := Edges(t[x].kids);
    EdgesSorted(t[x].kids);
    var ds := seq(|es|, i requires 0 <= i < |es| => es[i].0);
    EdgesList(t[x].kids, ds, EdgePaths(t, x), t[x].kids);
    ListsUnique(bs, KidPaths(t, x, bs), ds, EdgePaths(t, x), t[x].kids);
  }

  /** The leaves counted are the leaves listed. */
  lemma {:induction false} LeavesCounted(t: Trie, r: Key, x: Key)
    requires WF(t, r) && x in t
    ensures CountsOf(t, r, x).leaves == |Leaves(t, r, x)|
    decreases KEY_LIMIT - |x|, 1, 0
  {
    hide Edges, Counts.Plus, InnerNode, LeafCounts;
    if t[x].Leaf? {
      NodeSums(Node4, 0, |x|);
    } else {
      EdgePathsBelow(t, r, x);
      NodeSums(TypeFor(|t[x].kids|), |t[x].kids|, |x| - t[x].start);
      var bs := EdgeBytes(t, r, x);
      OneListing(t, r, x, bs);
      LeavesKids(t, r, x, bs);
      LeavesCountedBelow(t, r, x, EdgePaths(t, x));
      PlusSums(CountsList(t, r, x, EdgePaths(t, x)), InnerCountsAt(t, x));
    }
  }

  lemma EdgeBytes(t: Trie, r: Key, x: Key) returns (bs: seq<byte>)
    requires WF(t, r) && x in t && t[x].Inner?
    ensures AllEdges(t, x, bs)
  {
    hide Edges, Tries.WF;
    var es := Edges(t[x].kids);
    EdgesSorted(t[x].kids);
    bs := seq(|es|, i requires 0 <= i < |es| => es[i].0);
    forall b | b in t[x].kids ensures b in bs {
      var i :| 0 <= i < |es| && es[i] == (b, t[x].kids[b]);
      assert bs[i] == b;
    }
    assert forall i :: 0 <= i < |bs| ==> bs[i] == es[i].0;
  }

  lemma {:induction false} LeavesCountedBelow(t: Trie, r: Key, x: Key, ks: seq<Key>)
    requires WF(t, r) && x in t && KidsOf(t, x, ks) && |x| < KEY_LIMIT && InTree(t, ks)
    ensures CountsList(t, r, x, ks).leaves == |LeavesOf(t, r, ks)|
    decreases KEY_LIMIT - |x|, 0, |ks|
  {
    hide Counts.Plus;
    if ks != [] {
      KidsOfRest(t, x, ks);
      assert ks == [ks[0]] + ks[1..];
      InTreeConcat(t, [ks[0]], ks[1..]);
      LeavesCounted(t, r, ks[0]);
      LeavesCountedBelow(t, r, x, ks[1..]);
      PlusSums(CountsOf(t, r, ks[0]), CountsList(t, r, x, ks[1..]));
    }
  }

  /** In a map that is not empty, `len` is the number of leaves, the used slots are
      one less than the nodes, inner nodes are fewer than leaves, and the sums over
      the layouts are those of the tree. */
  lemma TreeCounts(tree: TreeMap)
    requires tree.Valid() && tree.shape.Some?
    ensures var s := tree.shape.value;
      s.WF() &&
      var c := CountsOf(s.t, s.r, s.r);
      && c.leaves == tree.numEntries && c.tree.sumSlots == c.tree.count + c.leaves - 1 && c.tree.count < c.leaves
      && Consistent(c)
  {
    var s := tree.shape.value;
    SlotsUsed(s.t, s.r, s.r);
    CountsConsistent(s.t, s.r, s.r);
    LeavesCounted(s.t, s.r, s.r);
    AllLeaves(s.t, s.r);
  }

  /** Collects the counts of all nodes of a tree. */
  class TreeStatsCollector {
    var current: Counts

    constructor ()
      ensures current == NO_COUNTS
    {
      current := NO_COUNTS;
    }

    /** `aggregate_data`, for the layout of the node and for the whole tree. */
    method Aggregate(p: NodePtr)
      requires !p.LeafPtr? && p.Valid() && this !in p.Repr()
      modifies this
      ensures current == old(current).Plus(InnerNode(p.Type(), |p.Kids()|, |p.Header().full|))
    {
      p.ValidFacts();
      var h := p.Header();
      var c := InnerCounts(1, p.Type().UpperCapacity(), h.numChildren, PREFIX_LEN, h.prefixLen, h.CappedPrefixLen(),
                           h.prefixLen);
      InnersNone(current.node4);
      InnersNone(current.node16);
      InnersNone(current.node48);
      InnersNone(current.node256);
      match p.Type() {
        case Node4 => current := current.(node4 := current.node4.Plus(c));
        case Node16 => current := current.(node16 := current.node16.Plus(c));
        case Node48 => current := current.(node48 := current.node48.Plus(c));
        case Node256 => current := current.(node256 := current.node256.Plus(c));
      }
      current := current.(tree := current.tree.Plus(c));
    }

    /** `visit_with`: the children first, then the node itself. */
    method Visit(ghost s: Shape, ghost x: Key, p: NodePtr)
      requires StoredAt(s, x, p) && this !in s.repr
      modifies this
      ensures x in s.t && current == old(current).Plus(CountsOf(s.t, s.r, x))
      decreases KEY_LIMIT - |x|, 1
    {
      hide Shape.Valid, NodePtr.Valid, Tries.WF, Lists, NodePtr.Repr, CountsList, EdgePaths, InnerNode, Counts.Plus,
        InnerCounts.Plus;
      ValidShape(s);
      Stored(s, x, p);
      if p.LeafPtr? {
        PlusLeaf(current, |p.leaf.key|);
        current := current.(leaves := current.leaves + 1, keyBytes := current.keyBytes + |p.leaf.key|);
      } else {
        EdgePathsBelow(s.t, s.r, x);
        VisitChildren(s, x, p);
        NotIn(s, x, this);
        Aggregate(p);
        FitsOnce(p.Type(), |p.Kids()|);
        PlusAssoc(old(current), CountsList(s.t, s.r, x, EdgePaths(s.t, x)), InnerCountsAt(s.t, x));
      }
    }

    /** `super_visit_with` of an inner node. */
    method VisitChildren(ghost s: Shape, ghost x: Key, p: NodePtr)
      requires StoredAt(s, x, p) && !p.LeafPtr? && this !in s.repr && s.t[x].Inner? && |x| < KEY_LIMIT
      requires WF(s.t, s.r) && KidsOf(s.t, x, EdgePaths(s.t, x))
      modifies this
      ensures current == old(current).Plus(CountsList(s.t, s.r, x, EdgePaths(s.t, x)))
      decreases KEY_LIMIT - |x|, 0
    {
      hide Shape.Valid, NodePtr.Valid, Tries.WF, Lists, NodePtr.Repr, CountsOf, EdgePaths, KidPaths, AllEdges,
        Counts.Plus;
      Stored(s, x, p);
      var bs, cs := p.Iter();
      ghost var ks := EdgePaths(s.t, x);
      ChildrenListed(s, x, p, bs, cs);
      var i := 0;
      while i < |cs|
        invariant i <= |cs| == |ks| && KidsOf(s.t, x, ks[i..])
        invariant current.Plus(CountsList(s.t, s.r, x, ks[i..])) == old(current).Plus(CountsList(s.t, s.r, x, ks))
      {
        PlusAssoc(current, CountsOf(s.t, s.r, ks[i]), CountsList(s.t, s.r, x, ks[i + 1..]));
        KidsOfRest(s.t, x, ks[i..]);
        assert ks[i..][0] == ks[i] && ks[i..][1..] == ks[i + 1..];
        Visit(s, ks[i], cs[i]);
        i := i + 1;
      }
      PlusNone(current);
    }
  }

  lemma PlusLeaf(c: Counts, keyLen: nat)
    ensures c.(leaves := c.leaves + 1, keyBytes := c.keyBytes + keyLen) == c.Plus(LeafCounts(keyLen))
  {
  }

  lemma NotIn(s: Shape, x: Key, o: object)
    requires s.WF() && x in s.at && o !in s.repr
    ensures o !in s.at[x].Repr()
  {
  }

  lemma ChildrenListed(s: Shape, x: Key, p: NodePtr, bs: seq<byte>, cs: seq<NodePtr>)
    requires StoredAt(s, x, p) && s.t[x].Inner? && Lists(bs, cs, p.Kids())
    ensures |cs| == |EdgePaths(s.t, x)|
    ensures forall i :: 0 <= i < |cs| ==> StoredAt(s, EdgePaths(s.t, x)[i], cs[i])
  {
    ListedKids(s, x, p, bs, cs);
    OneListing(s.t, s.r, x, bs);
  }
}
