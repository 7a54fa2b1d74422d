/** What the collected counts of a tree are, in terms of the sets of its nodes. */
module TreeTotals {
  import opened Bytes
  import opened Layouts
  import opened Tries
  import opened Nodes
  import opened Shapes
  import opened Frontiers
  import opened Maps
  import opened TreeStats

  /** The sum of the values of a map. */
  ghost function Sum(m: map<Key, int>): int {
    if m == map[] then 0
    else
      var x :| x in m;
      m[x] + Sum(m - {x})
  }

  /** The order of summation does not matter. */
  lemma {:induction false} SumTake(m: map<Key, int>, x: Key)
    requires x in m
    ensures Sum(m) == m[x] + Sum(m - {x})
    decreases |m|
  {
    var y :| y in m && Sum(m) == m[y] + Sum(m - {y});
    if y != x {
      SumTake(m - {y}, x);
      SumTake(m - {x}, y);
      assert m - {y} - {x} == m - {x} - {y};
    }
  }

  lemma SumNone()
    ensures Sum(map[]) == 0
  {
  }

  lemma MergeTake(a: map<Key, int>, b: map<Key, int>, x: Key)
    requires a.Keys !! b.Keys && x in a
    ensures x in a + b && (a + b)[x] == a[x] && a + b - {x} == (a - {x}) + b
    ensures (a - {x}).Keys !! b.Keys && |a - {x}| < |a|
  {
    RemoveSize(a, x);
  }

  lemma {:induction false} SumMerge(a: map<Key, int>, b: map<Key, int>)
    requires a.Keys !! b.Keys
    ensures Sum(a + b) == Sum(a) + Sum(b)
    decreases |a|
  {
    SumNone();
    hide Sum;
    if a == map[] {
      assert a + b == b;
    } else {
      var x :| x in a;
      SumTake(a, x);
      MergeTake(a, b, x);
      SumTake(a + b, x);
      SumMerge(a - {x}, b);
    }
  }

  lemma SumOne(m: map<Key, int>, x: Key)
    requires m.Keys == {x}
    ensures Sum(m) == m[x]
  {
    SumTake(m, x);
    assert m - {x} == map[];
  }

  lemma Distribute(a: int, b: int, c: int)
    ensures (a + b) * c == a * c + b * c
  {
  }

  lemma {:induction false} SumConstant(m: map<Key, int>, c: int)
    requires forall x :: x in m ==> m[x] == c
    ensures Sum(m) == |m| * c
    decreases |m|
  {
    SumNone();
    hide Sum;
    if m != map[] {
      var x :| x in m;
      SumTake(m, x);
      RemoveSize(m, x);
      SumConstant(m - {x}, c);
      Distribute(|m| - 1, 1, c);
    }
  }

  ghost predicate AllInner(t: Trie, xs: set<Key>) {
    forall x :: x in xs ==> x in t && t[x].Inner?
  }

  /** Capacity, used slots, and whole and stored prefix length of each inner node. */
  ghost function Caps(t: Trie, xs: set<Key>): map<Key, int>
    requires AllInner(t, xs)
  {
    map x | x in xs :: TypeFor(|t[x].kids|).UpperCapacity()
  }

  ghost function Slots(t: Trie, xs: set<Key>): map<Key, int>
    requires AllInner(t, xs)
  {
    map x | x in xs :: |t[x].kids|
  }

  ghost function Lens(t: Trie, xs: set<Key>): map<Key, int>
    requires AllInner(t, xs)
  {
    map x | x in xs :: |x| - t[x].start
  }

  ghost function StoredLens(t: Trie, xs: set<Key>): map<Key, int>
    requires AllInner(t, xs)
  {
    map x | x in xs :: if |x| - t[x].start < PREFIX_LEN then |x| - t[x].start else PREFIX_LEN
  }

  ghost function KeyLens(xs: set<Key>): map<Key, int> {
    map x | x in xs :: |x|
  }

  /** The longest prefix, or 0 if there is none. */
  ghost predicate IsMaxLen(t: Trie, xs: set<Key>, max: nat)
    requires AllInner(t, xs)
  {
    && (forall x :: x in xs ==> |x| - t[x].start <= max)
    && (if xs == {} then max == 0 else exists x :: x in xs && |x| - t[x].start == max)
  }

  /** The counts are those of the inner nodes at the paths `xs`. */
  ghost predicate Counted(t: Trie, xs: set<Key>, c: InnerCounts)
    requires AllInner(t, xs)
  {
    && c.count == |xs| && c.totalHeaderBytes == |xs| * PREFIX_LEN
    && c.totalSlots == Sum(Caps(t, xs)) && c.sumSlots == Sum(Slots(t, xs))
    && c.sumPrefixLen == Sum(Lens(t, xs)) && c.sumCappedPrefixLen == Sum(StoredLens(t, xs))
    && IsMaxLen(t, xs, c.maxPrefixLen)
  }

  lemma CountedNone(t: Trie)
    ensures Counted(t, {}, NO_INNERS)
  {
    assert Caps(t, {}) == Slots(t, {}) == Lens(t, {}) == StoredLens(t, {}) == map[];
  }

  lemma CapsPlus(t: Trie, xs: set<Key>, ys: set<Key>)
    requires AllInner(t, xs) && AllInner(t, ys) && xs !! ys
    ensures Sum(Caps(t, xs + ys)) == Sum(Caps(t, xs)) + Sum(Caps(t, ys))
  {
    hide Sum;
    assert Caps(t, xs + ys) == Caps(t, xs) + Caps(t, ys);
    SumMerge(Caps(t, xs), Caps(t, ys));
  }

  lemma SlotsPlus(t: Trie, xs: set<Key>, ys: set<Key>)
    requires AllInner(t, xs) && AllInner(t, ys) && xs !! ys
    ensures Sum(Slots(t, xs + ys)) == Sum(Slots(t, xs)) + Sum(Slots(t, ys))
  {
    hide Sum;
    assert Slots(t, xs + ys) == Slots(t, xs) + Slots(t, ys);
    SumMerge(Slots(t, xs), Slots(t, ys));
  }

  lemma LensPlus(t: Trie, xs: set<Key>, ys: set<Key>)
    requires AllInner(t, xs) && AllInner(t, ys) && xs !! ys
    ensures Sum(Lens(t, xs + ys)) == Sum(Lens(t, xs)) + Sum(Lens(t, ys))
  {
    hide Sum;
    assert Lens(t, xs + ys) == Lens(t, xs) + Lens(t, ys);
    SumMerge(Lens(t, xs), Lens(t, ys));
  }

  lemma StoredLensPlus(t: Trie, xs: set<Key>, ys: set<Key>)
    requires AllInner(t, xs) && AllInner(t, ys) && xs !! ys
    ensures Sum(StoredLens(t, xs + ys)) == Sum(StoredLens(t, xs)) + Sum(StoredLens(t, ys))
  {
    hide Sum;
    assert StoredLens(t, xs + ys) == StoredLens(t, xs) + StoredLens(t, ys);
    SumMerge(StoredLens(t, xs), StoredLens(t, ys));
  }

  lemma CountedPlus(t: Trie, xs: set<Key>, ys: set<Key>, c: InnerCounts, d: InnerCounts)
    requires AllInner(t, xs) && AllInner(t, ys) && xs !! ys && Counted(t, xs, c) && Counted(t, ys, d)
    ensures Counted(t, xs + ys, c.Plus(d))
  {
    hide Sum, Caps, Slots, Lens, StoredLens, IsMaxLen;
    CapsPlus(t, xs, ys);
    SlotsPlus(t, xs, ys);
    LensPlus(t, xs, ys);
    StoredLensPlus(t, xs, ys);
    assert |xs + ys| == |xs| + |ys|;
    Distribute(|xs|, |ys|, PREFIX_LEN);
    MaxLenPlus(t, xs, ys, c.maxPrefixLen, d.maxPrefixLen);
  }

  lemma MaxLenPlus(t: Trie, xs: set<Key>, ys: set<Key>, m: nat, n: nat)
    requires AllInner(t, xs) && AllInner(t, ys) && IsMaxLen(t, xs, m) && IsMaxLen(t, ys, n)
    ensures IsMaxLen(t, xs + ys, Max(m, n))
  {
    if xs != {} {
      var x :| x in xs && |x| - t[x].start == m;
      assert x in xs + ys;
    }
    if ys != {} {
      var y :| y in ys && |y| - t[y].start == n;
      assert y in xs + ys;
    }
  }

  lemma CountedOne(t: Trie, x: Key)
    requires x in t && t[x].Inner? && NodeOk(t, x)
    ensures Counted(t, {x}, OneInner(TypeFor(|t[x].kids|), |t[x].kids|, |x| - t[x].start))
  {
    SumOne(Caps(t, {x}), x);
    SumOne(Slots(t, {x}), x);
    SumOne(Lens(t, {x}), x);
    SumOne(StoredLens(t, {x}), x);
    assert x in {x};
  }

  ghost function Inners(t: Trie, xs: set<Key>): (ys: set<Key>)
    ensures AllInner(t, ys)
  {
    set x | x in xs && x in t && t[x].Inner?
  }

  ghost function OfType(t: Trie, xs: set<Key>, ty: NodeType): (ys: set<Key>)
    ensures AllInner(t, ys)
  {
    set x | x in xs && x in t && t[x].Inner? && Fits(ty, |t[x].kids|)
  }

  ghost function LeafSet(t: Trie, xs: set<Key>): set<Key> {
    set x | x in xs && x in t && t[x].Leaf?
  }

  /** The counts are those of the nodes at the paths `xs`. */
  ghost predicate Totals(t: Trie, xs: set<Key>, c: Counts) {
    && Counted(t, OfType(t, xs, Node4), c.node4) && Counted(t, OfType(t, xs, Node16), c.node16)
    && Counted(t, OfType(t, xs, Node48), c.node48) && Counted(t, OfType(t, xs, Node256), c.node256)
    && Counted(t, Inners(t, xs), c.tree)
    && c.leaves == |LeafSet(t, xs)| && c.keyBytes == Sum(KeyLens(LeafSet(t, xs)))
  }

  lemma TotalsNone(t: Trie)
    ensures Totals(t, {}, NO_COUNTS)
  {
    hide Counted;
    CountedNone(t);
    assert OfType(t, {}, Node4) == OfType(t, {}, Node16) == OfType(t, {}, Node48) == OfType(t, {}, Node256) == {};
    assert Inners(t, {}) == LeafSet(t, {}) == {};
    assert KeyLens({}) == map[];
  }

  lemma OfTypePlus(t: Trie, xs: set<Key>, ys: set<Key>, ty: NodeType)
    ensures OfType(t, xs + ys, ty) == OfType(t, xs, ty) + OfType(t, ys, ty)
    ensures xs !! ys ==> OfType(t, xs, ty) !! OfType(t, ys, ty)
  {
  }

  lemma TotalsPlus(t: Trie, xs: set<Key>, ys: set<Key>, c: Counts, d: Counts)
    requires xs !! ys && Totals(t, xs, c) && Totals(t, ys, d)
    ensures Totals(t, xs + ys, c.Plus(d))
  {
    hide Counted, InnerCounts.Plus, OfType, Sum;
    OfTypePlus(t, xs, ys, Node4);
    OfTypePlus(t, xs, ys, Node16);
    OfTypePlus(t, xs, ys, Node48);
    OfTypePlus(t, xs, ys, Node256);
    CountedPlus(t, OfType(t, xs, Node4), OfType(t, ys, Node4), c.node4, d.node4);
    CountedPlus(t, OfType(t, xs, Node16), OfType(t, ys, Node16), c.node16, d.node16);
    CountedPlus(t, OfType(t, xs, Node48), OfType(t, ys, Node48), c.node48, d.node48);
    CountedPlus(t, OfType(t, xs, Node256), OfType(t, ys, Node256), c.node256, d.node256);
    assert Inners(t, xs + ys) == Inners(t, xs) + Inners(t, ys);
    CountedPlus(t, Inners(t, xs), Inners(t, ys), c.tree, d.tree);
    LeafTotalsPlus(t, xs, ys);
  }

  lemma LeafTotalsPlus(t: Trie, xs: set<Key>, ys: set<Key>)
    requires xs !! ys
    ensures |LeafSet(t, xs + ys)| == |LeafSet(t, xs)| + |LeafSet(t, ys)|
    ensures Sum(KeyLens(LeafSet(t, xs + ys))) == Sum(KeyLens(LeafSet(t, xs))) + Sum(KeyLens(LeafSet(t, ys)))
  {
    hide Sum;
    var as', bs := LeafSet(t, xs), LeafSet(t, ys);
    assert LeafSet(t, xs + ys) == as' + bs && |as' + bs| == |as'| + |bs|;
    SumMerge(KeyLens(as'), KeyLens(bs));
    assert KeyLens(as' + bs) == KeyLens(as') + KeyLens(bs);
  }

  lemma TotalsLeaf(t: Trie, x: Key)
    requires x in t && t[x].Leaf?
    ensures Totals(t, {x}, LeafCounts(|x|))
  {
    hide Counted;
    CountedNone(t);
    assert OfType(t, {x}, Node4) == OfType(t, {x}, Node16) == OfType(t, {x}, Node48) == OfType(t, {x}, Node256) == {};
    assert Inners(t, {x}) == {} && LeafSet(t, {x}) == {x};
    SumOne(KeyLens({x}), x);
  }

  lemma OfTypeOne(t: Trie, x: Key, ty: NodeType)
    requires x in t && t[x].Inner? && 2 <= |t[x].kids| <= 256
    ensures OfType(t, {x}, ty) == if ty == TypeFor(|t[x].kids|) then {x} else {}
  {
  }

  lemma TotalsInner(t: Trie, x: Key)
    requires x in t && t[x].Inner? && NodeOk(t, x)
    ensures Totals(t, {x}, InnerCountsAt(t, x))
  {
    hide Counted, OfType, OneInner;
    AtMost256(t[x].kids);
    CountedNone(t);
    CountedOne(t, x);
    OfTypeOne(t, x, Node4);
    OfTypeOne(t, x, Node16);
    OfTypeOne(t, x, Node48);
    OfTypeOne(t, x, Node256);
    assert Inners(t, {x}) == {x} && LeafSet(t, {x}) == {};
    assert KeyLens({}) == map[];
  }

  /** The nodes at or below node `x`, and those at or below some of the nodes `ks`. */
  ghost function At(t: Trie, x: Key): set<Key> {
    set y | y in t && x <= y
  }

  ghost function Cover(t: Trie, ks: seq<Key>): set<Key> {
    set y | y in t && Covered(ks, y)
  }

  lemma CoverFirst(t: Trie, ks: seq<Key>)
    requires Increasing(ks) && ks != []
    ensures Cover(t, ks) == At(t, ks[0]) + Cover(t, ks[1..]) && At(t, ks[0]) !! Cover(t, ks[1..])
    ensures Increasing(ks[1..])
  {
    assert ks == [ks[0]] + ks[1..];
    forall y ensures Covered(ks, y) <==> ks[0] <= y || Covered(ks[1..], y) {
      CoveredConcat([ks[0]], ks[1..], y);
      assert [ks[0]][0] == ks[0];
    }
    forall y | ks[0] <= y ensures !Covered(ks[1..], y) {
      forall i | 0 <= i < |ks[1..]| ensures !(ks[1..][i] <= y) {
        assert Before(ks[0], ks[i + 1]);
        NotBothPrefixes(ks[0], ks[i + 1], y);
      }
    }
  }

  lemma NotBothPrefixes(a: Key, b: Key, y: Key)
    requires Apart(a, b) && a <= y
    ensures !(b <= y)
  {
    var n := Lcp(a, b);
    assert a[n] != b[n] && y[n] == a[n];
  }

  lemma CoverKids(t: Trie, r: Key, x: Key)
    requires WF(t, r) && x in t && t[x].Inner?
    ensures Increasing(EdgePaths(t, x)) && x !in Cover(t, EdgePaths(t, x))
    ensures At(t, x) == Cover(t, EdgePaths(t, x)) + {x}
  {
    hide EdgePaths, Tries.WF, Covered;
    var bs := EdgeBytes(t, r, x);
    OneListing(t, r, x, bs);
    KidsIncreasing(t, r, x, bs);
    forall y | y in t ensures (x <= y <==> Covered(EdgePaths(t, x), y) || y == x) && !Covered(EdgePaths(t, x), x) {
      CoveredKids(t, r, x, bs, y);
      CoveredKids(t, r, x, bs, x);
    }
  }

  /** The counts of a subtree are those of its nodes. */
  lemma {:induction false} TotalsAt(t: Trie, r: Key, x: Key)
    requires WF(t, r) && x in t
    ensures Totals(t, At(t, x), CountsOf(t, r, x))
    decreases KEY_LIMIT - |x|, 1, 0
  {
    hide Totals, Counts.Plus, EdgePaths, InnerCountsAt, Cover;
    if t[x].Leaf? {
      TotalsLeaf(t, x);
      forall y | y in t ensures x <= y <==> y == x {
        NothingBelowLeaf(t, r, x, y);
      }
      assert At(t, x) == {x};
    } else {
      EdgePathsBelow(t, r, x);
      CoverKids(t, r, x);
      TotalsBelow(t, r, x, EdgePaths(t, x));
      TotalsInner(t, x);
      TotalsPlus(t, Cover(t, EdgePaths(t, x)), {x}, CountsList(t, r, x, EdgePaths(t, x)), InnerCountsAt(t, x));
    }
  }

  lemma {:induction false} TotalsBelow(t: Trie, r: Key, x: Key, ks: seq<Key>)
    requires WF(t, r) && x in t && KidsOf(t, x, ks) && |x| < KEY_LIMIT && Increasing(ks)
    ensures Totals(t, Cover(t, ks), CountsList(t, r, x, ks))
    decreases KEY_LIMIT - |x|, 0, |ks|
  {
    hide Totals, Counts.Plus, Increasing;
    if ks == [] {
      TotalsNone(t);
      assert Cover(t, ks) == {};
    } else {
      KidsOfRest(t, x, ks);
      CoverFirst(t, ks);
      TotalsAt(t, r, ks[0]);
      TotalsBelow(t, r, x, ks[1..]);
      TotalsPlus(t, At(t, ks[0]), Cover(t, ks[1..]), CountsOf(t, r, ks[0]), CountsList(t, r, x, ks[1..]));
    }
  }

  lemma WholeTree(t: Trie, r: Key)
    requires WF(t, r)
    ensures r in t && At(t, r) == t.Keys && Totals(t, t.Keys, CountsOf(t, r, r))
  {
    hide Totals, CountsOf;
    forall y | y in t ensures r <= y {
      RootAbove(t, r, y);
    }
    TotalsAt(t, r, r);
    assert At(t, r) == t.Keys;
  }

  /** The measures of the nodes, written out. */
  lemma MapsShown(t: Trie, xs: set<Key>)
    requires AllInner(t, xs)
    ensures Slots(t, xs) == map x | x in xs :: |t[x].kids|
    ensures Lens(t, xs) == map x | x in xs :: |x| - t[x].start
    ensures StoredLens(t, xs)
      == map x | x in xs :: if |x| - t[x].start < PREFIX_LEN then |x| - t[x].start else PREFIX_LEN
  {
  }

  lemma LayoutSlots(t: Trie, xs: set<Key>, ty: NodeType)
    requires AllInner(t, xs) && forall x :: x in xs ==> Fits(ty, |t[x].kids|)
    ensures Sum(Caps(t, xs)) == |xs| * ty.UpperCapacity()
  {
    hide Sum;
    forall x | x in xs ensures Caps(t, xs)[x] == ty.UpperCapacity() {
      FitsOnce(ty, |t[x].kids|);
    }
    SumConstant(Caps(t, xs), ty.UpperCapacity());
    assert |Caps(t, xs)| == |Caps(t, xs).Keys| && Caps(t, xs).Keys == xs;
  }

  lemma LayoutCounted(t: Trie, r: Key, ty: NodeType)
    requires WF(t, r)
    ensures r in t
    ensures
      var c := CountsOf(t, r, r);
      Counted(t, OfType(t, t.Keys, ty),
              match ty case Node4 => c.node4 case Node16 => c.node16 case Node48 => c.node48 case Node256 => c.node256)
  {
    hide Counted, CountsOf, Sum, OfType;
    WholeTree(t, r);
  }

  /** The counts of one layout are sums over the nodes of that layout. */
  lemma LayoutTotals(t: Trie, r: Key, ty: NodeType)
    requires WF(t, r)
    ensures
      var c := CountsOf(t, r, r);
      var inners :=
        match ty
        case Node4 => c.node4
        case Node16 => c.node16
        case Node48 => c.node48
        case Node256 => c.node256;
      var xs := set x | x in t && t[x].Inner? && Fits(ty, |t[x].kids|);
      && inners.count == |xs| && inners.totalSlots == |xs| * ty.UpperCapacity()
      && inners.totalHeaderBytes == |xs| * PREFIX_LEN
      && inners.sumSlots == Sum(map x | x in xs :: |t[x].kids|)
      && inners.sumPrefixLen == Sum(map x | x in xs :: |x| - t[x].start)
      && inners.sumCappedPrefixLen
           == Sum(map x | x in xs :: if |x| - t[x].start < PREFIX_LEN then |x| - t[x].start else PREFIX_LEN)
      && (forall x :: x in xs ==> |x| - t[x].start <= inners.maxPrefixLen)
      && (if xs == {} then inners.maxPrefixLen == 0
          else exists x :: x in xs && |x| - t[x].start == inners.maxPrefixLen)
  {
    hide Tries.WF, Sum, CountsOf, Totals, Fits;
    LayoutCounted(t, r, ty);
    var xs := set x | x in t && t[x].Inner? && Fits(ty, |t[x].kids|);
    assert xs == OfType(t, t.Keys, ty);
    LayoutSlots(t, xs, ty);
    MapsShown(t, xs);
  }

  /** The counts of the tree are sums over all its inner nodes, and over its leaves. */
  lemma AllTotals(t: Trie, r: Key)
    requires WF(t, r)
    ensures
      var c := CountsOf(t, r, r);
      var xs := set x | x in t && t[x].Inner?;
      var ys := set x | x in t && t[x].Leaf?;
      && c.tree.count == |xs| && c.tree.totalHeaderBytes == |xs| * PREFIX_LEN
      && c.tree.totalSlots == c.node4.totalSlots + c.node16.totalSlots + c.node48.totalSlots + c.node256.totalSlots
      && c.tree.sumSlots == Sum(map x | x in xs :: |t[x].kids|)
      && c.tree.sumPrefixLen == Sum(map x | x in xs :: |x| - t[x].start)
      && c.tree.sumCappedPrefixLen
           == Sum(map x | x in xs :: if |x| - t[x].start < PREFIX_LEN then |x| - t[x].start else PREFIX_LEN)
      && (forall x :: x in xs ==> |x| - t[x].start <= c.tree.maxPrefixLen)
      && (if xs == {} then c.tree.maxPrefixLen == 0
          else exists x :: x in xs && |x| - t[x].start == c.tree.maxPrefixLen)
      && c.leaves == |ys| && c.keyBytes == Sum(map x | x in ys :: |x|)
  {
    hide Tries.WF, Sum, CountsOf;
    WholeTree(t, r);
    CountsConsistent(t, r, r);
    var xs := set x | x in t && t[x].Inner?;
    var ys := set x | x in t && t[x].Leaf?;
    assert xs == Inners(t, t.Keys) && ys == LeafSet(t, t.Keys);
    MapsShown(t, xs);
    assert KeyLens(ys) == map x | x in ys :: |x|;
  }

  lemma SomeEntry(tree: TreeMap)
    requires tree.Valid()
    ensures tree.root.Some? <==> tree.Entries() != map[]
  {
    if tree.root.Some? {
      var s := tree.shape.value;
      var y := LeafExists(s.t, s.r, s.r);
      assert y in tree.Entries();
    }
  }

  /** `collect`: nothing for an empty map, or else the counts of its tree. */
  method Collect(tree: TreeMap) returns (r: Option<Counts>)
    requires tree.Valid()
    ensures r.Some? <==> tree.Entries() != map[]
    ensures r.Some? ==>
      && tree.shape.Some? && tree.shape.value.WF()
      && r.value == CountsOf(tree.shape.value.t, tree.shape.value.r, tree.shape.value.r)
  {
    hide Tries.WF, Shape.WF, Shape.Valid, CountsOf, Contents, Counts.Plus;
    SomeEntry(tree);
    if tree.root.None? {
      return None;
    }
    ghost var s := tree.shape.value;
    Stored(s, s.r, tree.root.value);
    var collector := new TreeStatsCollector();
    collector.Visit(s, s.r, tree.root.value);
    PlusNone(CountsOf(s.t, s.r, s.r));
    return Some(collector.current);
  }
}
