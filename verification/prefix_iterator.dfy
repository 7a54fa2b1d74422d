/** The double-ended iterator over all entries whose key starts with a prefix. */
module PrefixIterators {
  import opened Bytes
  import opened Layouts
  import opened Tries
  import opened Nodes
  import opened Shapes
  import opened Frontiers
  import opened Maps
  import opened Listings
  import opened Selections
  import opened TreeIterators
  import Lookup

  predicate StartsWith(k: Key, prefix: Key) {
    prefix <= k
  }

  /** The keys that start with the searched prefix. */
  ghost function Extensions(prefix: Key): iset<Key> {
    iset k: Key | StartsWith(k, prefix)
  }

  /** How deep the search is when it reaches node `x`. Inside the searched prefix
      the depth is exact, and all bytes up to it match. Past the searched prefix it
      is only a lower bound. */
  ghost predicate DepthOk(t: Trie, x: Key, prefix: Key, depth: nat) {
    && x in t && depth <= t[x].start <= |x|
    && (if depth < |prefix| then depth == t[x].start && x[..depth] == prefix[..depth] else prefix <= x[..t[x].start])
  }

  ghost predicate ItemOk(s: Shape, x: Key, prefix: Key, item: (NodePtr, nat)) {
    x in s.t && x in s.at && s.at[x] == item.0 && DepthOk(s.t, x, prefix, item.1)
  }

  /** The deque holds the nodes at the paths `ks`, the last path at its front,
      each with a depth. */
  ghost predicate Items(s: Shape, items: seq<(NodePtr, nat)>, ks: seq<Key>, prefix: Key) {
    && |items| == |ks|
    && forall i {:trigger ks[i]} | 0 <= i < |ks| :: ItemOk(s, ks[i], prefix, items[|ks| - 1 - i])
  }

  lemma ItemsConcat(s: Shape, ms: seq<(NodePtr, nat)>, ls: seq<Key>, items: seq<(NodePtr, nat)>, ks: seq<Key>,
                    prefix: Key)
    requires Items(s, ms, ls, prefix) && Items(s, items, ks, prefix)
    ensures Items(s, ms + items, ks + ls, prefix)
  {
    forall i | 0 <= i < |ks + ls| ensures ItemOk(s, (ks + ls)[i], prefix, (ms + items)[|ks + ls| - 1 - i]) {
      if i < |ks| {
        assert (ks + ls)[i] == ks[i];
      } else {
        assert (ks + ls)[i] == ls[i - |ks|];
      }
    }
  }

  lemma ItemsBack(s: Shape, items: seq<(NodePtr, nat)>, ks: seq<Key>, prefix: Key)
    requires Items(s, items, ks, prefix) && items != []
    ensures ItemOk(s, ks[0], prefix, items[|items| - 1])
    ensures Items(s, items[..|items| - 1], ks[1..], prefix)
  {
    var ls := ks[1..];
    forall i | 0 <= i < |ls| ensures ItemOk(s, ls[i], prefix, items[..|items| - 1][|ls| - 1 - i]) {
      assert ls[i] == ks[i + 1];
    }
  }

  lemma ItemsFront(s: Shape, items: seq<(NodePtr, nat)>, ks: seq<Key>, prefix: Key)
    requires Items(s, items, ks, prefix) && items != []
    ensures ItemOk(s, ks[|ks| - 1], prefix, items[0])
    ensures Items(s, items[1..], ks[..|ks| - 1], prefix)
  {
    var ls := ks[..|ks| - 1];
    forall i | 0 <= i < |ls| ensures ItemOk(s, ls[i], prefix, items[1..][|ls| - 1 - i]) {
      assert ls[i] == ks[i];
    }
  }

  /** `is_prefix_of`: how far two strings agree, if one is a prefix of the other. */
  method IsPrefixOf(a: Key, b: Key) returns (r: Option<nat>)
    ensures r.Some? <==> a <= b || b <= a
    ensures r.Some? ==> r.value == Lcp(a, b) == Min(|a|, |b|)
  {
    var n := Lookup.CountEqual(a, b);
    LcpPrefix(a, b);
    return if n == Min(|a|, |b|) then Some(n) else None;
  }

  /** `handle_leaf`: whether the key of a leaf starts with the searched prefix. */
  method HandleLeaf(ghost t: Trie, prefix: Key, depth: nat, leaf: LeafNode) returns (r: bool)
    requires DepthOk(t, leaf.key, prefix, depth)
    ensures r <==> prefix <= leaf.key
  {
    if depth >= |prefix| {
      return true;
    }
    if |prefix| > |leaf.key| {
      return false;
    }
    var m := IsPrefixOf(leaf.key[depth..], prefix[depth..]);
    SuffixPrefix(prefix, leaf.key, depth);
    return m.Some?;
  }

  lemma SuffixPrefix(a: Key, b: Key, d: nat)
    requires d <= |a| && d <= |b| && a[..d] == b[..d]
    ensures a <= b <==> a[d..] <= b[d..]
  {
    assert a == a[..d] + a[d..] && b == b[..d] + b[d..];
  }

  /** The nodes that an inner node gives way to, in key order: the wanted keys
      below them are those below the inner node, and there is less to search. */
  ghost predicate Expansion(s: Shape, x: Key, prefix: Key, items: seq<(NodePtr, nat)>, ls: seq<Key>)
    requires s.WF() && x in s.t
  {
    && |items| == |ls| && InTree(s.t, ls)
    && (forall i {:trigger ls[i]} | 0 <= i < |ls| :: ItemOk(s, ls[i], prefix, items[i]))
    && Select(LeavesOf(s.t, s.r, ls), Extensions(prefix)) == Select(Leaves(s.t, s.r, x), Extensions(prefix))
    && |LeavesOf(s.t, s.r, ls)| <= |Leaves(s.t, s.r, x)|
    && 2 * |LeavesOf(s.t, s.r, ls)| - |ls| < 2 * |Leaves(s.t, s.r, x)| - 1
  }

  /** All keys below the node start with the prefix. */
  lemma ExpandAll(s: Shape, x: Key, p: NodePtr, bs: seq<byte>, cs: seq<NodePtr>, prefix: Key,
                  items: seq<(NodePtr, nat)>, d: nat)
    requires StoredAt(s, x, p) && s.t[x].Inner? && Lists(bs, cs, p.Kids())
    requires prefix <= x && |prefix| <= d <= |x| + 1
    requires |items| == |cs| && forall i :: 0 <= i < |items| ==> items[i] == (cs[i], d)
    ensures AllEdges(s.t, x, bs) && Expansion(s, x, prefix, items, KidPaths(s.t, x, bs))
  {
    ListedKids(s, x, p, bs, cs);
    TwoKids(s, x, p, bs, cs);
    LeavesKids(s.t, s.r, x, bs);
    var ls := KidPaths(s.t, x, bs);
    forall i | 0 <= i < |ls| ensures ItemOk(s, ls[i], prefix, items[i]) {
      assert KidOk(s.t, x, bs[i]) && NodeOk(s.t, ls[i]);
    }
  }

  /** No key below the node starts with the prefix. */
  lemma ExpandNone(s: Shape, x: Key, prefix: Key)
    requires s.WF() && x in s.t
    requires forall z :: z in s.t && s.t[z].Leaf? && x <= z ==> !(prefix <= z)
    ensures Expansion(s, x, prefix, [], [])
  {
    LeavesBelow(s.t, s.r, x);
    SelectNone(Leaves(s.t, s.r, x), Extensions(prefix));
    LeavesOne(s.t, s.r, x);
    LeavesMany(s.t, s.r, [x]);
  }

  /** Only the keys below one child can start with the prefix. */
  lemma ExpandOne(s: Shape, x: Key, p: NodePtr, bs: seq<byte>, cs: seq<NodePtr>, prefix: Key, i: nat)
    requires StoredAt(s, x, p) && s.t[x].Inner? && Lists(bs, cs, p.Kids()) && i < |bs|
    requires x < prefix && prefix[|x|] == bs[i]
    ensures AllEdges(s.t, x, bs) && Expansion(s, x, prefix, [(cs[i], |x| + 1)], [KidPaths(s.t, x, bs)[i]])
  {
    hide NodePtr.Valid, Shape.Valid, Tries.WF, Lists;
    ListedKids(s, x, p, bs, cs);
    ValidShape(s);
    TwoKids(s, x, p, bs, cs);
    var y := KidPaths(s.t, x, bs)[i];
    KidItem(s, x, bs[i], prefix);
    OneKidLeaves(s.t, s.r, x, bs, i, prefix);
    LeavesOne(s.t, s.r, y);
  }

  lemma KidItem(s: Shape, x: Key, b: byte, prefix: Key)
    requires s.WF() && x in s.t && s.t[x].Inner? && b in s.t[x].kids && x < prefix && prefix[|x|] == b
    ensures DepthOk(s.t, s.t[x].kids[b], prefix, |x| + 1)
  {
    assert KidOk(s.t, x, b);
  }

  /** The leaves below the children other than child `i` do not start with the
      prefix, and there is at least one such leaf. */
  lemma OneKidLeaves(t: Trie, r: Key, x: Key, bs: seq<byte>, i: nat, prefix: Key)
    requires WF(t, r) && x in t && t[x].Inner? && AllEdges(t, x, bs) && i < |bs| && 2 <= |bs|
    requires x < prefix && prefix[|x|] == bs[i]
    ensures var y := KidPaths(t, x, bs)[i];
      && y in t && |Leaves(t, r, y)| < |Leaves(t, r, x)|
      && Select(Leaves(t, r, y), Extensions(prefix)) == Select(Leaves(t, r, x), Extensions(prefix))
  {
    hide Tries.WF, Increasing, Sorted, Select, Extensions;
    var ks, w := KidPaths(t, x, bs), Extensions(prefix);
    LeavesKids(t, r, x, bs);
    var ls, y, rs := ks[..i], ks[i], ks[i + 1..];
    assert ks == ls + [y] + rs && ls == ks[0..i] && rs == ks[i + 1..|bs|];
    LeavesSplit(t, r, ls, y, rs);
    LeavesMany(t, r, ls);
    LeavesMany(t, r, rs);
    EdgesDiffer(bs, i);
    OtherKids(t, r, x, bs, 0, i, prefix);
    OtherKids(t, r, x, bs, i + 1, |bs|, prefix);
    SelectConcat(LeavesOf(t, r, ls), Leaves(t, r, y), w);
    SelectConcat(LeavesOf(t, r, ls) + Leaves(t, r, y), LeavesOf(t, r, rs), w);
    SelectUnits(Select(Leaves(t, r, y), w));
  }

  lemma EdgesDiffer(bs: seq<byte>, i: nat)
    requires Sorted(bs) && i < |bs|
    ensures forall j :: 0 <= j < |bs| && j != i ==> bs[j] != bs[i]
  {
  }

  lemma SelectUnits(ks: seq<Key>)
    ensures [] + ks + [] == ks
  {
  }

  lemma {:induction false} OtherKids(t: Trie, r: Key, x: Key, bs: seq<byte>, i: nat, j: nat, prefix: Key)
    requires WF(t, r) && x in t && t[x].Inner? && AllEdges(t, x, bs) && i <= j <= |bs|
    requires x < prefix && forall k :: i <= k < j ==> prefix[|x|] != bs[k]
    ensures InTree(t, KidPaths(t, x, bs)[i..j])
    ensures Select(LeavesOf(t, r, KidPaths(t, x, bs)[i..j]), Extensions(prefix)) == []
    decreases j - i
  {
    hide Increasing, Sorted;
    var ks, w := KidPaths(t, x, bs), Extensions(prefix);
    KidsIncreasing(t, r, x, bs);
    if i < j {
      OtherKids(t, r, x, bs, i, j - 1, prefix);
      var y := ks[j - 1];
      assert ks[i..j] == ks[i..j - 1] + [y];
      OtherKid(t, r, x, bs[j - 1], prefix);
      LeavesOne(t, r, y);
      LeavesConcat(t, r, ks[i..j - 1], [y]);
      SelectConcat(LeavesOf(t, r, ks[i..j - 1]), Leaves(t, r, y), w);
    }
  }

  lemma OtherKid(t: Trie, r: Key, x: Key, b: byte, prefix: Key)
    requires WF(t, r) && x in t && t[x].Inner? && b in t[x].kids && x < prefix && prefix[|x|] != b
    ensures t[x].kids[b] in t && Select(Leaves(t, r, t[x].kids[b]), Extensions(prefix)) == []
  {
    assert KidOk(t, x, b);
    var y := t[x].kids[b];
    LeavesBelow(t, r, y);
    SelectNone(Leaves(t, r, y), Extensions(prefix));
  }

  /** Two prefixes of the same key agree as far as both go. */
  lemma PrefixesAgree(x: Key, prefix: Key, z: Key)
    requires x <= z && prefix <= z
    ensures x <= prefix || prefix <= x
  {
    if |x| <= |prefix| {
      assert x == z[..|x|] == prefix[..|x|];
    } else {
      assert prefix == z[..|prefix|] == x[..|prefix|];
    }
  }

  lemma NoneBelow(t: Trie, x: Key, prefix: Key)
    requires !(x <= prefix) && !(prefix <= x)
    ensures forall z :: z in t && t[z].Leaf? && x <= z ==> !(prefix <= z)
  {
    forall z | z in t && t[z].Leaf? && x <= z && prefix <= z ensures false {
      PrefixesAgree(x, prefix, z);
    }
  }

  lemma NoSuchChild(s: Shape, x: Key, bs: seq<byte>, prefix: Key)
    requires s.WF() && x in s.t && s.t[x].Inner? && AllEdges(s.t, x, bs) && x < prefix && prefix[|x|] !in bs
    ensures Expansion(s, x, prefix, [], [])
  {
    forall z | z in s.t && s.t[z].Leaf? && x <= z && prefix <= z ensures false {
      Relate(s.t, s.r, x, z);
      BelowOrApart(s.t, x, z);
    }
    ExpandNone(s, x, prefix);
  }

  /** The children of an inner node, all at the same depth. */
  method ChildrenAt(ghost s: Shape, ghost x: Key, p: NodePtr, d: nat, ghost prefix: Key)
    returns (items: seq<(NodePtr, nat)>, ghost ls: seq<Key>)
    requires StoredAt(s, x, p) && !p.LeafPtr? && prefix <= x && |prefix| <= d <= |x| + 1
    ensures x in s.t && Expansion(s, x, prefix, items, ls)
  {
    hide Shape.Valid, NodePtr.Valid, Expansion, Tries.WF, Lists;
    Stored(s, x, p);
    var bs, cs := p.Iter();
    items := seq(|cs|, i requires 0 <= i < |cs| => (cs[i], d));
    ListedKids(s, x, p, bs, cs);
    ExpandAll(s, x, p, bs, cs, prefix, items, d);
    ls := KidPaths(s.t, x, bs);
  }

  /** The child that the rest of the prefix leads to. */
  method ChildTowards(ghost s: Shape, ghost x: Key, p: NodePtr, prefix: Key, depth: nat)
    returns (items: seq<(NodePtr, nat)>, ghost ls: seq<Key>)
    requires StoredAt(s, x, p) && !p.LeafPtr? && x < prefix && depth == |x|
    ensures x in s.t && Expansion(s, x, prefix, items, ls)
  {
    hide Shape.Valid, NodePtr.Valid, Expansion, Tries.WF, Lists, KidPaths, AllEdges;
    Stored(s, x, p);
    var bs, cs := p.Iter();
    ListedEdges(s, x, p, bs, cs);
    var i := Find(bs, prefix[depth]);
    if i.None? {
      ValidShape(s);
      NoSuchChild(s, x, bs, prefix);
      return [], [];
    }
    ExpandOne(s, x, p, bs, cs, prefix, i.value);
    ls := [KidPaths(s.t, x, bs)[i.value]];
    items := [(cs[i.value], depth + 1)];
  }

  lemma ListedEdges(s: Shape, x: Key, p: NodePtr, bs: seq<byte>, cs: seq<NodePtr>)
    requires StoredAt(s, x, p) && s.t[x].Inner? && Lists(bs, cs, p.Kids())
    ensures AllEdges(s.t, x, bs) && |cs| == |bs|
  {
    ListedKids(s, x, p, bs, cs);
  }

  /** The position of a key byte. */
  method Find(bs: seq<byte>, b: byte) returns (r: Option<nat>)
    ensures r.None? <==> b !in bs
    ensures r.Some? ==> r.value < |bs| && bs[r.value] == b
  {
    var i := 0;
    while i < |bs|
      invariant i <= |bs| && b !in bs[..i]
    {
      if bs[i] == b {
        return Some(i);
      }
      i := i + 1;
    }
    return None;
  }

  /** The part of `add_children` and `add_children_rev` that does not depend on
      the end of the deque at which the children are added. */
  method Children(ghost s: Shape, ghost x: Key, p: NodePtr, prefix: Key, depth: nat)
    returns (items: seq<(NodePtr, nat)>, ghost ls: seq<Key>)
    requires StoredAt(s, x, p) && !p.LeafPtr? && DepthOk(s.t, x, prefix, depth)
    ensures Expansion(s, x, prefix, items, ls)
  {
    hide Shape.Valid, NodePtr.Valid, Expansion, Tries.WF;
    Stored(s, x, p);
    if depth >= |prefix| {
      p.ValidFacts();
      items, ls := ChildrenAt(s, x, p, depth + p.Header().prefixLen + 1, prefix);
      return;
    }
    var full, _, _ := Lookup.ReadFullPrefix(s, x, p, depth);
    var m := IsPrefixOf(full, prefix[depth..]);
    SuffixPrefix(prefix, x, depth);
    SuffixPrefix(x, prefix, depth);
    if m.None? {
      NoneBelow(s.t, x, prefix);
      ValidShape(s);
      ExpandNone(s, x, prefix);
      return [], [];
    }
    var newDepth := depth + m.value;
    if newDepth >= |prefix| {
      items, ls := ChildrenAt(s, x, p, newDepth + 1, prefix);
      return;
    }
    items, ls := ChildTowards(s, x, p, prefix, newDepth);
  }

  /** The deque leads to the keys `left`, and to at most `size` leaves. */
  ghost predicate Finds(shape: Option<Shape>, nodes: seq<(NodePtr, nat)>, ks: seq<Key>, prefix: Key, left: seq<Key>,
                        size: nat)
    reads Footprint(shape)
  {
    match shape
    case None => nodes == [] && left == []
    case Some(s) =>
      && s.Valid() && Items(s, nodes, ks, prefix) && InTree(s.t, ks)
      && left == Select(LeavesOf(s.t, s.r, ks), Extensions(prefix)) && |LeavesOf(s.t, s.r, ks)| <= size
  }

  /** How much there is still to search. */
  ghost function Work(shape: Option<Shape>, ks: seq<Key>): nat {
    if shape.Some? && shape.value.WF() && InTree(shape.value.t, ks) then
      LeavesMany(shape.value.t, shape.value.r, ks);
      2 * |LeavesOf(shape.value.t, shape.value.r, ks)| - |ks|
    else 0
  }

  lemma ItemsReversed(s: Shape, x: Key, prefix: Key, items: seq<(NodePtr, nat)>, ls: seq<Key>)
    requires s.WF() && x in s.t && Expansion(s, x, prefix, items, ls)
    ensures Items(s, Reversed(items), ls, prefix)
  {
    forall i | 0 <= i < |ls| ensures ItemOk(s, ls[i], prefix, Reversed(items)[|ls| - 1 - i]) {
    }
  }

  /** The leaves that are left when the nodes around node `x` stay. */
  lemma FindsAround(s: Shape, ms: seq<Key>, x: Key, rs: seq<Key>, w: iset<Key>)
    requires s.WF() && InTree(s.t, ms + [x] + rs)
    ensures InTree(s.t, ms) && x in s.t && InTree(s.t, rs)
    ensures |LeavesOf(s.t, s.r, ms + [x] + rs)|
      == |LeavesOf(s.t, s.r, ms)| + |Leaves(s.t, s.r, x)| + |LeavesOf(s.t, s.r, rs)|
    ensures Select(LeavesOf(s.t, s.r, ms + [x] + rs), w)
      == Select(LeavesOf(s.t, s.r, ms), w) + Select(Leaves(s.t, s.r, x), w) + Select(LeavesOf(s.t, s.r, rs), w)
  {
    LeavesSplit(s.t, s.r, ms, x, rs);
    SelectConcat(LeavesOf(s.t, s.r, ms), Leaves(s.t, s.r, x), w);
    SelectConcat(LeavesOf(s.t, s.r, ms) + Leaves(s.t, s.r, x), LeavesOf(s.t, s.r, rs), w);
  }

  /** The same for a list of nodes `ls`. */
  lemma FindsAroundAll(s: Shape, ms: seq<Key>, ls: seq<Key>, rs: seq<Key>, w: iset<Key>)
    requires s.WF() && InTree(s.t, ms) && InTree(s.t, ls) && InTree(s.t, rs)
    ensures InTree(s.t, ms + ls + rs)
    ensures |LeavesOf(s.t, s.r, ms + ls + rs)|
      == |LeavesOf(s.t, s.r, ms)| + |LeavesOf(s.t, s.r, ls)| + |LeavesOf(s.t, s.r, rs)|
    ensures Select(LeavesOf(s.t, s.r, ms + ls + rs), w)
      == Select(LeavesOf(s.t, s.r, ms), w) + Select(LeavesOf(s.t, s.r, ls), w) + Select(LeavesOf(s.t, s.r, rs), w)
  {
    LeavesConcat(s.t, s.r, ms, ls);
    LeavesConcat(s.t, s.r, ms + ls, rs);
    SelectConcat(LeavesOf(s.t, s.r, ms), LeavesOf(s.t, s.r, ls), w);
    SelectConcat(LeavesOf(s.t, s.r, ms) + LeavesOf(s.t, s.r, ls), LeavesOf(s.t, s.r, rs), w);
  }

  lemma FindsBack(shape: Option<Shape>, nodes: seq<(NodePtr, nat)>, ks: seq<Key>, prefix: Key, left: seq<Key>,
                  size: nat)
    requires Finds(shape, nodes, ks, prefix, left, size) && nodes != []
    ensures shape.Some? && |ks| == |nodes| && InTree(shape.value.t, ks)
    ensures StoredAt(shape.value, ks[0], nodes[|nodes| - 1].0)
    ensures DepthOk(shape.value.t, ks[0], prefix, nodes[|nodes| - 1].1)
  {
    ItemsBack(shape.value, nodes, ks, prefix);
  }

  lemma FindsFront(shape: Option<Shape>, nodes: seq<(NodePtr, nat)>, ks: seq<Key>, prefix: Key, left: seq<Key>,
                   size: nat)
    requires Finds(shape, nodes, ks, prefix, left, size) && nodes != []
    ensures shape.Some? && |ks| == |nodes| && InTree(shape.value.t, ks)
    ensures StoredAt(shape.value, ks[|ks| - 1], nodes[0].0)
    ensures DepthOk(shape.value.t, ks[|ks| - 1], prefix, nodes[0].1)
  {
    ItemsFront(shape.value, nodes, ks, prefix);
  }

  /** A leaf at the back of the deque is the first wanted key, or not wanted. */
  lemma FindsBackLeaf(s: Shape, nodes: seq<(NodePtr, nat)>, ks: seq<Key>, prefix: Key, left: seq<Key>, size: nat)
    requires Finds(Some(s), nodes, ks, prefix, left, size) && nodes != [] && ks != []
    requires ks[0] in s.t && s.t[ks[0]].Leaf?
    ensures 0 < size
    ensures prefix <= ks[0] ==> left != [] && left[0] == ks[0]
    ensures Finds(Some(s), nodes[..|nodes| - 1], ks[1..], prefix, if prefix <= ks[0] then left[1..] else left, size - 1)
    ensures InTree(s.t, ks[1..]) && Work(Some(s), ks[1..]) < Work(Some(s), ks)
  {
    hide Tries.WF;
    ItemsBack(s, nodes, ks, prefix);
    assert ks == [] + [ks[0]] + ks[1..];
    FindsAround(s, [], ks[0], ks[1..], Extensions(prefix));
  }

  lemma FindsFrontLeaf(s: Shape, nodes: seq<(NodePtr, nat)>, ks: seq<Key>, prefix: Key, left: seq<Key>, size: nat)
    requires Finds(Some(s), nodes, ks, prefix, left, size) && nodes != [] && ks != []
    requires ks[|ks| - 1] in s.t && s.t[ks[|ks| - 1]].Leaf?
    ensures 0 < size
    ensures prefix <= ks[|ks| - 1] ==> left != [] && left[|left| - 1] == ks[|ks| - 1]
    ensures Finds(Some(s), nodes[1..], ks[..|ks| - 1], prefix,
                  if prefix <= ks[|ks| - 1] then left[..|left| - 1] else left, size - 1)
    ensures InTree(s.t, ks[..|ks| - 1]) && Work(Some(s), ks[..|ks| - 1]) < Work(Some(s), ks)
  {
    hide Tries.WF;
    var n := |ks| - 1;
    ItemsFront(s, nodes, ks, prefix);
    assert ks == ks[..n] + [ks[n]] + [];
    FindsAround(s, ks[..n], ks[n], [], Extensions(prefix));
  }

  lemma FindsBackKids(s: Shape, nodes: seq<(NodePtr, nat)>, ks: seq<Key>, prefix: Key, left: seq<Key>, size: nat,
                      items: seq<(NodePtr, nat)>, ls: seq<Key>)
    requires Finds(Some(s), nodes, ks, prefix, left, size) && nodes != [] && ks != [] && ks[0] in s.t
    requires Expansion(s, ks[0], prefix, items, ls)
    ensures Finds(Some(s), nodes[..|nodes| - 1] + Reversed(items), ls + ks[1..], prefix, left, size)
    ensures InTree(s.t, ls + ks[1..]) && Work(Some(s), ls + ks[1..]) < Work(Some(s), ks)
  {
    hide Tries.WF, Items;
    ItemsBack(s, nodes, ks, prefix);
    assert ks == [] + [ks[0]] + ks[1..] && [] + ls + ks[1..] == ls + ks[1..];
    FindsAround(s, [], ks[0], ks[1..], Extensions(prefix));
    FindsAroundAll(s, [], ls, ks[1..], Extensions(prefix));
    ItemsReversed(s, ks[0], prefix, items, ls);
    ItemsConcat(s, nodes[..|nodes| - 1], ks[1..], Reversed(items), ls, prefix);
  }

  lemma FindsFrontKids(s: Shape, nodes: seq<(NodePtr, nat)>, ks: seq<Key>, prefix: Key, left: seq<Key>, size: nat,
                       items: seq<(NodePtr, nat)>, ls: seq<Key>)
    requires Finds(Some(s), nodes, ks, prefix, left, size) && nodes != [] && ks != [] && ks[|ks| - 1] in s.t
    requires Expansion(s, ks[|ks| - 1], prefix, items, ls)
    ensures Finds(Some(s), Reversed(items) + nodes[1..], ks[..|ks| - 1] + ls, prefix, left, size)
    ensures InTree(s.t, ks[..|ks| - 1] + ls) && Work(Some(s), ks[..|ks| - 1] + ls) < Work(Some(s), ks)
  {
    hide Tries.WF, Items;
    var n := |ks| - 1;
    ItemsFront(s, nodes, ks, prefix);
    assert ks == ks[..n] + [ks[n]] + [] && ks[..n] + ls + [] == ks[..n] + ls;
    FindsAround(s, ks[..n], ks[n], [], Extensions(prefix));
    FindsAroundAll(s, ks[..n], ls, [], Extensions(prefix));
    ItemsReversed(s, ks[n], prefix, items, ls);
    ItemsConcat(s, Reversed(items), ls, nodes[1..], ks[..n], prefix);
  }

  /** A new iterator finds all keys that start with the prefix. */
  lemma FindsAll(tree: TreeMap, prefix: Key) returns (ks: seq<Key>, left: seq<Key>)
    requires tree.Valid()
    ensures Finds(tree.shape, if tree.root.Some? then [(tree.root.value, 0)] else [], ks, prefix, left, tree.numEntries)
    ensures ListsWanted(left, tree.Entries(), Extensions(prefix))
  {
    match tree.shape {
      case None => ks, left := [], [];
      case Some(s) =>
        LeadsFromRoot(s, tree.root.value);
        ks, left := [s.r], Select(Leaves(s.t, s.r, s.r), Extensions(prefix));
        SelectLists(Leaves(s.t, s.r, s.r), Contents(s.t), Extensions(prefix));
        assert ItemOk(s, s.r, prefix, (tree.root.value, 0));
    }
  }

  lemma FindsNone(shape: Option<Shape>, ks: seq<Key>, prefix: Key, left: seq<Key>, size: nat)
    requires Finds(shape, [], ks, prefix, left, size)
    ensures left == []
  {
  }

  lemma FindsFew(shape: Option<Shape>, nodes: seq<(NodePtr, nat)>, ks: seq<Key>, prefix: Key, left: seq<Key>, size: nat)
    requires Finds(shape, nodes, ks, prefix, left, size)
    ensures |left| <= size
  {
  }

  /** An iterator over the entries whose key starts with a prefix. */
  class Prefix {
    var nodes: seq<(NodePtr, nat)>
    var size: nat
    const prefix: Key
    /** The tree and the entries of the map that the iterator borrows. */
    ghost const shape: Option<Shape>
    ghost const entries: map<Key, Value>
    /** The paths of the nodes, and all keys that start with the prefix, split into
        those that `Next` has returned, those that are left, and those that
        `NextBack` has returned; all in key order. */
    ghost var ks: seq<Key>
    ghost const all: seq<Key>
    ghost var front: seq<Key>
    ghost var left: seq<Key>
    ghost var back: seq<Key>

    ghost predicate Valid()
      reads this, Footprint(shape)
    {
      && this !in Footprint(shape)
      && (shape.Some? ==> entries == Contents(shape.value.t)) && ListsWanted(all, entries, Extensions(prefix))
      && all == front + left + back && size + |front| + |back| <= |entries|
      && Finds(shape, nodes, ks, prefix, left, size)
    }

    constructor (tree: TreeMap, prefix: Key)
      requires tree.Valid()
      ensures Valid() && this.prefix == prefix && entries == tree.Entries() && shape == tree.shape
        && front == back == []
    {
      nodes := if tree.root.Some? then [(tree.root.value, 0)] else [];
      size := tree.numEntries;
      this.prefix := prefix;
      shape, entries := tree.shape, tree.Entries();
      ghost var paths, keys := FindsAll(tree, prefix);
      ks, left, all := paths, keys, keys;
      front, back := [], [];
    }

    /** `add_children`. */
    method AddChildren(node: NodePtr, depth: nat, ghost s: Shape, ghost x: Key)
      returns (ghost items: seq<(NodePtr, nat)>, ghost ls: seq<Key>)
      requires StoredAt(s, x, node) && !node.LeafPtr? && DepthOk(s.t, x, prefix, depth) && this !in s.repr
      modifies this`nodes
      ensures Expansion(s, x, prefix, items, ls) && nodes == old(nodes) + Reversed(items)
    {
      hide Expansion;
      var added;
      added, ls := Children(s, x, node, prefix, depth);
      items := added;
      nodes := nodes + Reversed(added);
    }

    /** `add_children_rev`. */
    method AddChildrenRev(node: NodePtr, depth: nat, ghost s: Shape, ghost x: Key)
      returns (ghost items: seq<(NodePtr, nat)>, ghost ls: seq<Key>)
      requires StoredAt(s, x, node) && !node.LeafPtr? && DepthOk(s.t, x, prefix, depth) && this !in s.repr
      modifies this`nodes
      ensures Expansion(s, x, prefix, items, ls) && nodes == Reversed(items) + old(nodes)
    {
      hide Expansion;
      var added;
      added, ls := Children(s, x, node, prefix, depth);
      items := added;
      nodes := Reversed(added) + nodes;
    }

    /** `size_hint`: no more matches than this are left; every match that was returned
        has lowered it. */
    method SizeHint() returns (upper: nat)
      requires Valid()
      ensures |left| <= upper <= |entries| - |front| - |back|
    {
      FindsFew(shape, nodes, ks, prefix, left, size);
      upper := size;
    }

    /** The node at the back: an inner node gives way to its children; a leaf is
        returned if its key starts with the prefix. */
    method StepBack() returns (r: Option<(Key, Value)>)
      requires Valid() && nodes != []
      modifies this
      ensures Valid() && back == old(back)
      ensures r.None? ==> left == old(left) && front == old(front) && Work(shape, ks) < old(Work(shape, ks))
      ensures r.Some? ==> old(left) == [r.value.0] + left && front == old(front) + [r.value.0]
      ensures r.Some? ==> EntryAt(entries, r.value.0) == r
    {
      hide Shape.Valid, Shape.WF, Tries.WF, Finds, ListsWanted, NodePtr.Valid, NodePtr.Repr, EntryAt, Reversed,
        Expansion, DepthOk, Work, Contents, Extensions, StartsWith, NodePtr.Kids, Linked;
      FindsBack(shape, nodes, ks, prefix, left, size);
      var (node, depth) := nodes[|nodes| - 1];
      ghost var was, s, x := nodes, shape.value, ks[0];
      AtNode(s, x, node);
      nodes := nodes[..|nodes| - 1];
      r := None;
      if node.LeafPtr? {
        FindsBackLeaf(s, was, ks, prefix, left, size);
        size := size - 1;
        ks := ks[1..];
        var found := HandleLeaf(s.t, prefix, depth, node.leaf);
        if found {
          left, front := left[1..], front + [x];
          r := Some((node.leaf.key, node.leaf.value));
        }
      } else {
        ghost var items, ls := AddChildren(node, depth, s, x);
        FindsBackKids(s, was, ks, prefix, left, size, items, ls);
        ks := ls + ks[1..];
      }
    }

    /** The node at the front, likewise. */
    method StepFront() returns (r: Option<(Key, Value)>)
      requires Valid() && nodes != []
      modifies this
      ensures Valid() && front == old(front)
      ensures r.None? ==> left == old(left) && back == old(back) && Work(shape, ks) < old(Work(shape, ks))
      ensures r.Some? ==> old(left) == left + [r.value.0] && back == [r.value.0] + old(back)
      ensures r.Some? ==> EntryAt(entries, r.value.0) == r
    {
      hide Shape.Valid, Shape.WF, Tries.WF, Finds, ListsWanted, NodePtr.Valid, NodePtr.Repr, EntryAt, Reversed,
        Expansion, DepthOk, Work, Contents, Extensions, StartsWith, NodePtr.Kids, Linked;
      FindsFront(shape, nodes, ks, prefix, left, size);
      var (node, depth) := nodes[0];
      ghost var was, s, last := nodes, shape.value, |ks| - 1;
      ghost var x := ks[last];
      AtNode(s, x, node);
      nodes := nodes[1..];
      r := None;
      if node.LeafPtr? {
        FindsFrontLeaf(s, was, ks, prefix, left, size);
        size := size - 1;
        ks := ks[..last];
        var found := HandleLeaf(s.t, prefix, depth, node.leaf);
        if found {
          left, back := left[..|left| - 1], [x] + back;
          r := Some((node.leaf.key, node.leaf.value));
        }
      } else {
        ghost var items, ls := AddChildrenRev(node, depth, s, x);
        FindsFrontKids(s, was, ks, prefix, left, size, items, ls);
        ks := ks[..last] + ls;
      }
    }

    /** `next`: the first matching key that is left, with its value. */
    method Next() returns (r: Option<(Key, Value)>)
      requires Valid()
      modifies this
      ensures Valid() && back == old(back)
      ensures r.None? ==> old(left) == [] && left == [] && front == old(front)
      ensures r.Some? ==> old(left) == [r.value.0] + left && front == old(front) + [r.value.0]
      ensures r.Some? ==> EntryAt(entries, r.value.0) == r
    {
      hide Finds, ListsWanted, EntryAt, Work;
      while nodes != []
        invariant Valid() && front == old(front) && left == old(left) && back == old(back)
        decreases Work(shape, ks)
      {
        r := StepBack();
        if r.Some? {
          return;
        }
      }
      FindsNone(shape, ks, prefix, left, size);
      return None;
    }

    /** `next_back`: the last matching key that is left, with its value. */
    method NextBack() returns (r: Option<(Key, Value)>)
      requires Valid()
      modifies this
      ensures Valid() && front == old(front)
      ensures r.None? ==> old(left) == [] && left == [] && back == old(back)
      ensures r.Some? ==> old(left) == left + [r.value.0] && back == [r.value.0] + old(back)
      ensures r.Some? ==> EntryAt(entries, r.value.0) == r
    {
      hide Finds, ListsWanted, EntryAt, Work;
      while nodes != []
        invariant Valid() && front == old(front) && left == old(left) && back == old(back)
        decreases Work(shape, ks)
      {
        r := StepFront();
        if r.Some? {
          return;
        }
      }
      FindsNone(shape, ks, prefix, left, size);
      return None;
    }
  }
}
