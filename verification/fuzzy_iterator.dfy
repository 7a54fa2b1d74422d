/** The iterator over all entries whose key is near a given key. */
module FuzzyIterators {
  import opened Bytes
  import opened Layouts
  import opened Tries
  import opened Nodes
  import opened Shapes
  import opened Frontiers
  import opened Maps
  import opened Listings
  import opened Selections
  import opened TreeIterators
  import opened PrefixIterators
  import opened Levenshtein
  import opened EditRows
  import Heaps
  import Lookup

  predicate IsNear(k: Key, q: Key, max: nat) {
    Distance(q, k) <= max
  }

  /** The keys within a distance of the query. */
  ghost function Near(q: Key, max: nat): iset<Key> {
    iset k: Key | IsNear(k, q, max)
  }

  /** A node on the search stack, with the row of the matrix for the bytes that
      lead to it. */
  ghost predicate RowAt(s: Shape, x: Key, node: NodePtr, row: seq<nat>, q: Key) {
    x in s.t && x in s.at && s.at[x] == node && s.t[x].start <= |x| && row == Row(q, x[..s.t[x].start])
  }

  /** The stack of nodes and the stack of rows are in lockstep. */
  ghost predicate Stack(s: Shape, nodes: seq<NodePtr>, ks: seq<Key>, rows: seq<seq<nat>>, q: Key) {
    && |nodes| == |ks| == |rows|
    && forall i {:trigger ks[i]} | 0 <= i < |ks| :: RowAt(s, ks[i], nodes[i], rows[i], q)
  }

  lemma StackConcat(s: Shape, nodes: seq<NodePtr>, ks: seq<Key>, rows: seq<seq<nat>>,
                    ms: seq<NodePtr>, ls: seq<Key>, rs: seq<seq<nat>>, q: Key)
    requires Stack(s, nodes, ks, rows, q) && Stack(s, ms, ls, rs, q)
    ensures Stack(s, nodes + ms, ks + ls, rows + rs, q)
  {
    forall i | 0 <= i < |ks + ls| ensures RowAt(s, (ks + ls)[i], (nodes + ms)[i], (rows + rs)[i], q) {
      if i < |ks| {
        assert (ks + ls)[i] == ks[i];
      } else {
        assert (ks + ls)[i] == ls[i - |ks|];
      }
    }
  }

  lemma StackTop(s: Shape, nodes: seq<NodePtr>, ks: seq<Key>, rows: seq<seq<nat>>, q: Key)
    requires Stack(s, nodes, ks, rows, q) && nodes != []
    ensures var n := |ks| - 1;
      && RowAt(s, ks[n], nodes[n], rows[n], q)
      && Stack(s, nodes[..n], ks[..n], rows[..n], q)
  {
    var n := |ks| - 1;
    forall i | 0 <= i < n ensures RowAt(s, ks[..n][i], nodes[..n][i], rows[..n][i], q) {
      assert ks[..n][i] == ks[i];
    }
  }

  lemma RowLength(q: Key, k: Key)
    ensures Row(q, k)[0] == |k| && Row(q, k)[|q|] == Distance(q, k)
  {
    assert q[..|q|] == q;
  }

  lemma RowWithin(q: Key, k: Key, c: byte, max: nat)
    ensures Within(Row(q, k + [c]), max) ==> Within(Row(q, k), max)
  {
    if Within(Row(q, k + [c]), max) {
      RowNext(q, k, c, max);
    }
  }

  /** Takes a row past more bytes, from depth `start` of `z` on, and tells whether all
      rows on the way have an entry within the bound. */
  method SearchBytes(key: Key, bytes: seq<byte>, oldRow: array<nat>, newRow: array<nat>, max: nat, ghost z: Key,
                     ghost start: nat)
    returns (row: array<nat>, spare: array<nat>, keep: bool)
    requires start <= |z| && bytes == z[start..]
    requires oldRow != newRow && oldRow.Length == newRow.Length == |key| + 1 && oldRow[..] == Row(key, z[..start])
    modifies oldRow, newRow
    ensures (row == oldRow && spare == newRow) || (row == newRow && spare == oldRow)
    ensures row[..] == Row(key, z) && (keep <==> start == |z| || Within(Row(key, z), max))
  {
    hide Row, Within;
    RowLength(key, z[..start]);
    row, spare, keep := oldRow, newRow, true;
    var i := 0;
    while i < |bytes|
      invariant i <= |bytes| && ((row == oldRow && spare == newRow) || (row == newRow && spare == oldRow))
      invariant row[..] == Row(key, z[..start + i])
      invariant keep <==> i == 0 || Within(Row(key, z[..start + i]), max)
    {
      var near := EditDist(key, bytes[i], row, spare, 0, max, z[..start + i]);
      assert z[..start + i] + [bytes[i]] == z[..start + i + 1];
      RowWithin(key, z[..start + i], bytes[i], max);
      assert spare[0..|key| + 1] == spare[..];
      keep := keep && near;
      row, spare := spare, row;
      i := i + 1;
    }
    assert z[..|z|] == z;
  }

  /** `fuzzy_search_prefix`: takes the row past the prefix of a node, and tells
      whether the node is worth searching. */
  method SearchPrefix(ghost s: Shape, ghost x: Key, p: NodePtr, key: Key, oldRow: array<nat>, newRow: array<nat>,
                      max: nat)
    returns (row: array<nat>, spare: array<nat>, keep: bool)
    requires StoredAt(s, x, p) && !p.LeafPtr? && s.t[x].start <= |x|
    requires oldRow != newRow && oldRow.Length == newRow.Length == |key| + 1
    requires oldRow !in s.repr && newRow !in s.repr
    requires oldRow[..] == Row(key, x[..s.t[x].start])
    modifies oldRow, newRow
    ensures (row == oldRow && spare == newRow) || (row == newRow && spare == oldRow)
    ensures row[..] == Row(key, x)
    ensures keep <==> s.t[x].start == |x| || Within(Row(key, x), max)
  {
    hide Shape.Valid, NodePtr.Valid, Row, Within, Tries.WF, Shape.WF, NodePtr.Repr;
    RowLength(key, x[..s.t[x].start]);
    var prefix, _, _ := Lookup.ReadFullPrefix(s, x, p, oldRow[0]);
    row, spare, keep := SearchBytes(key, prefix, oldRow, newRow, max, x, s.t[x].start);
  }

  /** The search at a leaf: whether its key is near the query. */
  method SearchLeaf(leaf: LeafNode, key: Key, oldRow: array<nat>, newRow: array<nat>, max: nat, ghost start: nat)
    returns (near: bool)
    requires oldRow != newRow && oldRow.Length == newRow.Length == |key| + 1
    requires start <= |leaf.key| && oldRow[..] == Row(key, leaf.key[..start])
    modifies oldRow, newRow
    ensures near <==> Distance(key, leaf.key) <= max
  {
    hide Row, Within, Distance;
    RowLength(key, leaf.key[..start]);
    var remaining := leaf.key[oldRow[0]..];
    var row, spare := oldRow, newRow;
    var i := 0;
    ghost var z := leaf.key;
    while i < |remaining|
      invariant i <= |remaining| && ((row == oldRow && spare == newRow) || (row == newRow && spare == oldRow))
      invariant row[..] == Row(key, z[..start + i])
    {
      var _ := EditDist(key, remaining[i], row, spare, 0, max, z[..start + i]);
      assert z[..start + i] + [remaining[i]] == z[..start + i + 1];
      assert spare[0..|key| + 1] == spare[..];
      row, spare := spare, row;
      i := i + 1;
    }
    assert z[..|z|] == z;
    RowLength(key, z);
    near := row[|key|] <= max;
  }

  /** Of the first `i` children of node `x`, those that are worth searching have
      been put on the stack. */
  ghost predicate KeptKids(s: Shape, x: Key, q: Key, max: nat, bs: seq<byte>, i: nat,
                           nodes: seq<NodePtr>, ls: seq<Key>, rows: seq<seq<nat>>)
    requires s.WF() && x in s.t && s.t[x].Inner? && AllEdges(s.t, x, bs)
  {
    var ks := KidPaths(s.t, x, bs);
    && |ls| <= i <= |ks| && InTree(s.t, ks) && InTree(s.t, ks[..i]) && InTree(s.t, ls)
    && Stack(s, nodes, ls, rows, q)
    && Select(LeavesOf(s.t, s.r, ls), Near(q, max)) == Select(LeavesOf(s.t, s.r, ks[..i]), Near(q, max))
    && |LeavesOf(s.t, s.r, ls)| + (i - |ls|) <= |LeavesOf(s.t, s.r, ks[..i])|
  }

  lemma KeptNone(s: Shape, x: Key, q: Key, max: nat, bs: seq<byte>)
    requires s.WF() && x in s.t && s.t[x].Inner? && AllEdges(s.t, x, bs)
    ensures KeptKids(s, x, q, max, bs, 0, [], [], [])
  {
    KidsIncreasing(s.t, s.r, x, bs);
  }

  lemma KidStart(s: Shape, x: Key, b: byte)
    requires s.WF() && x in s.t && s.t[x].Inner? && b in s.t[x].kids
    ensures var y := s.t[x].kids[b]; y in s.t && s.t[y].start <= |y| && y[..s.t[y].start] == x + [b]
  {
    assert KidOk(s.t, x, b);
  }

  /** A child whose row has an entry within the bound is put on the stack. */
  lemma KeepKid(s: Shape, x: Key, q: Key, max: nat, bs: seq<byte>, i: nat,
                nodes: seq<NodePtr>, ls: seq<Key>, rows: seq<seq<nat>>, c: NodePtr, row: seq<nat>)
    returns (y: Key)
    requires s.WF() && x in s.t && s.t[x].Inner? && AllEdges(s.t, x, bs) && i < |bs|
    requires KeptKids(s, x, q, max, bs, i, nodes, ls, rows)
    requires KidPaths(s.t, x, bs)[i] in s.at && c == s.at[KidPaths(s.t, x, bs)[i]] && row == Row(q, x + [bs[i]])
    ensures KeptKids(s, x, q, max, bs, i + 1, nodes + [c], ls + [y], rows + [row])
  {
    hide Tries.WF, Row, Shape.WF, Sorted;
    ShapeKeys(s);
    var ks := KidPaths(s.t, x, bs);
    y := ks[i];
    KidStart(s, x, bs[i]);
    LeavesNext(s.t, s.r, ks, i);
    InTreeConcat(s.t, ls, [y]);
    LeavesOne(s.t, s.r, y);
    LeavesConcat(s.t, s.r, ls, [y]);
    SelectConcat(LeavesOf(s.t, s.r, ls), Leaves(s.t, s.r, y), Near(q, max));
    SelectConcat(LeavesOf(s.t, s.r, ks[..i]), Leaves(s.t, s.r, y), Near(q, max));
    StackConcat(s, nodes, ls, rows, [c], [y], [row], q);
  }

  /** A child whose row has no entry within the bound is skipped. */
  lemma SkipKid(s: Shape, x: Key, q: Key, max: nat, bs: seq<byte>, i: nat,
                nodes: seq<NodePtr>, ls: seq<Key>, rows: seq<seq<nat>>)
    requires s.WF() && x in s.t && s.t[x].Inner? && AllEdges(s.t, x, bs) && i < |bs|
    requires KeptKids(s, x, q, max, bs, i, nodes, ls, rows)
    requires !Within(Row(q, x + [bs[i]]), max)
    ensures KeptKids(s, x, q, max, bs, i + 1, nodes, ls, rows)
  {
    hide Tries.WF, Row, Within, Shape.WF, Sorted;
    ShapeKeys(s);
    var ks := KidPaths(s.t, x, bs);
    var y := ks[i];
    KidStart(s, x, bs[i]);
    LeavesNext(s.t, s.r, ks, i);
    NothingNear(s.t, s.r, y, x + [bs[i]], q, max);
    SelectConcat(LeavesOf(s.t, s.r, ks[..i]), Leaves(s.t, s.r, y), Near(q, max));
  }

  lemma NothingNear(t: Trie, r: Key, y: Key, k: Key, q: Key, max: nat)
    requires WF(t, r) && y in t && k <= y && !Within(Row(q, k), max)
    ensures Select(Leaves(t, r, y), Near(q, max)) == []
  {
    var zs := Leaves(t, r, y);
    LeavesBelow(t, r, y);
    forall z | z in zs ensures z !in Near(q, max) {
      var i :| 0 <= i < |zs| && zs[i] == z;
      if IsNear(z, q, max) {
        PruneSound(q, k, z, max);
      }
    }
    SelectNone(zs, Near(q, max));
  }

  /** The nodes that an inner node gives way to: the near keys below them are those
      below the inner node, and there is less to search. */
  ghost predicate Reduction(s: Shape, x: Key, q: Key, max: nat, nodes: seq<NodePtr>, ls: seq<Key>, rows: seq<seq<nat>>)
    requires s.WF() && x in s.t
  {
    && InTree(s.t, ls) && Stack(s, nodes, ls, rows, q)
    && Select(LeavesOf(s.t, s.r, ls), Near(q, max)) == Select(Leaves(s.t, s.r, x), Near(q, max))
    && |LeavesOf(s.t, s.r, ls)| <= |Leaves(s.t, s.r, x)|
    && 2 * |LeavesOf(s.t, s.r, ls)| - |ls| < 2 * |Leaves(s.t, s.r, x)| - 1
  }

  lemma ReductionAll(s: Shape, x: Key, q: Key, max: nat, bs: seq<byte>, nodes: seq<NodePtr>, ls: seq<Key>,
                     rows: seq<seq<nat>>)
    requires s.WF() && x in s.t && s.t[x].Inner? && AllEdges(s.t, x, bs) && 2 <= |bs|
    requires KeptKids(s, x, q, max, bs, |bs|, nodes, ls, rows)
    ensures Reduction(s, x, q, max, nodes, ls, rows)
  {
    LeavesKids(s.t, s.r, x, bs);
    assert KidPaths(s.t, x, bs)[..|bs|] == KidPaths(s.t, x, bs);
  }

  lemma ReductionNone(s: Shape, x: Key, q: Key, max: nat)
    requires s.WF() && x in s.t && !Within(Row(q, x), max)
    ensures Reduction(s, x, q, max, [], [], [])
  {
    NothingNear(s.t, s.r, x, x, q, max);
    LeavesOne(s.t, s.r, x);
    LeavesMany(s.t, s.r, [x]);
  }

  /** Puts the row for one more key byte on the stack, if it has an entry within the
      bound. */
  method PushRow(arena: StackArena, key: Key, c: byte, row: array<nat>, max: nat, ghost k: Key) returns (near: bool)
    requires arena.Valid() && arena.n == |key| + 1 && row != arena.data && row[..] == Row(key, k)
    modifies arena, arena.data
    ensures arena.Valid() && (arena.data == old(arena.data) || fresh(arena.data))
    ensures near <==> Within(Row(key, k + [c]), max)
    ensures arena.rows == old(arena.rows) + if near then [Row(key, k + [c])] else []
  {
    hide Row, Within, Stacked;
    var begin := arena.Push();
    near := EditDist(key, c, row, arena.data, begin, max, k);
    if near {
      arena.Filled(Row(key, k + [c]));
    } else {
      arena.Pop();
    }
  }

  /** `cs` lists the children of node `x` at its edges `bs`. */
  ghost predicate KidsAt(s: Shape, x: Key, bs: seq<byte>, cs: seq<NodePtr>) {
    && s.WF() && x in s.t && s.t[x].Inner? && AllEdges(s.t, x, bs) && 2 <= |bs| == |cs|
    && forall i :: 0 <= i < |bs| ==> KidPaths(s.t, x, bs)[i] in s.at && cs[i] == s.at[KidPaths(s.t, x, bs)[i]]
  }

  lemma KidsListed(s: Shape, x: Key, p: NodePtr, bs: seq<byte>, cs: seq<NodePtr>)
    requires StoredAt(s, x, p) && s.t[x].Inner? && Lists(bs, cs, p.Kids())
    ensures KidsAt(s, x, bs, cs)
  {
    ListedKids(s, x, p, bs, cs);
    TwoKids(s, x, p, bs, cs);
  }

  /** The first `i` children have been looked at. */
  ghost predicate Kept(s: Shape, x: Key, q: Key, max: nat, bs: seq<byte>, cs: seq<NodePtr>, i: nat,
                       nodes: seq<NodePtr>, ls: seq<Key>, rows: seq<seq<nat>>)
  {
    KidsAt(s, x, bs, cs) && KeptKids(s, x, q, max, bs, i, nodes, ls, rows)
  }

  lemma KeptStep(s: Shape, x: Key, q: Key, max: nat, bs: seq<byte>, cs: seq<NodePtr>, i: nat,
                 nodes: seq<NodePtr>, ls: seq<Key>, rows: seq<seq<nat>>, near: bool)
    returns (ms: seq<Key>)
    requires Kept(s, x, q, max, bs, cs, i, nodes, ls, rows) && i < |bs| == |cs|
    requires near <==> Within(Row(q, x + [bs[i]]), max)
    ensures if near then Kept(s, x, q, max, bs, cs, i + 1, nodes + [cs[i]], ms, rows + [Row(q, x + [bs[i]])])
            else Kept(s, x, q, max, bs, cs, i + 1, nodes, ms, rows)
  {
    hide Tries.WF, Row, Within, KeptKids;
    if near {
      var y := KeepKid(s, x, q, max, bs, i, nodes, ls, rows, cs[i], Row(q, x + [bs[i]]));
      ms := ls + [y];
    } else {
      SkipKid(s, x, q, max, bs, i, nodes, ls, rows);
      ms := ls;
    }
  }

  /** Puts the children of a node that are worth searching on the stack, each with
      its row. */
  method PushKids(arena: StackArena, ghost s: Shape, ghost x: Key, bs: seq<byte>, cs: seq<NodePtr>,
                  key: Key, row: array<nat>, stack: seq<NodePtr>, max: nat)
    returns (nodes: seq<NodePtr>, ghost added: seq<NodePtr>, ghost ls: seq<Key>, ghost rows: seq<seq<nat>>)
    requires KidsAt(s, x, bs, cs) && |bs| == |cs| && row[..] == Row(key, x)
    requires arena.Valid() && arena.n == |key| + 1 && row != arena.data
    modifies arena, arena.data
    ensures arena.Valid() && (arena.data == old(arena.data) || fresh(arena.data))
    ensures nodes == stack + added && arena.rows == old(arena.rows) + rows
    ensures s.WF() && x in s.t && Reduction(s, x, key, max, added, ls, rows)
  {
    hide Row, Within, Reduction, KidsAt, Kept, StackArena.Valid;
    nodes, added, ls, rows := stack, [], [], [];
    assert Kept(s, x, key, max, bs, cs, 0, added, ls, rows) by { KeptFirst(s, x, key, max, bs, cs); }
    var i := 0;
    while i < |bs|
      invariant i <= |bs| && arena.Valid() && (arena.data == old(arena.data) || fresh(arena.data))
      invariant nodes == stack + added && arena.rows == old(arena.rows) + rows
      invariant Kept(s, x, key, max, bs, cs, i, added, ls, rows)
    {
      var near := PushRow(arena, key, bs[i], row, max, x);
      ls := KeptStep(s, x, key, max, bs, cs, i, added, ls, rows, near);
      if near {
        nodes, added, rows := nodes + [cs[i]], added + [cs[i]], rows + [Row(key, x + [bs[i]])];
      }
      i := i + 1;
    }
    KeptLast(s, x, key, max, bs, cs, added, ls, rows);
  }

  lemma KeptFirst(s: Shape, x: Key, q: Key, max: nat, bs: seq<byte>, cs: seq<NodePtr>)
    requires KidsAt(s, x, bs, cs)
    ensures Kept(s, x, q, max, bs, cs, 0, [], [], [])
  {
    KeptNone(s, x, q, max, bs);
  }

  lemma KeptLast(s: Shape, x: Key, q: Key, max: nat, bs: seq<byte>, cs: seq<NodePtr>,
                 nodes: seq<NodePtr>, ls: seq<Key>, rows: seq<seq<nat>>)
    requires Kept(s, x, q, max, bs, cs, |bs|, nodes, ls, rows)
    ensures s.WF() && x in s.t && Reduction(s, x, q, max, nodes, ls, rows)
  {
    ReductionAll(s, x, q, max, bs, nodes, ls, rows);
  }

  /** `fuzzy_search` of an inner node. */
  method SearchInner(arena: StackArena, ghost s: Shape, ghost x: Key, p: NodePtr, key: Key,
                     oldRow: array<nat>, newRow: array<nat>, stack: seq<NodePtr>, max: nat)
    returns (nodes: seq<NodePtr>, ghost added: seq<NodePtr>, ghost ls: seq<Key>, ghost rows: seq<seq<nat>>)
    requires StoredAt(s, x, p) && !p.LeafPtr? && s.t[x].start <= |x|
    requires oldRow != newRow && oldRow.Length == newRow.Length == |key| + 1
    requires oldRow !in s.repr && newRow !in s.repr && oldRow[..] == Row(key, x[..s.t[x].start])
    requires arena.Valid() && arena.n == |key| + 1 && arena.data != oldRow && arena.data != newRow
    requires arena !in s.repr && arena.data !in s.repr
    modifies arena, arena.data, oldRow, newRow
    ensures arena.Valid() && (arena.data == old(arena.data) || fresh(arena.data))
    ensures nodes == stack + added && arena.rows == old(arena.rows) + rows
    ensures x in s.t && Reduction(s, x, key, max, added, ls, rows)
  {
    hide Shape.Valid, Shape.WF, NodePtr.Valid, Row, Within, Tries.WF, Reduction, StackArena.Valid, NodePtr.Repr,
      Lists, KidsAt;
    ValidShape(s);
    var row, spare, keep := SearchPrefix(s, x, p, key, oldRow, newRow, max);
    if !keep {
      ReductionNone(s, x, key, max);
      return stack, [], [], [];
    }
    Stored(s, x, p);
    var bs, cs := p.Iter();
    KidsListed(s, x, p, bs, cs);
    nodes, added, ls, rows := PushKids(arena, s, x, bs, cs, key, row, stack, max);
  }

  /** The two stacks lead to the keys `left`, and to at most `size` leaves. */
  ghost predicate Seeks(shape: Option<Shape>, nodes: seq<NodePtr>, ks: seq<Key>, rows: seq<seq<nat>>,
                        q: Key, max: nat, left: seq<Key>, size: nat)
    reads Footprint(shape)
  {
    match shape
    case None => nodes == [] && left == []
    case Some(s) =>
      && s.Valid() && Stack(s, nodes, ks, rows, q) && InTree(s.t, ks)
      && left == Select(LeavesOf(s.t, s.r, ks), Near(q, max)) && |LeavesOf(s.t, s.r, ks)| <= size
  }

  lemma SeeksTop(shape: Option<Shape>, nodes: seq<NodePtr>, ks: seq<Key>, rows: seq<seq<nat>>,
                 q: Key, max: nat, left: seq<Key>, size: nat)
    requires Seeks(shape, nodes, ks, rows, q, max, left, size) && nodes != []
    ensures shape.Some? && |ks| == |nodes| == |rows|
    ensures var x := ks[|ks| - 1];
      && StoredAt(shape.value, x, nodes[|nodes| - 1]) && shape.value.t[x].start <= |x|
      && rows[|rows| - 1] == Row(q, x[..shape.value.t[x].start])
  {
    StackTop(shape.value, nodes, ks, rows, q);
  }

  /** A leaf on top of the stack is the last near key that is left, or not near. */
  lemma SeeksLeaf(s: Shape, nodes: seq<NodePtr>, ks: seq<Key>, rows: seq<seq<nat>>, n: nat,
                  q: Key, max: nat, left: seq<Key>, size: nat)
    requires Seeks(Some(s), nodes, ks, rows, q, max, left, size) && |nodes| == |ks| == |rows| == n + 1
    requires ks[n] in s.t && s.t[ks[n]].Leaf?
    ensures 0 < size
    ensures Distance(q, ks[n]) <= max ==> left != [] && left[|left| - 1] == ks[n]
    ensures Seeks(Some(s), nodes[..n], ks[..n], rows[..n], q, max,
                  if Distance(q, ks[n]) <= max then left[..|left| - 1] else left, size - 1)
    ensures Work(Some(s), ks[..n]) < Work(Some(s), ks)
  {
    hide Tries.WF, Distance, Row;
    StackTop(s, nodes, ks, rows, q);
    assert ks == ks[..n] + [ks[n]] + [];
    FindsAround(s, ks[..n], ks[n], [], Near(q, max));
  }

  lemma SeeksInner(s: Shape, nodes: seq<NodePtr>, ks: seq<Key>, rows: seq<seq<nat>>, n: nat,
                   q: Key, max: nat, left: seq<Key>, size: nat,
                   ms: seq<NodePtr>, ls: seq<Key>, rs: seq<seq<nat>>)
    requires Seeks(Some(s), nodes, ks, rows, q, max, left, size) && |nodes| == |ks| == |rows| == n + 1
    requires ks[n] in s.t && Reduction(s, ks[n], q, max, ms, ls, rs)
    ensures Seeks(Some(s), nodes[..n] + ms, ks[..n] + ls, rows[..n] + rs, q, max, left, size)
    ensures Work(Some(s), ks[..n] + ls) < Work(Some(s), ks)
  {
    hide Tries.WF, Stack;
    StackTop(s, nodes, ks, rows, q);
    assert ks == ks[..n] + [ks[n]] + [] && ks[..n] + ls + [] == ks[..n] + ls;
    FindsAround(s, ks[..n], ks[n], [], Near(q, max));
    FindsAroundAll(s, ks[..n], ls, [], Near(q, max));
    StackConcat(s, nodes[..n], ks[..n], rows[..n], ms, ls, rs, q);
  }

  lemma SeeksNone(shape: Option<Shape>, ks: seq<Key>, rows: seq<seq<nat>>, q: Key, max: nat, left: seq<Key>, size: nat)
    requires Seeks(shape, [], ks, rows, q, max, left, size)
    ensures left == [] && (shape.Some? ==> rows == [])
  {
  }

  lemma SeeksStill(shape: Option<Shape>, ks: seq<Key>, rows: seq<seq<nat>>, rs: seq<seq<nat>>, q: Key, max: nat,
                   left: seq<Key>, size: nat)
    requires Seeks(shape, [], ks, rows, q, max, left, size) && (shape.Some? ==> rows == rs)
    ensures Seeks(shape, [], ks, rs, q, max, left, size)
  {
  }

  lemma SeeksFew(shape: Option<Shape>, nodes: seq<NodePtr>, ks: seq<Key>, rows: seq<seq<nat>>,
                 q: Key, max: nat, left: seq<Key>, size: nat)
    requires Seeks(shape, nodes, ks, rows, q, max, left, size)
    ensures |left| <= size
  {
  }

  /** The search starts at the root, with the row for no key bytes at all. */
  lemma SeeksAll(tree: TreeMap, q: Key, max: nat) returns (ks: seq<Key>, left: seq<Key>)
    requires tree.Valid()
    ensures Seeks(tree.shape, if tree.root.Some? then [tree.root.value] else [], ks, [Row(q, [])],
                  q, max, left, tree.numEntries)
    ensures ListsWanted(left, tree.Entries(), Near(q, max))
  {
    match tree.shape {
      case None => ks, left := [], [];
      case Some(s) =>
        LeadsFromRoot(s, tree.root.value);
        ks, left := [s.r], Select(Leaves(s.t, s.r, s.r), Near(q, max));
        SelectLists(Leaves(s.t, s.r, s.r), Contents(s.t), Near(q, max));
        assert RowAt(s, s.r, tree.root.value, Row(q, []), q);
    }
  }

  /** The wanted keys are those within the distance. */
  lemma WantedNear(ks: seq<Key>, m: map<Key, Value>, q: Key, max: nat)
    requires ListsWanted(ks, m, Near(q, max))
    ensures forall k :: k in ks <==> k in m && Distance(q, k) <= max
  {
  }

  /** An iterator over the entries whose key is near a query. */
  class Fuzzy {
    var nodesToSearch: seq<NodePtr>
    const oldRow: array<nat>
    const newRow: array<nat>
    const arena: StackArena
    const maxEditDist: nat
    const key: Key
    var size: nat
    /** The tree and the entries of the map that the iterator borrows. */
    ghost const shape: Option<Shape>
    ghost const entries: map<Key, Value>
    /** The paths of the nodes, and all near keys, split into those that are left
        and those that have been returned; all in key order. */
    ghost var ks: seq<Key>
    ghost const all: seq<Key>
    ghost var left: seq<Key>
    ghost var back: seq<Key>

    ghost predicate Buffers()
      reads this, arena
    {
      && oldRow.Length == newRow.Length == arena.n == |key| + 1
      && oldRow != newRow && arena.data != oldRow && arena.data != newRow
      && {this, oldRow, newRow, arena, arena.data} !! Footprint(shape)
    }

    ghost predicate Valid()
      reads this, oldRow, newRow, arena, arena.data, Footprint(shape)
    {
      && Buffers() && arena.Valid()
      && (shape.Some? ==> entries == Contents(shape.value.t)) && ListsWanted(all, entries, Near(key, maxEditDist))
      && all == left + back && size + |back| <= |entries|
      && Seeks(shape, nodesToSearch, ks, arena.rows, key, maxEditDist, left, size)
    }

    constructor (tree: TreeMap, key: Key, maxEditDist: nat)
      requires tree.Valid()
      ensures Valid() && this.key == key && this.maxEditDist == maxEditDist
      ensures entries == tree.Entries() && shape == tree.shape && back == []
      ensures forall k :: k in left <==> k in entries && Distance(key, k) <= maxEditDist
      ensures fresh(oldRow) && fresh(newRow) && fresh(arena) && fresh(arena.data)
    {
      hide Shape.Valid, Shape.WF, Tries.WF, Seeks, ListsWanted, StackArena.Valid, Row, Contents, NodePtr.Repr,
        Heaps.Places, Distance, Near;
      ghost var paths, keys := SeeksAll(tree, key, maxEditDist);
      var first := FirstRow(key);
      arena := first;
      nodesToSearch := if tree.root.Some? then [tree.root.value] else [];
      oldRow, newRow := new nat[|key| + 1], new nat[|key| + 1];
      this.key, this.maxEditDist, size := key, maxEditDist, tree.numEntries;
      shape, entries := tree.shape, tree.Entries();
      ks, left, all, back := paths, keys, keys, [];
      WantedNear(keys, tree.Entries(), key, maxEditDist);
      new;
      assert Buffers();
      assert arena.Valid();
      assert Seeks(shape, nodesToSearch, ks, arena.rows, key, maxEditDist, left, size);
    }

    /** `size_hint`: no more matches than this are left; every match that was returned
        has lowered it. */
    method SizeHint() returns (upper: nat)
      requires Valid()
      ensures |left| <= upper <= |entries| - |back|
    {
      SeeksFew(shape, nodesToSearch, ks, arena.rows, key, maxEditDist, left, size);
      upper := size;
    }

    /** A leaf that has been taken off the stack, with its row: it is returned if it is
        near. */
    method TakeLeaf(leaf: LeafNode, ghost s: Shape, ghost was: seq<NodePtr>, ghost rows: seq<seq<nat>>)
      returns (r: Option<(Key, Value)>)
      requires Buffers() && arena.Valid() && shape == Some(s) && entries == Contents(s.t)
      requires ListsWanted(all, entries, Near(key, maxEditDist)) && all == left + back && size + |back| <= |entries|
      requires Seeks(shape, was, ks, rows, key, maxEditDist, left, size) && |was| == |ks| == |rows| && was != []
      requires var n := |was| - 1;
        && nodesToSearch == was[..n] && arena.rows == rows[..n] && oldRow[..] == rows[n]
        && StoredAt(s, ks[n], LeafPtr(leaf)) && s.t[ks[n]].start <= |ks[n]|
        && oldRow[..] == Row(key, ks[n][..s.t[ks[n]].start])
      modifies this, oldRow, newRow
      ensures Valid()
      ensures r.None? ==> left == old(left) && back == old(back) && Work(shape, ks) < old(Work(shape, ks))
      ensures r.Some? ==> old(left) == left + [r.value.0] && back == [r.value.0] + old(back)
      ensures r.Some? ==> EntryAt(entries, r.value.0) == r
    {
      hide Shape.Valid, Shape.WF, Tries.WF, Seeks, ListsWanted, NodePtr.Repr, EntryAt, Work, StackArena.Valid, Row,
        Distance, IsNear, Near, Contents;
      ghost var n, x := |was| - 1, ks[|was| - 1];
      AtNode(s, x, LeafPtr(leaf));
      SeeksLeaf(s, was, ks, rows, n, key, maxEditDist, left, size);
      size := size - 1;
      ks := ks[..n];
      var near := SearchLeaf(leaf, key, oldRow, newRow, maxEditDist, s.t[x].start);
      r := None;
      if near {
        left, back := left[..|left| - 1], [x] + back;
        r := Some((leaf.key, leaf.value));
      }
    }

    /** The node on top of the stack: an inner node gives way to its children; a
        leaf is returned if it is near. */
    method Step() returns (r: Option<(Key, Value)>)
      requires Valid() && nodesToSearch != []
      modifies this, oldRow, newRow, arena, arena.data
      ensures Valid() && (arena.data == old(arena.data) || fresh(arena.data))
      ensures r.None? ==> left == old(left) && back == old(back) && Work(shape, ks) < old(Work(shape, ks))
      ensures r.Some? ==> old(left) == left + [r.value.0] && back == [r.value.0] + old(back)
      ensures r.Some? ==> EntryAt(entries, r.value.0) == r
    {
      hide Shape.Valid, Shape.WF, Tries.WF, Seeks, ListsWanted, NodePtr.Valid, NodePtr.Repr, EntryAt, Reduction, Work,
        StackArena.Valid, Row, Distance, IsNear, Near, Contents;
      SeeksTop(shape, nodesToSearch, ks, arena.rows, key, maxEditDist, left, size);
      ghost var n, was, rows, s := |nodesToSearch| - 1, nodesToSearch, arena.rows, shape.value;
      ghost var x := ks[n];
      var node := nodesToSearch[|nodesToSearch| - 1];
      nodesToSearch := nodesToSearch[..|nodesToSearch| - 1];
      var some := arena.PopCopy(oldRow);
      assert some;
      AtNode(s, x, node);
      if node.LeafPtr? {
        r := TakeLeaf(node.leaf, s, was, rows);
      } else {
        r := None;
        ghost var added, ls, rs;
        nodesToSearch, added, ls, rs := SearchInner(arena, s, x, node, key, oldRow, newRow, nodesToSearch, maxEditDist);
        SeeksInner(s, was, ks, rows, n, key, maxEditDist, left, size, added, ls, rs);
        ks := ks[..n] + ls;
      }
    }

    /** `next`: the last near key that is left, with its value. */
    method Next() returns (r: Option<(Key, Value)>)
      requires Valid()
      modifies this, oldRow, newRow, arena, arena.data
      ensures Valid() && (arena.data == old(arena.data) || fresh(arena.data))
      ensures r.None? ==> old(left) == [] && left == [] && back == old(back)
      ensures r.Some? ==> old(left) == left + [r.value.0] && back == [r.value.0] + old(back)
      ensures r.Some? ==> EntryAt(entries, r.value.0) == r && Distance(key, r.value.0) <= maxEditDist
    {
      hide Seeks, ListsWanted, EntryAt, Work, StackArena.Valid, Distance;
      while nodesToSearch != []
        invariant Valid() && left == old(left) && back == old(back)
        invariant arena.data == old(arena.data) || fresh(arena.data)
        decreases Work(shape, ks)
      {
        r := Step();
        if r.Some? {
          WantedNear(all, entries, key, maxEditDist);
          assert all[|left|] == r.value.0;
          return;
        }
      }
      SeeksNone(shape, ks, arena.rows, key, maxEditDist, left, size);
      ghost var rows := arena.rows;
      var _ := arena.PopCopy(oldRow);
      SeeksStill(shape, ks, rows, arena.rows, key, maxEditDist, left, size);
      return None;
    }
  }

  /** The first row: the distances from the empty key. */
  method FirstRow(key: Key) returns (arena: StackArena)
    ensures fresh(arena) && fresh(arena.data) && arena.Valid() && arena.n == |key| + 1
    ensures arena.rows == [Row(key, [])]
  {
    arena := new StackArena(|key| + 1);
    var begin := arena.Push();
    var data := arena.data;
    var i := 0;
    while i < arena.n
      invariant i <= arena.n == |key| + 1 && arena.data == data && arena.len == begin + arena.n <= data.Length
      invariant arena.rows == [] && Stacked(data[..begin], [], arena.n)
      invariant forall j :: begin <= j < begin + i ==> data[j] == j - begin
    {
      data[begin + i] := i;
      i := i + 1;
    }
    assert data[begin..arena.len] == Row(key, []);
    arena.Filled(Row(key, []));
  }
}
