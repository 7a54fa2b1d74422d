/** Which trees of a map the well-formedness check accepts. */
module WellFormedTrees {
  import opened Bytes
  import opened Layouts
  import opened Tries
  import opened Nodes
  import opened Shapes
  import opened Maps
  import opened WellFormedness
  import Canonical

  /** The edges of a node from edge `b` on, in the order of iteration. */
  ghost function EdgesFrom(kids: map<byte, Key>, b: nat): seq<(byte, Key)>
    requires b <= 256
    decreases 256 - b
  {
    if b == 256 then []
    else (if b in kids then [(b, kids[b])] else []) + EdgesFrom(kids, b + 1)
  }

  ghost function Edges(kids: map<byte, Key>): seq<(byte, Key)> {
    EdgesFrom(kids, 0)
  }

  /** A node as the check sees it. */
  ghost function NodeOf(x: Key, d: Desc): GraphNode<Key> {
    match d
    case Leaf(_, _) => GraphLeaf(x)
    case Inner(start, kids) =>
      GraphInner(TypeFor(|kids|), if start <= |x| then x[start..] else [], Edges(kids))
  }

  /** A tree as the check sees it. */
  ghost function GraphOf(t: Trie): Graph<Key> {
    map x | x in t :: NodeOf(x, t[x])
  }

  lemma GraphAt(t: Trie)
    ensures GraphOf(t).Keys == t.Keys
      && forall x {:trigger GraphOf(t)[x]} :: x in t ==> GraphOf(t)[x] == NodeOf(x, t[x])
  {
  }

  /** Each edge is listed once, and leads to its child. */
  lemma {:induction false} EdgesListed(kids: map<byte, Key>, b: nat)
    requires b <= 256
    ensures forall i :: 0 <= i < |EdgesFrom(kids, b)| ==>
      var e := EdgesFrom(kids, b)[i]; b <= e.0 && e.0 in kids && kids[e.0] == e.1
    ensures forall i, j :: 0 <= i < j < |EdgesFrom(kids, b)| ==> EdgesFrom(kids, b)[i].0 < EdgesFrom(kids, b)[j].0
    ensures forall c :: c in kids && b <= c ==> (c, kids[c]) in EdgesFrom(kids, b)
    decreases 256 - b
  {
    if b < 256 {
      EdgesListed(kids, b + 1);
    }
  }

  lemma EdgesSorted(kids: map<byte, Key>)
    ensures forall i {:trigger Edges(kids)[i]} :: 0 <= i < |Edges(kids)| ==>
      var e := Edges(kids)[i]; e.0 in kids && kids[e.0] == e.1
    ensures forall i, j :: 0 <= i < j < |Edges(kids)| ==> Edges(kids)[i].0 < Edges(kids)[j].0
    ensures forall c :: c in kids ==> (c, kids[c]) in Edges(kids)
  {
    hide EdgesFrom;
    var b := 0;
    EdgesListed(kids, b);
  }

  /** The listed edges, as a listing of their bytes and one of what they lead to. */
  lemma EdgesList<C>(kids: map<byte, Key>, bs: seq<byte>, cs: seq<C>, m: map<byte, C>)
    requires |bs| == |cs| == |Edges(kids)| && m.Keys == kids.Keys
    requires forall i :: 0 <= i < |bs| ==> bs[i] == Edges(kids)[i].0 && (bs[i] in kids ==> cs[i] == m[bs[i]])
    ensures Lists(bs, cs, m)
  {
    hide Edges;
    EdgesSorted(kids);
    var es := Edges(kids);
    forall i | 0 <= i < |es| ensures Holds(m, bs[i], cs[i]) {
    }
    forall b | b in m ensures b in bs {
      var i :| 0 <= i < |es| && es[i] == (b, kids[b]);
      assert bs[i] == b;
    }
  }

  lemma EdgesCounted(kids: map<byte, Key>)
    ensures |Edges(kids)| == |kids|
  {
    hide Edges;
    EdgesSorted(kids);
    var es := Edges(kids);
    var bs := seq(|es|, i requires 0 <= i < |es| => es[i].0);
    var cs := seq(|es|, i requires 0 <= i < |es| => es[i].1);
    EdgesList(kids, bs, cs, kids);
    ListsSize(bs, cs, kids);
  }

  /** The edges of the graph are what iterating over the children of the stored node
      gives. */
  lemma EdgesRead(s: Shape, x: Key, p: NodePtr, bs: seq<byte>, cs: seq<NodePtr>)
    requires StoredAt(s, x, p) && s.t[x].Inner? && Lists(bs, cs, p.Kids())
    ensures var es := Edges(s.t[x].kids);
      |es| == |bs| == |cs| &&
      forall i :: 0 <= i < |bs| ==> es[i].0 == bs[i] && es[i].1 in s.at && s.at[es[i].1] == cs[i]
  {
    hide Edges, Tries.WF, Shape.Valid, NodePtr.Kids, NodePtr.Valid, Fits, Lists;
    Stored(s, x, p);
    var kids := s.t[x].kids;
    var es := Edges(kids);
    EdgesSorted(kids);
    forall i | 0 <= i < |es| ensures es[i].1 in s.at && es[i].0 in p.Kids() && p.Kids()[es[i].0] == s.at[es[i].1] {
      StoredKid(s, x, p, es[i].0);
    }
    var ds := seq(|es|, i requires 0 <= i < |es| => es[i].0);
    var ps := seq(|es|, i requires 0 <= i < |es| => s.at[es[i].1]);
    EdgesList(kids, ds, ps, p.Kids());
    ListsUnique(bs, cs, ds, ps, p.Kids());
  }

  /** The graph of a tree is what the check reads from the nodes on the heap: the key
      of a leaf; the layout, the prefix and the children of an inner node. */
  lemma GraphRead(s: Shape, x: Key, p: NodePtr, bs: seq<byte>, cs: seq<NodePtr>)
    requires StoredAt(s, x, p) && (!p.LeafPtr? ==> Lists(bs, cs, p.Kids()))
    ensures x in GraphOf(s.t)
    ensures p.LeafPtr? ==> GraphOf(s.t)[x] == GraphLeaf(p.leaf.key)
    ensures !p.LeafPtr? ==>
      var g := GraphOf(s.t)[x];
      && g.GraphInner? && g.ty == p.Type() && p.Valid() && g.prefix == p.Header().full
      && |g.edges| == |bs| == |cs|
      && forall i :: 0 <= i < |bs| ==>
           g.edges[i].0 == bs[i] && g.edges[i].1 in s.at && s.at[g.edges[i].1] == cs[i]
  {
    hide GraphOf, Edges, Lists, Tries.WF;
    Stored(s, x, p);
    GraphAt(s.t);
    if s.t[x].Inner? {
      FitsOnce(p.Type(), |p.Kids()|);
      EdgesRead(s, x, p, bs, cs);
    }
  }

  /** The edge at position `i` of an inner node leads to a child that begins right
      after it. */
  ghost predicate StepOk(t: Trie, x: Key, e: (byte, Key)) {
    && x in t && e.1 in t && t[x].Inner? && e.0 in t[x].kids && t[x].kids[e.0] == e.1
    && t[x].start <= |x| < |e.1| && x == e.1[..|x|] && e.1[|x|] == e.0
    && t[e.1].start == |x| + 1
  }

  lemma GraphStep(t: Trie, r: Key, x: Key, i: nat)
    requires WF(t, r) && x in t && t[x].Inner? && i < |Edges(t[x].kids)|
    ensures StepOk(t, x, Edges(t[x].kids)[i])
  {
    hide Edges;
    EdgesSorted(t[x].kids);
    assert KidOk(t, x, Edges(t[x].kids)[i].0) && NodeOk(t, x);
  }

  lemma GraphClosed(t: Trie, r: Key)
    requires WF(t, r)
    ensures Closed(GraphOf(t)) && r in GraphOf(t)
  {
    hide GraphOf, Tries.WF, Edges;
    GraphAt(t);
    RootIn(t, r);
    var g := GraphOf(t);
    forall x, i | x in g && g[x].GraphInner? && 0 <= i < |g[x].edges| ensures g[x].edges[i].1 in g {
      GraphStep(t, r, x, i);
    }
  }

  lemma RootIn(t: Trie, r: Key)
    requires WF(t, r)
    ensures r in t && t[r].start == 0 && forall x {:trigger NodeOk(t, x)} :: x in t ==> NodeOk(t, x)
  {
  }

  /** A walk spells out the path of the node it leads to, and only goes down. */
  ghost predicate Down(t: Trie, x: Key, y: Key, trail: Key) {
    && x in t && y in t && t[x].start <= |x| && t[y].start <= |y|
    && x <= y && x[..t[x].start] + trail == y[..t[y].start]
  }

  lemma {:induction false} WalkDown(t: Trie, r: Key, x: Key, p: seq<nat>)
    requires WF(t, r) && Closed(GraphOf(t)) && x in t && x in GraphOf(t) && Walk(GraphOf(t), x, p).Some?
    ensures Down(t, x, Walk(GraphOf(t), x, p).value, Trail(GraphOf(t), x, p))
    ensures p != [] ==> x != Walk(GraphOf(t), x, p).value
    decreases |p|
  {
    hide GraphOf, Tries.WF, Closed, Edges;
    GraphAt(t);
    RootIn(t, r);
    assert NodeOk(t, x);
    if p != [] {
      var e := GraphOf(t)[x].edges[p[0]];
      GraphStep(t, r, x, p[0]);
      WalkDown(t, r, e.1, p[1..]);
      DownStep(t, x, e, Walk(GraphOf(t), x, p).value, Trail(GraphOf(t), e.1, p[1..]));
    }
  }

  lemma DownStep(t: Trie, x: Key, e: (byte, Key), y: Key, trail: Key)
    requires StepOk(t, x, e) && Down(t, e.1, y, trail)
    ensures Down(t, x, y, x[t[x].start..] + [e.0] + trail) && x != y
  {
    assert x[..t[x].start] + x[t[x].start..] + [e.0] == e.1[..|x| + 1];
    assert x[..t[x].start] + (x[t[x].start..] + [e.0] + trail) == e.1[..|x| + 1] + trail;
    assert x == y[..|x|];
  }

  /** No two walks lead to the same node. */
  lemma {:induction false} WalkUnique(t: Trie, r: Key, x: Key, p: seq<nat>, q: seq<nat>)
    requires WF(t, r) && Closed(GraphOf(t)) && x in t && x in GraphOf(t)
    requires Walk(GraphOf(t), x, p).Some? && Walk(GraphOf(t), x, p) == Walk(GraphOf(t), x, q)
    ensures p == q
    decreases |p|
  {
    hide GraphOf, Tries.WF, Closed, Edges;
    GraphAt(t);
    WalkDown(t, r, x, p);
    WalkDown(t, r, x, q);
    if p != [] && q != [] {
      var es := GraphOf(t)[x].edges;
      SamePosition(t, r, x, p[0], q[0], es[p[0]].1, es[q[0]].1, Walk(GraphOf(t), x, p).value) by {
        GraphStep(t, r, x, p[0]);
        GraphStep(t, r, x, q[0]);
        WalkDown(t, r, es[p[0]].1, p[1..]);
        WalkDown(t, r, es[q[0]].1, q[1..]);
      }
      GraphStep(t, r, x, p[0]);
      WalkUnique(t, r, es[p[0]].1, p[1..], q[1..]);
      assert p == [p[0]] + p[1..] && q == [q[0]] + q[1..];
    }
  }

  /** Only one child is a prefix of a node below. */
  lemma SamePosition(t: Trie, r: Key, x: Key, i: nat, j: nat, c: Key, d: Key, y: Key)
    requires WF(t, r) && x in t && t[x].Inner?
    requires i < |Edges(t[x].kids)| && j < |Edges(t[x].kids)|
    requires Edges(t[x].kids)[i].1 == c && Edges(t[x].kids)[j].1 == d && c <= y && d <= y
    ensures i == j
  {
    hide Tries.WF, Edges;
    EdgesSorted(t[x].kids);
    GraphStep(t, r, x, i);
    GraphStep(t, r, x, j);
    assert y[|x|] == c[|x|] == d[|x|];
  }

  /** There is a walk to every node of the tree. */
  lemma {:induction false} WalkTo(t: Trie, r: Key, y: Key) returns (p: seq<nat>)
    requires WF(t, r) && Closed(GraphOf(t)) && r in GraphOf(t) && y in t
    ensures Walk(GraphOf(t), r, p) == Some(y)
    decreases |y|
  {
    hide GraphOf, Closed, Edges;
    GraphAt(t);
    if y == r {
      p := [];
    } else {
      assert UpOk(t, y);
      var x := Parent(t, y);
      var w := WalkTo(t, r, x);
      EdgesSorted(t[x].kids);
      var es := GraphOf(t)[x].edges;
      var i :| 0 <= i < |es| && es[i] == (y[t[y].start - 1], y);
      WalkChild(GraphOf(t), r, w, i);
      p := Then(w, i);
    }
  }

  /** No node of the tree has all 256 children. */
  ghost predicate NoFullNode(t: Trie) {
    forall x :: x in t && t[x].Inner? ==> |t[x].kids| != 256
  }

  lemma FineNode(t: Trie, r: Key, p: seq<nat>)
    requires WF(t, r) && Closed(GraphOf(t)) && r in GraphOf(t) && NoFullNode(t)
    ensures FineAt(GraphOf(t), r, p)
  {
    hide GraphOf, Tries.WF, Closed, Edges;
    GraphAt(t);
    RootIn(t, r);
    if Walk(GraphOf(t), r, p).Some? {
      var y := Walk(GraphOf(t), r, p).value;
      WalkDown(t, r, r, p);
      assert NodeOk(t, y);
      if t[y].Inner? {
        EdgesCounted(t[y].kids);
        AtMost256(t[y].kids);
      }
    }
  }

  lemma FullNotFine(t: Trie, r: Key, x: Key)
    requires WF(t, r) && Closed(GraphOf(t)) && r in GraphOf(t) && x in t && t[x].Inner? && |t[x].kids| == 256
    ensures !WellFormed(GraphOf(t), r)
  {
    hide GraphOf, Tries.WF, Closed, Edges;
    GraphAt(t);
    var p := WalkTo(t, r, x);
    EdgesCounted(t[x].kids);
    assert !FineAt(GraphOf(t), r, p);
  }

  /** The check accepts the tree of a map if and only if no node of it has all 256
      children; it counts all nodes. */
  lemma AcceptsTree(t: Trie, r: Key)
    requires WF(t, r)
    ensures Closed(GraphOf(t)) && r in GraphOf(t)
    ensures WellFormed(GraphOf(t), r) <==> NoFullNode(t)
    ensures forall x :: Reachable(GraphOf(t), r, x) <==> x in t
  {
    hide GraphOf, Tries.WF, Closed, Walk, Edges;
    GraphClosed(t, r);
    GraphAt(t);
    RootIn(t, r);
    var g := GraphOf(t);
    if NoFullNode(t) {
      forall p ensures FineAt(g, r, p) {
        FineNode(t, r, p);
      }
      forall p, q | Walk(g, r, p).Some? && Walk(g, r, p) == Walk(g, r, q) ensures p == q {
        WalkUnique(t, r, r, p, q);
      }
    } else {
      var x :| x in t && t[x].Inner? && |t[x].kids| == 256;
      FullNotFine(t, r, x);
    }
    forall x ensures Reachable(g, r, x) <==> x in t {
      if x in t {
        var p := WalkTo(t, r, x);
      }
    }
  }

  /** The tree of all one-byte keys: its root has 256 children. */
  ghost function AllBytes(v: Value): Trie {
    (map k: Key | k in SingleBytes(256) :: Leaf(1, v))[[] := Inner(0, map b: byte | 0 <= b < 256 :: [b])]
  }

  ghost function SingleBytes(n: nat): (s: set<Key>)
    requires n <= 256
    ensures forall k :: k in s <==> |k| == 1 && k[0] < n
  {
    if n == 0 then {}
    else
      assert forall k: Key :: |k| == 1 && k[0] == n - 1 ==> k == [n - 1];
      SingleBytes(n - 1) + {[n - 1]}
  }

  /** That tree is well formed, and stores the one-byte keys, but the check rejects
      it: the range that it allows for a `Node256` ends below 256. */
  lemma RejectsFullNode(v: Value)
    ensures WF(AllBytes(v), []) && Closed(GraphOf(AllBytes(v))) && [] in GraphOf(AllBytes(v))
    ensures !WellFormed(GraphOf(AllBytes(v)), [])
  {
    hide SingleBytes, GraphOf, Closed, WellFormed;
    var t := AllBytes(v);
    FullSize(t[[]].kids);
    forall x, b | x in t && t[x].Inner? && b in t[x].kids ensures KidOk(t, x, b) {
      assert [b] in SingleBytes(256);
    }
    forall x | x in t ensures NodeOk(t, x) {
    }
    forall x | x in t && x != [] ensures UpOk(t, x) {
      assert x == [x[0]];
    }
    AcceptsTree(t, []);
  }

  /** A map with these entries has this tree. */
  lemma FullMapRejected(tree: TreeMap, v: Value)
    requires tree.Valid() && tree.Entries() == Contents(AllBytes(v))
    ensures tree.shape.Some? && tree.shape.value.t == AllBytes(v) && tree.shape.value.r == []
    ensures Closed(GraphOf(tree.shape.value.t)) && [] in GraphOf(tree.shape.value.t)
    ensures !WellFormed(GraphOf(tree.shape.value.t), [])
  {
    hide AllBytes, GraphOf, TreeMap.Valid;
    RejectsFullNode(v);
    Canonical.NodesFixed(tree, AllBytes(v), []);
  }

  /** The keys `[0]` to `[n - 1]`, all with value `v`. */
  ghost predicate HasBytes(m: map<Key, Value>, n: nat, v: Value) {
    forall k :: (k in m <==> |k| == 1 && k[0] < n) && (k in m ==> m[k] == v)
  }

  lemma AddByte(m: map<Key, Value>, n: byte, v: Value)
    requires HasBytes(m, n, v)
    ensures !PrefixClash(m, [n]) && HasBytes(m[[n] := v], n + 1, v)
  {
    forall y | y in m ensures !(y <= [n]) && !([n] <= y) {
      assert y[0] != n;
    }
    forall k: Key ensures |k| == 1 && k[0] < n + 1 <==> (|k| == 1 && k[0] < n) || k == [n] {
    }
  }

  lemma NoBytes(v: Value)
    ensures HasBytes(map[], 0, v)
  {
  }

  lemma BytesFull(m: map<Key, Value>, v: Value)
    requires HasBytes(m, 256, v)
    ensures m == Contents(AllBytes(v))
  {
    hide SingleBytes;
    var ks := SingleBytes(256);
    forall k ensures k in m <==> k in ks {
    }
    AllBytesContents(v);
  }

  lemma AllBytesContents(v: Value)
    ensures Contents(AllBytes(v)) == map k: Key | k in SingleBytes(256) :: v
  {
    hide SingleBytes;
  }

  /** Some map has these entries. */
  method FillBytes(v: Value) returns (tree: TreeMap)
    ensures tree.Valid() && tree.Entries() == Contents(AllBytes(v))
  {
    hide TreeMap.Valid, TreeMap.Entries, PrefixClash, HasBytes, AllBytes;
    tree := new TreeMap();
    NoBytes(v);
    var n: nat := 0;
    while n < 256
      invariant n <= 256 && tree.Valid() && fresh(tree.Repr()) && HasBytes(tree.Entries(), n, v)
    {
      AddByte(tree.Entries(), n, v);
      var r := tree.TryInsert([n], v);
      n := n + 1;
    }
    BytesFull(tree.Entries(), v);
  }

  lemma FullSize(m: map<byte, Key>)
    requires forall b: byte :: b in m
    ensures |m| == 256
  {
    assert m.Keys == BytesBelow(256);
  }
}
