/** The well-formedness check, on any finite graph of nodes. */
module WellFormedness {
  import opened Bytes
  import opened Layouts
  import Nodes

  /** A node as the check sees it: a leaf with its key, or an inner node with its
      layout, its prefix and its edges in the order of iteration. */
  datatype GraphNode<N> =
    | GraphLeaf(key: Key)
    | GraphInner(ty: NodeType, prefix: Key, edges: seq<(byte, N)>)

  type Graph<N> = map<N, GraphNode<N>>

  /** `capacity_range`: the numbers of children that the check accepts. */
  predicate InCapacityRange(ty: NodeType, n: nat) {
    match ty
    case Node4 => 1 <= n < 5
    case Node16 => 5 <= n < 17
    case Node48 => 17 <= n < 49
    case Node256 => 49 <= n < 256
  }

  /** All edges lead to nodes of the graph. */
  ghost predicate Closed<N>(g: Graph<N>) {
    forall x, i :: x in g && g[x].GraphInner? && 0 <= i < |g[x].edges| ==> g[x].edges[i].1 in g
  }

  /** The node that the edges at positions `p` lead to, one after the other. */
  ghost function Walk<N>(g: Graph<N>, x: N, p: seq<nat>): (r: Option<N>)
    requires Closed(g) && x in g
    ensures r.Some? ==> r.value in g
  {
    if p == [] then Some(x)
    else if g[x].GraphInner? && p[0] < |g[x].edges| then Walk(g, g[x].edges[p[0]].1, p[1..])
    else None
  }

  /** One step further. */
  ghost function Then(w: seq<nat>, i: nat): seq<nat> {
    w + [i]
  }

  /** The bytes on the way: the prefix and the edge byte of each node. */
  ghost function Trail<N>(g: Graph<N>, x: N, p: seq<nat>): Key
    requires Closed(g) && x in g && Walk(g, x, p).Some?
  {
    if p == [] then []
    else g[x].prefix + [g[x].edges[p[0]].0] + Trail(g, g[x].edges[p[0]].1, p[1..])
  }

  /** The node at the end of the walk has the right number of children, or a key
      that starts with the bytes on the way to it. */
  ghost predicate FineAt<N>(g: Graph<N>, root: N, p: seq<nat>)
    requires Closed(g) && root in g
  {
    Walk(g, root, p).Some? ==>
      match g[Walk(g, root, p).value]
      case GraphLeaf(key) => Trail(g, root, p) <= key
      case GraphInner(ty, _, edges) => InCapacityRange(ty, |edges|)
  }

  /** The part of the graph that the root leads to is a tree of fine nodes: no two
      walks lead to the same node. */
  ghost predicate WellFormed<N>(g: Graph<N>, root: N)
    requires Closed(g) && root in g
  {
    && (forall p {:trigger FineAt(g, root, p)} :: FineAt(g, root, p))
    && (forall p, q {:trigger Walk(g, root, p), Walk(g, root, q)} ::
          Walk(g, root, p).Some? && Walk(g, root, p) == Walk(g, root, q) ==> p == q)
  }

  lemma {:induction false} WalkConcat<N>(g: Graph<N>, x: N, p: seq<nat>, q: seq<nat>)
    requires Closed(g) && x in g && Walk(g, x, p).Some?
    ensures Walk(g, x, p + q) == Walk(g, Walk(g, x, p).value, q)
    ensures Walk(g, x, p + q).Some? ==>
      Trail(g, x, p + q) == Trail(g, x, p) + Trail(g, Walk(g, x, p).value, q)
    decreases |p|
  {
    if p == [] {
      assert p + q == q;
    } else {
      assert (p + q)[1..] == p[1..] + q;
      WalkConcat(g, g[x].edges[p[0]].1, p[1..], q);
    }
  }

  /** The walk to child `i`. */
  lemma WalkChild<N>(g: Graph<N>, root: N, w: seq<nat>, i: nat)
    requires Closed(g) && root in g && Walk(g, root, w).Some?
    requires var x := Walk(g, root, w).value; g[x].GraphInner? && i < |g[x].edges|
    ensures var e := g[Walk(g, root, w).value].edges[i];
      && Walk(g, root, Then(w, i)) == Some(e.1)
      && Trail(g, root, Then(w, i)) == Trail(g, root, w) + g[Walk(g, root, w).value].prefix + [e.0]
  {
    var x := Walk(g, root, w).value;
    assert [i][1..] == [];
    assert Walk(g, x, [i]) == Some(g[x].edges[i].1);
    assert Trail(g, x, [i]) == g[x].prefix + [g[x].edges[i].0];
    WalkConcat(g, root, w, [i]);
  }

  datatype CheckResult<N> = Counted(nodes: nat) | Malformed(error: MalformedTreeError<N>)

  datatype MalformedTreeError<N> =
    | LoopFound(node: N, firstObserved: Key, laterObserved: Key)
    | WrongChildrenCount(keyPrefix: Key, ty: NodeType, numChildren: nat)
    | PrefixMismatch(expectedPrefix: Key, entireKey: Key)

  /** Walk `p` is taken before walk `q`: it is the beginning of it, or takes an
      earlier edge where they part. */
  ghost predicate Earlier(p: seq<nat>, q: seq<nat>) {
    p < q || exists i :: 0 <= i < |p| && i < |q| && p[..i] == q[..i] && p[i] < q[i]
  }

  /** The error tells of a place where the graph is not well formed. */
  ghost predicate Explains<N(!new)>(g: Graph<N>, root: N, error: MalformedTreeError<N>)
    requires Closed(g) && root in g
  {
    match error
    case LoopFound(node, first, later) => exists p, q :: LoopAt(g, root, p, q, node, first, later)
    case WrongChildrenCount(prefix, ty, n) => exists p :: CountAt(g, root, p, prefix, ty, n)
    case PrefixMismatch(prefix, key) => exists p :: MismatchAt(g, root, p, prefix, key)
  }

  ghost predicate LoopAt<N>(g: Graph<N>, root: N, p: seq<nat>, q: seq<nat>, node: N, first: Key, later: Key)
    requires Closed(g) && root in g
  {
    && Earlier(p, q) && Walk(g, root, p) == Some(node) == Walk(g, root, q)
    && Trail(g, root, p) == first && Trail(g, root, q) == later
  }

  ghost predicate CountAt<N>(g: Graph<N>, root: N, p: seq<nat>, prefix: Key, ty: NodeType, n: nat)
    requires Closed(g) && root in g
  {
    && Walk(g, root, p).Some? && Trail(g, root, p) == prefix
    && var node := g[Walk(g, root, p).value];
       node.GraphInner? && node.ty == ty && |node.edges| == n && !InCapacityRange(ty, n)
  }

  ghost predicate MismatchAt<N>(g: Graph<N>, root: N, p: seq<nat>, prefix: Key, key: Key)
    requires Closed(g) && root in g
  {
    && Walk(g, root, p).Some? && Trail(g, root, p) == prefix
    && g[Walk(g, root, p).value] == GraphLeaf(key) && !(prefix <= key)
  }

  /** The bytes recorded for each node are those on the walk recorded for it. */
  ghost predicate Spelled<N(!new)>(g: Graph<N>, root: N, walks: map<N, seq<nat>>, seen: map<N, Key>)
    requires Closed(g) && root in g
  {
    walks.Keys == seen.Keys && forall x {:trigger walks[x]} {:trigger seen[x]} :: x in walks ==>
      Walk(g, root, walks[x]).Some? && seen[x] == Trail(g, root, walks[x])
  }

  /** The recorded walks are no later than `w`. */
  ghost predicate UpTo<N(!new)>(walks: map<N, seq<nat>>, w: seq<nat>) {
    forall x {:trigger walks[x]} :: x in walks ==> walks[x] == w || Earlier(walks[x], w)
  }

  /** When child `i` is visited, the recorded walks are earlier than the walk to it. */
  lemma EarlierChild<N(!new)>(walks: map<N, seq<nat>>, more: map<N, seq<nat>>, w: seq<nat>, i: nat, c: N)
    requires FirstEdges(walks, more, w, i) && UpTo(walks, w)
    ensures forall x :: x in more ==> Earlier(more[x], Then(w, i))
    ensures UpTo(more[c := Then(w, i)], Then(w, i))
  {
    var v := Then(w, i);
    forall x | x in more ensures Earlier(more[x], v) {
      assert v[..|w|] == w;
      if x !in walks {
        assert more[x][..|w|] == v[..|w|] && more[x][|w|] < v[|w|];
      } else if walks[x] != w && !(walks[x] < w) {
        var j :| 0 <= j < |walks[x]| && j < |w| && walks[x][..j] == w[..j] && walks[x][j] < w[j];
        assert more[x][..j] == v[..j] && more[x][j] < v[j];
      }
    }
  }

  /** Each node has been seen at the end of the walk recorded for it. */
  ghost predicate Recorded<N(!new)>(g: Graph<N>, root: N, walks: map<N, seq<nat>>)
    requires Closed(g) && root in g
  {
    forall x {:trigger walks[x]} :: x in walks ==> Walk(g, root, walks[x]) == Some(x)
  }

  /** Everything that node `x`, seen at the end of walk `w`, leads to along `p` has
      been seen there, and is fine. */
  ghost predicate ExploredAt<N>(g: Graph<N>, root: N, walks: map<N, seq<nat>>, w: seq<nat>, x: N, p: seq<nat>)
    requires Closed(g) && root in g && x in g
  {
    Walk(g, x, p).Some? ==>
      && Walk(g, x, p).value in walks && walks[Walk(g, x, p).value] == w + p
      && FineAt(g, root, w + p)
  }

  ghost predicate Explored<N>(g: Graph<N>, root: N, walks: map<N, seq<nat>>, w: seq<nat>, x: N)
    requires Closed(g) && root in g && x in g
  {
    forall p {:trigger ExploredAt(g, root, walks, w, x, p)} :: ExploredAt(g, root, walks, w, x, p)
  }

  /** More nodes have been seen, all of them below walk `w`. */
  ghost predicate Extends<N(!new)>(walks: map<N, seq<nat>>, more: map<N, seq<nat>>, w: seq<nat>) {
    && (forall x :: x in walks ==> x in more && more[x] == walks[x])
    && (forall x :: x in more && x !in walks ==> w < more[x])
  }

  lemma ExtendsExplored<N(!new)>(g: Graph<N>, root: N, walks: map<N, seq<nat>>, more: map<N, seq<nat>>, w: seq<nat>,
                          v: seq<nat>, x: N)
    requires Closed(g) && root in g && x in g && Explored(g, root, walks, v, x) && Extends(walks, more, w)
    ensures Explored(g, root, more, v, x)
  {
    forall p ensures ExploredAt(g, root, more, v, x, p) {
      assert ExploredAt(g, root, walks, v, x, p);
    }
  }

  /** The new walks begin with `w` and one of the first `i` edges. */
  ghost predicate FirstEdges<N(!new)>(walks: map<N, seq<nat>>, more: map<N, seq<nat>>, w: seq<nat>, i: nat) {
    Extends(walks, more, w) && forall x :: x in more && x !in walks ==> more[x][|w|] < i
  }

  /** No recorded walk goes on from `w`. */
  ghost predicate NotPassed<N(!new)>(walks: map<N, seq<nat>>, w: seq<nat>) {
    forall y :: y in walks ==> !(w < walks[y])
  }

  /** The child at edge `i` has not been recorded by the walk to it. */
  lemma NewWalk<N(!new)>(walks: map<N, seq<nat>>, more: map<N, seq<nat>>, w: seq<nat>, i: nat, x: N)
    requires FirstEdges(walks, more, w, i) && x in more
    requires NotPassed(walks, w)
    ensures !(Then(w, i) <= more[x])
  {
    FirstStep(w, i, more[x]);
  }

  lemma FirstStep(w: seq<nat>, i: nat, v: seq<nat>)
    ensures Then(w, i) <= v ==> w < v && v[|w|] == i
  {
    if w + [i] <= v {
      assert v[..|w| + 1] == w + [i];
      assert v[|w|] == v[..|w| + 1][|w|];
      assert w == v[..|w|];
    }
  }

  lemma ExtendsChild<N(!new)>(walks: map<N, seq<nat>>, more: map<N, seq<nat>>, all: map<N, seq<nat>>, w: seq<nat>,
                       i: nat, c: N)
    requires FirstEdges(walks, more, w, i) && c !in more
    requires Extends(more[c := Then(w, i)], all, Then(w, i))
    ensures FirstEdges(walks, all, w, i + 1) && Extends(more, all, w)
  {
    var mid := more[c := Then(w, i)];
    forall x | x in all && x !in more ensures w < all[x] && all[x][|w|] == i {
      if x == c {
        assert all[x] == mid[x];
      } else {
        assert x !in mid && Then(w, i) < all[x];
        FirstStep(w, i, all[x]);
      }
    }
    forall x | x in more ensures x in all && all[x] == more[x] {
      assert mid[x] == more[x] && x in mid;
    }
  }

  /** A node that has been seen at the end of another walk makes a loop. */
  lemma LoopBreaks<N>(g: Graph<N>, root: N, p: seq<nat>, q: seq<nat>)
    requires Closed(g) && root in g && p != q && Walk(g, root, p).Some? && Walk(g, root, p) == Walk(g, root, q)
    ensures !WellFormed(g, root)
  {
  }

  lemma NotFine<N>(g: Graph<N>, root: N, p: seq<nat>)
    requires Closed(g) && root in g && !FineAt(g, root, p)
    ensures !WellFormed(g, root)
  {
  }

  ghost predicate ChildrenExplored<N>(g: Graph<N>, root: N, walks: map<N, seq<nat>>, w: seq<nat>, x: N, i: nat)
    requires Closed(g) && root in g && x in g && g[x].GraphInner? && i <= |g[x].edges|
  {
    forall j {:trigger Then(w, j)} | 0 <= j < i :: Explored(g, root, walks, Then(w, j), g[x].edges[j].1)
  }

  /** The children up to edge `i` stay explored while child `i` is explored. */
  lemma OneMoreExplored<N(!new)>(g: Graph<N>, root: N, walks: map<N, seq<nat>>, more: map<N, seq<nat>>, w: seq<nat>,
                          x: N, i: nat)
    requires Closed(g) && root in g && x in g && g[x].GraphInner? && i < |g[x].edges|
    requires ChildrenExplored(g, root, walks, w, x, i) && Extends(walks, more, w)
    requires Explored(g, root, more, Then(w, i), g[x].edges[i].1)
    ensures ChildrenExplored(g, root, more, w, x, i + 1)
  {
    forall j {:trigger Then(w, j)} | 0 <= j < i + 1 ensures Explored(g, root, more, Then(w, j), g[x].edges[j].1) {
      if j < i {
        ExtendsExplored(g, root, walks, more, w, Then(w, j), g[x].edges[j].1);
      }
    }
  }

  /** No recorded walk passes the child at edge `i` when it is seen. */
  lemma ChildNotPassed<N(!new)>(walks: map<N, seq<nat>>, more: map<N, seq<nat>>, w: seq<nat>, i: nat, c: N)
    requires FirstEdges(walks, more, w, i) && NotPassed(walks, w) && c !in more
    ensures NotPassed(more[c := Then(w, i)], Then(w, i))
    ensures |more[c := Then(w, i)]| == |more| + 1
  {
    forall y | y in more ensures !(Then(w, i) < more[y]) {
      NewWalk(walks, more, w, i, y);
    }
    var all := more[c := Then(w, i)];
    assert all.Keys == more.Keys + {c} && |all| == |all.Keys| && |more| == |more.Keys|;
  }

  /** A node is explored when it is fine and all its children are explored. */
  lemma ExploredInner<N>(g: Graph<N>, root: N, walks: map<N, seq<nat>>, w: seq<nat>, x: N)
    requires Closed(g) && root in g && x in g && g[x].GraphInner? && Walk(g, root, w) == Some(x)
    requires x in walks && walks[x] == w && FineAt(g, root, w)
    requires ChildrenExplored(g, root, walks, w, x, |g[x].edges|)
    ensures Explored(g, root, walks, w, x)
  {
    forall p ensures ExploredAt(g, root, walks, w, x, p) {
      if p == [] {
        assert w + [] == w;
      } else if p[0] < |g[x].edges| {
        assert Explored(g, root, walks, Then(w, p[0]), g[x].edges[p[0]].1);
        assert ExploredAt(g, root, walks, Then(w, p[0]), g[x].edges[p[0]].1, p[1..]);
        assert Then(w, p[0]) + p[1..] == w + p;
      }
    }
  }

  class WellFormedChecker<N(==, !new)> {
    var currentKeyPrefix: Key
    var seenNodes: map<N, Key>
    const g: Graph<N>
    const root: N
    /** The walk at whose end each node was seen. */
    ghost var walks: map<N, seq<nat>>

    ghost predicate Valid()
      reads this`seenNodes, this`walks
    {
      && Closed(g) && root in g
      && walks.Keys == seenNodes.Keys <= g.Keys && Recorded(g, root, walks) && Spelled(g, root, walks, seenNodes)
    }

    lemma Facts()
      requires Valid()
      ensures Closed(g) && root in g && walks.Keys == seenNodes.Keys <= g.Keys
      ensures Recorded(g, root, walks) && Spelled(g, root, walks, seenNodes)
    {
    }

    constructor (g: Graph<N>, root: N)
      requires Closed(g) && root in g
      ensures Valid() && this.g == g && this.root == root && currentKeyPrefix == []
      ensures walks == map[root := []]
    {
      this.g, this.root := g, root;
      currentKeyPrefix := [];
      seenNodes := map[root := []];
      walks := map[root := []];
    }

    /** `visit_leaf`. */
    method VisitLeaf(x: N, ghost w: seq<nat>) returns (r: CheckResult<N>)
      requires Valid() && x in g && g[x].GraphLeaf? && Walk(g, root, w) == Some(x)
      requires currentKeyPrefix == Trail(g, root, w) && x in walks && walks[x] == w
      ensures r.Counted? <==> Trail(g, root, w) <= g[x].key
      ensures r.Counted? ==> r.nodes == 1 && Explored(g, root, walks, w, x)
      ensures r.Malformed? ==> !WellFormed(g, root) && Explains(g, root, r.error)
    {
      if !(currentKeyPrefix <= g[x].key) {
        assert !FineAt(g, root, w);
        assert MismatchAt(g, root, w, currentKeyPrefix, g[x].key);
        return Malformed(PrefixMismatch(currentKeyPrefix, g[x].key));
      }
      forall p ensures ExploredAt(g, root, walks, w, x, p) {
        assert w + [] == w;
      }
      return Counted(1);
    }

    /** Node `x` is seen for the first time. */
    method See(x: N, ghost w: seq<nat>)
      requires Valid() && x !in seenNodes && Walk(g, root, w) == Some(x) && currentKeyPrefix == Trail(g, root, w)
      modifies `seenNodes, `walks
      ensures Valid() && walks == old(walks)[x := w] && seenNodes == old(seenNodes)[x := currentKeyPrefix]
      ensures |g.Keys - seenNodes.Keys| < |g.Keys - old(seenNodes.Keys)|
    {
      hide Closed, Recorded, Spelled, Walk, Trail;
      Shrinks(g.Keys, seenNodes.Keys, x);
      RecordedMore(g, root, walks, x, w);
      SpelledMore(g, root, walks, seenNodes, x, w);
      assert walks[x := w].Keys == walks.Keys + {x};
      seenNodes := seenNodes[x := currentKeyPrefix];
      walks := walks[x := w];
      assert seenNodes.Keys == old(seenNodes.Keys) + {x};
    }

    /** `visit_with`: everything that node `x` leads to has been seen for the first
        time and is fine, or the graph is not well formed. */
    method Visit(x: N, ghost w: seq<nat>) returns (r: CheckResult<N>)
      requires Valid() && x in g && Walk(g, root, w) == Some(x)
      requires currentKeyPrefix == Trail(g, root, w) && x in walks && walks[x] == w && NotPassed(walks, w)
      requires UpTo(walks, w)
      modifies this
      ensures Valid() && old(seenNodes.Keys) <= seenNodes.Keys
      ensures r.Counted? ==> currentKeyPrefix == old(currentKeyPrefix) && Extends(old(walks), walks, w)
      ensures r.Counted? ==> Explored(g, root, walks, w, x) && r.nodes == |walks| - |old(walks)| + 1
      ensures r.Malformed? ==> !WellFormed(g, root) && Explains(g, root, r.error)
      decreases |g.Keys - seenNodes.Keys|, 3
    {
      if g[x].GraphLeaf? {
        r := VisitLeaf(x, w);
      } else {
        r := VisitInnerNode(x, w);
      }
    }

    /** `visit_inner_node`. */
    method VisitInnerNode(x: N, ghost w: seq<nat>) returns (r: CheckResult<N>)
      requires Valid() && x in g && g[x].GraphInner? && Walk(g, root, w) == Some(x)
      requires currentKeyPrefix == Trail(g, root, w) && x in walks && walks[x] == w && NotPassed(walks, w)
      requires UpTo(walks, w)
      modifies this
      ensures Valid() && old(seenNodes.Keys) <= seenNodes.Keys
      ensures r.Counted? ==> currentKeyPrefix == old(currentKeyPrefix) && Extends(old(walks), walks, w)
      ensures r.Counted? ==> Explored(g, root, walks, w, x) && r.nodes == |walks| - |old(walks)| + 1
      ensures r.Counted? ==>
        match g[x].ty
        case Node4 => 1 <= |g[x].edges| <= 4
        case Node16 => 5 <= |g[x].edges| <= 16
        case Node48 => 17 <= |g[x].edges| <= 48
        case Node256 => 49 <= |g[x].edges| <= 255
      ensures r.Malformed? ==> !WellFormed(g, root) && Explains(g, root, r.error)
      decreases |g.Keys - seenNodes.Keys|, 2
    {
      hide Closed, Recorded, Explored, ExploredAt, NotPassed, WellFormed, Then, ChildrenExplored, Walk, Trail, Spelled,
        UpTo, Explains, Earlier, WellFormedChecker.Valid;
      Facts();
      ghost var before := walks;
      var originalLen := |currentKeyPrefix|;
      currentKeyPrefix := currentKeyPrefix + g[x].prefix;
      var runningNodeCount: nat, numChildren: nat := 0, 0;
      NoneExplored(g, root, walks, w, x);
      while numChildren < |g[x].edges|
        invariant numChildren <= |g[x].edges| && Valid() && old(seenNodes.Keys) <= seenNodes.Keys
        invariant currentKeyPrefix == Trail(g, root, w) + g[x].prefix
        invariant FirstEdges(before, walks, w, numChildren)
        invariant runningNodeCount == |walks| - |before|
        invariant ChildrenExplored(g, root, walks, w, x, numChildren)
      {
        Remaining(g.Keys, old(seenNodes.Keys), seenNodes.Keys);
        var visited := VisitChild(x, numChildren, w, before);
        if visited.Malformed? {
          return visited;
        }
        runningNodeCount := runningNodeCount + visited.nodes;
        numChildren := numChildren + 1;
      }
      currentKeyPrefix := currentKeyPrefix[..originalLen];
      FineInner(g, root, w, x);
      if !InCapacityRange(g[x].ty, numChildren) {
        NotFine(g, root, w);
        WrongCount(g, root, w, x);
        return Malformed(WrongChildrenCount(currentKeyPrefix, g[x].ty, numChildren));
      }
      ExploredInner(g, root, walks, w, x);
      return Counted(runningNodeCount + 1);
    }

    /** A child that has not been seen before. */
    method VisitNew(c: N, ghost v: seq<nat>) returns (r: CheckResult<N>)
      requires Valid() && c in g && c !in seenNodes && Walk(g, root, v) == Some(c)
      requires currentKeyPrefix == Trail(g, root, v)
      requires NotPassed(walks[c := v], v) && UpTo(walks[c := v], v)
      modifies this
      ensures Valid() && old(seenNodes.Keys) <= seenNodes.Keys
      ensures r.Counted? ==> currentKeyPrefix == old(currentKeyPrefix) && Extends(old(walks)[c := v], walks, v)
      ensures r.Counted? ==> Explored(g, root, walks, v, c) && r.nodes == |walks| - |old(walks)[c := v]| + 1
      ensures r.Malformed? ==> !WellFormed(g, root) && Explains(g, root, r.error)
      decreases |g.Keys - seenNodes.Keys|, 0
    {
      hide Closed, Recorded, Explored, NotPassed, WellFormed, Walk, Trail, Extends, Spelled, UpTo, Explains;
      See(c, v);
      r := Visit(c, v);
    }

    /** One round of the loop in `visit_inner_node`: the child at edge `i`. */
    method VisitChild(x: N, i: nat, ghost w: seq<nat>, ghost before: map<N, seq<nat>>) returns (r: CheckResult<N>)
      requires Valid() && x in g && g[x].GraphInner? && i < |g[x].edges| && Walk(g, root, w) == Some(x)
      requires currentKeyPrefix == Trail(g, root, w) + g[x].prefix
      requires FirstEdges(before, walks, w, i) && NotPassed(before, w) && UpTo(before, w)
      requires ChildrenExplored(g, root, walks, w, x, i)
      modifies this
      ensures Valid() && old(seenNodes.Keys) <= seenNodes.Keys
      ensures r.Counted? ==> currentKeyPrefix == old(currentKeyPrefix) && FirstEdges(before, walks, w, i + 1)
      ensures r.Counted? ==> ChildrenExplored(g, root, walks, w, x, i + 1) && r.nodes == |walks| - |old(walks)|
      ensures r.Malformed? ==> !WellFormed(g, root) && Explains(g, root, r.error)
      decreases |g.Keys - seenNodes.Keys|, 1
    {
      hide Closed, Recorded, Explored, ExploredAt, NotPassed, WellFormed, Then, ChildrenExplored, Walk, Trail,
        FirstEdges, Extends, Spelled, UpTo, Explains, Earlier, WellFormedChecker.Valid;
      Facts();
      var (keyByte, child) := g[x].edges[i];
      currentKeyPrefix := currentKeyPrefix + [keyByte];
      WalkChild(g, root, w, i);
      ghost var was, v := walks, Then(w, i);
      EarlierChild(before, was, w, i, child);
      if child in seenNodes {
        SeenTwice(g, root, before, was, w, i, child);
        LoopExplained(g, root, was, seenNodes, v, child);
        return Malformed(LoopFound(child, seenNodes[child], currentKeyPrefix));
      }
      ChildNotPassed(before, was, w, i, child);
      r := VisitNew(child, v);
      if r.Malformed? {
        return;
      }
      ExtendsChild(before, was, walks, w, i, child);
      OneMoreExplored(g, root, was, walks, w, x, i);
      assert currentKeyPrefix[|currentKeyPrefix| - 1] == keyByte;
      currentKeyPrefix := currentKeyPrefix[..|currentKeyPrefix| - 1];
    }
  }

  lemma SpelledMore<N(!new)>(g: Graph<N>, root: N, walks: map<N, seq<nat>>, seen: map<N, Key>, c: N, v: seq<nat>)
    requires Closed(g) && root in g && Spelled(g, root, walks, seen) && Walk(g, root, v) == Some(c)
    ensures Spelled(g, root, walks[c := v], seen[c := Trail(g, root, v)])
  {
  }

  lemma WrongCount<N(!new)>(g: Graph<N>, root: N, w: seq<nat>, x: N)
    requires Closed(g) && root in g && Walk(g, root, w) == Some(x) && g[x].GraphInner?
    requires !InCapacityRange(g[x].ty, |g[x].edges|)
    ensures Explains(g, root, WrongChildrenCount(Trail(g, root, w), g[x].ty, |g[x].edges|))
  {
    assert CountAt(g, root, w, Trail(g, root, w), g[x].ty, |g[x].edges|);
  }

  lemma LoopExplained<N(!new)>(g: Graph<N>, root: N, walks: map<N, seq<nat>>, seen: map<N, Key>, v: seq<nat>, c: N)
    requires Closed(g) && root in g && Recorded(g, root, walks) && Spelled(g, root, walks, seen)
    requires c in walks && Earlier(walks[c], v) && Walk(g, root, v) == Some(c)
    ensures Explains(g, root, LoopFound(c, seen[c], Trail(g, root, v)))
  {
    assert LoopAt(g, root, walks[c], v, c, seen[c], Trail(g, root, v));
  }

  lemma NoneExplored<N>(g: Graph<N>, root: N, walks: map<N, seq<nat>>, w: seq<nat>, x: N)
    requires Closed(g) && root in g && x in g && g[x].GraphInner?
    ensures ChildrenExplored(g, root, walks, w, x, 0)
  {
  }

  lemma FineInner<N>(g: Graph<N>, root: N, w: seq<nat>, x: N)
    requires Closed(g) && root in g && Walk(g, root, w) == Some(x) && g[x].GraphInner?
    ensures FineAt(g, root, w) <==> InCapacityRange(g[x].ty, |g[x].edges|)
  {
  }

  lemma RecordedMore<N(!new)>(g: Graph<N>, root: N, walks: map<N, seq<nat>>, c: N, v: seq<nat>)
    requires Closed(g) && root in g && Recorded(g, root, walks) && Walk(g, root, v) == Some(c)
    ensures Recorded(g, root, walks[c := v]) && c in g
  {
  }

  lemma SeenTwice<N(!new)>(g: Graph<N>, root: N, walks: map<N, seq<nat>>, more: map<N, seq<nat>>, w: seq<nat>, i: nat,
                    c: N)
    requires Closed(g) && root in g && Recorded(g, root, more) && FirstEdges(walks, more, w, i) && NotPassed(walks, w)
    requires c in more && Walk(g, root, Then(w, i)) == Some(c)
    ensures !WellFormed(g, root)
  {
    NewWalk(walks, more, w, i, c);
    LoopBreaks(g, root, more[c], Then(w, i));
  }

  lemma Remaining<N>(a: set<N>, b: set<N>, c: set<N>)
    requires b <= c
    ensures |a - c| <= |a - b|
  {
    Nodes.SubsetSize(a - c, a - b);
  }

  /** The nodes that the root leads to. */
  ghost predicate Reachable<N(!new)>(g: Graph<N>, root: N, x: N)
    requires Closed(g) && root in g
  {
    exists p :: Walk(g, root, p) == Some(x)
  }

  /** If every walk has been explored, then the graph is well formed, and the nodes
      seen are those that the root leads to. */
  lemma ExploredAll<N(!new)>(g: Graph<N>, root: N, walks: map<N, seq<nat>>)
    requires Closed(g) && root in g && Recorded(g, root, walks) && Explored(g, root, walks, [], root)
    ensures WellFormed(g, root)
    ensures forall x :: x in walks <==> Reachable(g, root, x)
    ensures forall x :: x in walks ==> Walk(g, root, walks[x]) == Some(x)
    ensures forall p {:trigger Walk(g, root, p)} :: Walk(g, root, p).Some? ==> Walk(g, root, p).value in walks
  {
    forall p ensures FineAt(g, root, p) {
      assert ExploredAt(g, root, walks, [], root, p);
      assert [] + p == p;
    }
    forall p, q | Walk(g, root, p).Some? && Walk(g, root, p) == Walk(g, root, q) ensures p == q {
      assert ExploredAt(g, root, walks, [], root, p) && ExploredAt(g, root, walks, [], root, q);
      assert [] + p == p && [] + q == q;
    }
    forall p | Walk(g, root, p).Some? ensures Walk(g, root, p).value in walks {
      assert ExploredAt(g, root, walks, [], root, p);
    }
    forall x ensures x in walks <==> Reachable(g, root, x) {
      if Reachable(g, root, x) {
        var p :| Walk(g, root, p) == Some(x);
        assert ExploredAt(g, root, walks, [], root, p);
      }
      if x in walks {
        assert Walk(g, root, walks[x]) == Some(x);
      }
    }
  }

  lemma StartsAtRoot<N>(g: Graph<N>, root: N)
    requires Closed(g) && root in g
    ensures Walk(g, root, []) == Some(root) && Trail(g, root, []) == []
  {
  }

  /** What it means for a graph to be well formed. */
  lemma WellFormedMeans<N(!new)>(g: Graph<N>, root: N)
    requires Closed(g) && root in g
    ensures WellFormed(g, root) <==>
      && (forall p, q {:trigger Walk(g, root, p), Walk(g, root, q)} ::
            Walk(g, root, p).Some? && Walk(g, root, p) == Walk(g, root, q) ==> p == q)
      && (forall p {:trigger Walk(g, root, p)} :: Walk(g, root, p).Some? ==>
            match g[Walk(g, root, p).value]
            case GraphLeaf(key) => Trail(g, root, p) <= key
            case GraphInner(Node4, _, edges) => 1 <= |edges| <= 4
            case GraphInner(Node16, _, edges) => 5 <= |edges| <= 16
            case GraphInner(Node48, _, edges) => 17 <= |edges| <= 48
            case GraphInner(Node256, _, edges) => 49 <= |edges| <= 255)
  {
    if WellFormed(g, root) {
      forall p | Walk(g, root, p).Some? ensures FineAt(g, root, p) {
      }
    } else if p :| !FineAt(g, root, p) {
      assert Walk(g, root, p).Some?;
    } else {
      var p, q :| Walk(g, root, p).Some? && Walk(g, root, p) == Walk(g, root, q) && p != q;
      assert Walk(g, root, p) == Walk(g, root, q);
    }
  }

  /** What an error means. */
  lemma ErrorMeans<N(!new)>(g: Graph<N>, root: N, error: MalformedTreeError<N>)
    requires Closed(g) && root in g && Explains(g, root, error)
    ensures
      match error
      case LoopFound(node, first, later) =>
        exists p, q ::
          && Walk(g, root, p) == Some(node) == Walk(g, root, q)
          && (p < q || exists i :: 0 <= i < |p| && i < |q| && p[..i] == q[..i] && p[i] < q[i])
          && Trail(g, root, p) == first && Trail(g, root, q) == later
      case WrongChildrenCount(prefix, ty, n) =>
        exists p ::
          && Walk(g, root, p).Some? && Trail(g, root, p) == prefix
          && var node := g[Walk(g, root, p).value];
             && node.GraphInner? && node.ty == ty && |node.edges| == n
             && (ty == Node4 ==> !(1 <= n <= 4)) && (ty == Node16 ==> !(5 <= n <= 16))
             && (ty == Node48 ==> !(17 <= n <= 48)) && (ty == Node256 ==> !(49 <= n <= 255))
      case PrefixMismatch(prefix, key) =>
        exists p ::
          && Walk(g, root, p).Some? && Trail(g, root, p) == prefix
          && g[Walk(g, root, p).value] == GraphLeaf(key) && !(prefix <= key)
  {
  }

  /** `check_tree`: on any finite graph the check ends. It accepts the graph exactly if
      no two walks lead to the same node, leaf keys start with the bytes on the way to
      them, and inner nodes have children in the range of their layout; then it counts
      the nodes that the root leads to. Otherwise the error tells where this fails: for
      a loop, the earlier of two walks to the node and then the later one. */
  method CheckTree<N(==, !new)>(g: Graph<N>, root: N) returns (r: CheckResult<N>, ghost walks: map<N, seq<nat>>)
    requires Closed(g) && root in g
    ensures r.Counted? <==> WellFormed(g, root)
    ensures r.Counted? <==>
      && (forall p, q {:trigger Walk(g, root, p), Walk(g, root, q)} ::
            Walk(g, root, p).Some? && Walk(g, root, p) == Walk(g, root, q) ==> p == q)
      && (forall p {:trigger Walk(g, root, p)} :: Walk(g, root, p).Some? ==>
            match g[Walk(g, root, p).value]
            case GraphLeaf(key) => Trail(g, root, p) <= key
            case GraphInner(Node4, _, edges) => 1 <= |edges| <= 4
            case GraphInner(Node16, _, edges) => 5 <= |edges| <= 16
            case GraphInner(Node48, _, edges) => 17 <= |edges| <= 48
            case GraphInner(Node256, _, edges) => 49 <= |edges| <= 255)
    ensures r.Counted? ==>
      && r.nodes == |walks|
      && (forall x :: x in walks ==> Walk(g, root, walks[x]) == Some(x))
      && (forall p {:trigger Walk(g, root, p)} :: Walk(g, root, p).Some? ==> Walk(g, root, p).value in walks)
    ensures r.Malformed? ==>
      match r.error
      case LoopFound(node, first, later) =>
        exists p, q ::
          && Walk(g, root, p) == Some(node) == Walk(g, root, q)
          && (p < q || exists i :: 0 <= i < |p| && i < |q| && p[..i] == q[..i] && p[i] < q[i])
          && Trail(g, root, p) == first && Trail(g, root, q) == later
      case WrongChildrenCount(prefix, ty, n) =>
        exists p ::
          && Walk(g, root, p).Some? && Trail(g, root, p) == prefix
          && var node := g[Walk(g, root, p).value];
             && node.GraphInner? && node.ty == ty && |node.edges| == n
             && (ty == Node4 ==> !(1 <= n <= 4)) && (ty == Node16 ==> !(5 <= n <= 16))
             && (ty == Node48 ==> !(17 <= n <= 48)) && (ty == Node256 ==> !(49 <= n <= 255))
      case PrefixMismatch(prefix, key) =>
        exists p ::
          && Walk(g, root, p).Some? && Trail(g, root, p) == prefix
          && g[Walk(g, root, p).value] == GraphLeaf(key) && !(prefix <= key)
  {
    hide Explored, Recorded, WellFormed, Extends, Walk, Trail, Explains, Spelled, Reachable;
    WellFormedMeans(g, root);
    var checker := new WellFormedChecker(g, root);
    assert NotPassed(checker.walks, []) && |checker.walks| == 1;
    StartsAtRoot(g, root);
    r := checker.Visit(root, []);
    walks := checker.walks;
    if r.Counted? {
      ExploredAll(g, root, walks);
    } else {
      ErrorMeans(g, root, r.error);
    }
  }

  lemma Shrinks<N>(a: set<N>, b: set<N>, x: N)
    requires b <= a && x in a && x !in b
    ensures |a - (b + {x})| < |a - b|
  {
    assert a - b == (a - (b + {x})) + {x};
  }
}
