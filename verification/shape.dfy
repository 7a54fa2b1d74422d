/** How the objects on the heap represent a logical tree. */
module Shapes {
  import opened Bytes
  import opened Layouts
  import opened Tries
  import opened Nodes

  /** The number of children fixes the layout of a node. */
  predicate Fits(type_: NodeType, n: nat) {
    match type_
    case Node4 => 2 <= n <= 4
    case Node16 => 5 <= n <= 16
    case Node48 => 17 <= n <= 48
    case Node256 => 49 <= n <= 256
  }

  /** The layout of a node with so many children. */
  function TypeFor(n: nat): (ty: NodeType)
    ensures 2 <= n <= 256 ==> Fits(ty, n)
  {
    if n <= 4 then Node4 else if n <= 16 then Node16 else if n <= 48 then Node48 else Node256
  }

  /** Only one layout fits. */
  lemma FitsOnce(ty: NodeType, n: nat)
    requires Fits(ty, n)
    ensures ty == TypeFor(n)
  {
  }

  /** The child pointers a node must have: where each child is stored. */
  ghost function Pointers(at: map<Key, NodePtr>, kids: map<byte, Key>): map<byte, NodePtr>
    requires forall b :: b in kids ==> kids[b] in at
  {
    map b | b in kids :: at[kids[b]]
  }

  /** The node stored at `p` is the node that the tree has at path `x`. */
  ghost predicate Linked(p: NodePtr, x: Key, d: Desc, pointers: map<byte, NodePtr>)
    reads p.Repr()
  {
    match d
    case Leaf(_, value) => p.LeafPtr? && p.leaf.key == x && p.leaf.value == value
    case Inner(start, _) =>
      && !p.LeafPtr? && p.Valid() && p.Kids() == pointers && Fits(p.Type(), |pointers|)
      && start <= |x| && p.Header().full == x[start..]
  }

  /** A logical tree, the place of each of its nodes, the path of its root, and
      a set of objects that holds all its nodes. */
  datatype Shape = Shape(t: Trie, at: map<Key, NodePtr>, r: Key, repr: set<object>) {

    ghost predicate WF() {
      && Tries.WF(t, r) && at.Keys == t.Keys
      && (forall x {:trigger at[x].Repr()} | x in at :: at[x].Repr() <= repr)
      && (forall x, y {:trigger at[x].Repr(), at[y].Repr()} | x in at && y in at && x != y ::
            at[x].Repr() !! at[y].Repr())
    }

    ghost function PointersOf(x: Key): map<byte, NodePtr>
      requires WF() && x in t
    {
      if t[x].Inner? then
        assert forall b :: b in t[x].kids ==> KidOk(t, x, b);
        Pointers(at, t[x].kids)
      else map[]
    }

    ghost predicate LinkedAt(x: Key)
      requires WF() && x in t
      reads at[x].Repr()
    {
      Linked(at[x], x, t[x], PointersOf(x))
    }

    /** Every node of the tree is where `at` says it is. */
    ghost predicate Valid()
      reads repr
    {
      WF() && forall x {:trigger LinkedAt(x)} | x in t :: LinkedAt(x)
    }
  }

  /** Every node other than those at `xs` is where `at` says it is. */
  ghost predicate LinkedElsewhere(s: Shape, xs: set<Key>)
    reads s.repr
  {
    s.WF() && forall z {:trigger s.LinkedAt(z)} | z in s.t && z !in xs :: s.LinkedAt(z)
  }

  lemma ShapeKeys(s: Shape)
    requires s.WF()
    ensures Tries.WF(s.t, s.r) && s.at.Keys == s.t.Keys && s.r in s.t
  {
  }

  lemma ValidShape(s: Shape)
    requires s.Valid()
    ensures s.WF() && Tries.WF(s.t, s.r) && s.at.Keys == s.t.Keys && s.r in s.t
  {
  }

  lemma KeysSize<A, B, C>(m: map<A, B>, n: map<A, C>)
    requires m.Keys == n.Keys
    ensures |m| == |n|
  {
    assert |m| == |m.Keys| && |n| == |n.Keys|;
  }

  /** The node at path `x` is stored at `p`. */
  ghost predicate StoredAt(s: Shape, x: Key, p: NodePtr)
    reads s.repr
  {
    s.Valid() && x in s.t && s.at[x] == p
  }

  /** What is stored for a node, in terms of the logical tree. */
  lemma Stored(s: Shape, x: Key, p: NodePtr)
    requires StoredAt(s, x, p)
    ensures s.WF() && NodeOk(s.t, x) && (x != s.r ==> UpOk(s.t, x))
    ensures s.t[x].Leaf? ==> p.LeafPtr? && p.leaf.key == x && p.leaf.value == s.t[x].value
    ensures s.t[x].Inner? ==>
      && !p.LeafPtr? && p.Valid() && p.Kids().Keys == s.t[x].kids.Keys
      && Fits(p.Type(), |p.Kids()|) && |p.Kids()| == |s.t[x].kids| && p.Kids() != map[]
      && p.Header().full == x[s.t[x].start..]
  {
    assert s.LinkedAt(x);
    if s.t[x].Inner? {
      KeysSize(s.PointersOf(x), s.t[x].kids);
      assert |s.PointersOf(x)| > 0;
    }
  }

  /** The child pointer of an inner node leads to the child in the logical tree. */
  lemma StoredKid(s: Shape, x: Key, p: NodePtr, b: byte)
    requires StoredAt(s, x, p) && s.t[x].Inner? && b in s.t[x].kids
    ensures !p.LeafPtr? && p.Valid() && b in p.Kids()
    ensures KidOk(s.t, x, b) && StoredAt(s, s.t[x].kids[b], p.Kids()[b])
    ensures |s.t[x].kids[b]| < KEY_LIMIT && x < s.t[x].kids[b]
  {
    assert s.LinkedAt(x) && KidOk(s.t, x, b) && NodeOk(s.t, s.t[x].kids[b]);
  }

  /** Which edges a node has does not matter beyond where they point. */
  lemma LinkedAlike(p: NodePtr, x: Key, d: Desc, e: Desc, pointers: map<byte, NodePtr>)
    requires Linked(p, x, d, pointers)
    requires (e.Leaf? <==> d.Leaf?) && e.start == d.start && (e.Leaf? ==> e == d)
    ensures Linked(p, x, e, pointers)
  {
  }
}
