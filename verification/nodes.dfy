/** Node pointers: a tagged reference to a leaf or to one of the four layouts. */
module Nodes {
  import opened Bytes
  import opened Headers
  import opened Layouts
  import opened Tries

  class LeafNode {
    var key: Key
    var value: Value

    constructor (key: Key, value: Value)
      ensures this.key == key && this.value == value
    {
      this.key, this.value := key, value;
    }
  }

  /** `GrownNode` of each layout. */
  function Larger(ty: NodeType): NodeType {
    match ty
    case Node4 => Node16
    case Node16 => Node48
    case Node48 => Node256
    case Node256 => Node256
  }

  /** `ShrunkNode` of each layout. */
  function Smaller(ty: NodeType): NodeType {
    match ty
    case Node4 => Node4
    case Node16 => Node4
    case Node48 => Node16
    case Node256 => Node48
  }

  datatype NodePtr =
    | Node4Ptr(n4: InnerNodeCompressed<NodePtr>)
    | Node16Ptr(n16: InnerNodeCompressed<NodePtr>)
    | Node48Ptr(n48: InnerNode48<NodePtr>)
    | Node256Ptr(n256: InnerNode256<NodePtr>)
    | LeafPtr(leaf: LeafNode)
  {
    /** The objects that make up the node; no two nodes share any. */
    ghost function Repr(): set<object> {
      match this
      case Node4Ptr(n) => n.Repr()
      case Node16Ptr(n) => n.Repr()
      case Node48Ptr(n) => n.Repr()
      case Node256Ptr(n) => n.Repr()
      case LeafPtr(l) => {l}
    }

    ghost predicate Valid()
      reads Repr()
    {
      match this
      case Node4Ptr(n) => n.Valid() && n.size == 4
      case Node16Ptr(n) => n.Valid() && n.size == 16
      case Node48Ptr(n) => n.Valid()
      case Node256Ptr(n) => n.Valid()
      case LeafPtr(l) => true
    }

    lemma ReprNonempty()
      ensures Repr() != {}
    {
      match this
      case Node4Ptr(n) => assert n in Repr();
      case Node16Ptr(n) => assert n in Repr();
      case Node48Ptr(n) => assert n in Repr();
      case Node256Ptr(n) => assert n in Repr();
      case LeafPtr(l) => assert l in Repr();
    }

    function Header(): Header
      requires !LeafPtr?
    {
      match this
      case Node4Ptr(n) => n.header
      case Node16Ptr(n) => n.header
      case Node48Ptr(n) => n.header
      case Node256Ptr(n) => n.header
    }

    function Type(): NodeType
      requires !LeafPtr?
    {
      match this
      case Node4Ptr(_) => Node4
      case Node16Ptr(_) => Node16
      case Node48Ptr(_) => Node48
      case Node256Ptr(_) => Node256
    }

    ghost function Kids(): map<byte, NodePtr>
      reads Repr()
    {
      match this
      case Node4Ptr(n) => n.kids
      case Node16Ptr(n) => n.kids
      case Node48Ptr(n) => n.kids
      case Node256Ptr(n) => n.kids
      case LeafPtr(_) => map[]
    }

    /** Facts about a valid inner node that hold for every layout. */
    lemma ValidFacts()
      requires !LeafPtr? && Valid()
      ensures Header() in Repr() && Header().prefix in Repr() && Header().Valid()
      ensures Header().numChildren == |Kids()| <= Type().UpperCapacity()
    {
      if Node4Ptr? {
        ListsSize(n4.keys[..n4.header.numChildren], n4.ptrs, n4.kids);
      } else if Node16Ptr? {
        ListsSize(n16.keys[..n16.header.numChildren], n16.ptrs, n16.kids);
      } else if Node256Ptr? {
        AtMost256(n256.kids);
      }
    }

    /** A node stays valid when only its header's prefix changes. */
    twostate lemma HeaderChanged()
      requires !LeafPtr? && old(Valid()) && Header().Valid()
      requires Header().numChildren == old(Header().numChildren)
      requires unchanged(Repr() - {Header(), Header().prefix})
      ensures Valid() && Kids() == old(Kids())
    {
      match this
      case Node4Ptr(n) => n.HeaderChanged();
      case Node16Ptr(n) => n.HeaderChanged();
      case Node48Ptr(n) => n.HeaderChanged();
      case Node256Ptr(n) => n.HeaderChanged();
    }

    method IsFull() returns (full: bool)
      requires !LeafPtr? && Valid()
      ensures full <==> |Kids()| == Type().UpperCapacity()
    {
      ValidFacts();
      full := Header().numChildren >= Type().UpperCapacity();
    }

    method LookupChild(b: byte) returns (r: Option<NodePtr>)
      requires !LeafPtr? && Valid()
      ensures r == if b in Kids() then Some(Kids()[b]) else None
    {
      match this
      case Node4Ptr(n) => r := n.LookupChild(b);
      case Node16Ptr(n) => r := n.LookupChild(b);
      case Node48Ptr(n) => r := n.LookupChild(b);
      case Node256Ptr(n) => r := n.LookupChild(b);
    }

    method WriteChild(b: byte, c: NodePtr)
      requires !LeafPtr? && Valid()
      requires b in Kids() || |Kids()| < Type().UpperCapacity()
      modifies Repr()
      ensures Valid() && Header().full == old(Header().full)
      ensures Kids() == old(Kids())[b := c]
    {
      ValidFacts();
      match this
      case Node4Ptr(n) => n.WriteChild(b, c);
      case Node16Ptr(n) => n.WriteChild(b, c);
      case Node48Ptr(n) => n.WriteChild(b, c);
      case Node256Ptr(n) => n.WriteChild(b, c);
    }

    method RemoveChild(b: byte) returns (r: Option<NodePtr>)
      requires !LeafPtr? && Valid()
      modifies Repr()
      ensures Valid() && Header().full == old(Header().full)
      ensures r == if b in old(Kids()) then Some(old(Kids())[b]) else None
      ensures Kids() == old(Kids()) - {b}
    {
      match this
      case Node4Ptr(n) => r := n.RemoveChild(b);
      case Node16Ptr(n) => r := n.RemoveChild(b);
      case Node48Ptr(n) => r := n.RemoveChild(b);
      case Node256Ptr(n) => r := n.RemoveChild(b);
    }

    /** A copy of the node in the next larger layout. A `Node256` never grows. */
    method Grow() returns (r: NodePtr)
      requires !LeafPtr? && !Node256Ptr? && Valid()
      ensures !r.LeafPtr? && fresh(r.Repr()) && r.Valid()
      ensures r.Type() == Larger(Type())
      ensures r.Kids() == Kids() && r.Header().full == Header().full
    {
      match this
      case Node4Ptr(n) =>
        var g := n.ChangeBlockSize(16);
        r := Node16Ptr(g);
      case Node16Ptr(n) =>
        var g := n.GrowNode48();
        r := Node48Ptr(g);
      case Node48Ptr(n) =>
        var g := n.Grow();
        r := Node256Ptr(g);
    }

    /** A copy of the node in the next smaller layout. A `Node4` never shrinks. */
    method Shrink() returns (r: NodePtr)
      requires !LeafPtr? && Valid() && Type().ShouldShrink(|Kids()|)
      ensures !r.LeafPtr? && fresh(r.Repr()) && r.Valid()
      ensures r.Type() == Smaller(Type())
      ensures r.Kids() == Kids() && r.Header().full == Header().full
    {
      ValidFacts();
      match this
      case Node16Ptr(n) =>
        var g := n.ChangeBlockSize(4);
        r := Node4Ptr(g);
      case Node48Ptr(n) =>
        var g := n.Shrink();
        r := Node16Ptr(g);
      case Node256Ptr(n) =>
        var g := n.Shrink();
        r := Node48Ptr(g);
    }

    method Iter() returns (ks: seq<byte>, cs: seq<NodePtr>)
      requires !LeafPtr? && Valid()
      ensures Lists(ks, cs, Kids())
    {
      match this
      case Node4Ptr(n) => ks, cs := n.Iter();
      case Node16Ptr(n) => ks, cs := n.Iter();
      case Node48Ptr(n) => ks, cs := n.Iter();
      case Node256Ptr(n) => ks, cs := n.Iter();
    }

    method Min() returns (b: byte, c: NodePtr)
      requires !LeafPtr? && Valid() && Kids() != map[]
      ensures IsMin(Kids(), b, c)
    {
      match this
      case Node4Ptr(n) => b, c := n.Min();
      case Node16Ptr(n) => b, c := n.Min();
      case Node48Ptr(n) => b, c := n.Min();
      case Node256Ptr(n) => b, c := n.Min();
    }

    method Max() returns (b: byte, c: NodePtr)
      requires !LeafPtr? && Valid() && Kids() != map[]
      ensures IsMax(Kids(), b, c)
    {
      match this
      case Node4Ptr(n) => b, c := n.Max();
      case Node16Ptr(n) => b, c := n.Max();
      case Node48Ptr(n) => b, c := n.Max();
      case Node256Ptr(n) => b, c := n.Max();
    }
  }

  /** A node has at most one child for each of the 256 key bytes. */
  lemma AtMost256<C>(m: map<byte, C>)
    ensures |m| <= 256
  {
    SubsetSize(m.Keys, BytesBelow(256));
  }

  ghost function BytesBelow(n: nat): (s: set<byte>)
    requires n <= 256
    ensures |s| == n && forall b: byte :: b in s <==> b < n
  {
    if n == 0 then {} else BytesBelow(n - 1) + {n - 1}
  }

  lemma {:induction false} SubsetSize<T>(a: set<T>, b: set<T>)
    requires a <= b
    ensures |a| <= |b|
  {
    if a != {} {
      var x :| x in a;
      SubsetSize(a - {x}, b - {x});
    }
  }
}
