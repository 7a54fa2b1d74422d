/** The four layouts of inner nodes. Each is an ordered map from key bytes to
    children; `kids` is that map, and `C` is the type of child pointers. */
module Layouts {
  import opened Bytes
  import opened Headers

  datatype NodeType = Node4 | Node16 | Node48 | Node256 {
    function UpperCapacity(): nat {
      match this
      case Node4 => 4
      case Node16 => 16
      case Node48 => 48
      case Node256 => 256
    }

    predicate ShouldShrink(numChildren: nat) {
      match this
      case Node4 => false
      case Node16 => numChildren <= 4
      case Node48 => numChildren <= 16
      case Node256 => numChildren <= 48
    }
  }

  ghost predicate Sorted(ks: seq<byte>) {
    forall i, j :: 0 <= i < j < |ks| ==> ks[i] < ks[j]
  }

  /** Position `i` of the listing holds an entry of the map. */
  ghost predicate Holds<C>(m: map<byte, C>, b: byte, c: C) {
    b in m && m[b] == c
  }

  ghost predicate HoldsAll<C>(ks: seq<byte>, cs: seq<C>, m: map<byte, C>)
    requires |ks| == |cs|
  {
    forall i {:trigger Holds(m, ks[i], cs[i])} | 0 <= i < |ks| :: Holds(m, ks[i], cs[i])
  }

  ghost predicate Covers<C>(ks: seq<byte>, m: map<byte, C>) {
    forall b :: b in m ==> b in ks
  }

  /** `ks` and `cs` list the entries of `m` in increasing order of key byte. */
  ghost predicate Lists<C>(ks: seq<byte>, cs: seq<C>, m: map<byte, C>) {
    && |ks| == |cs| && Sorted(ks)
    && HoldsAll(ks, cs, m)
    && Covers(ks, m)
  }

  /** A listing has one position for each entry. */
  lemma {:induction false} ListsSize<C>(ks: seq<byte>, cs: seq<C>, m: map<byte, C>)
    requires Lists(ks, cs, m)
    ensures |ks| == |m|
  {
    if ks == [] {
      assert m == map[];
    } else {
      var n := |ks| - 1;
      var rest := m - {ks[n]};
      assert Holds(m, ks[n], cs[n]);
      assert m == rest[ks[n] := cs[n]];
      assert ks == ks[..n] + [ks[n]];
      forall i | 0 <= i < n ensures Holds(rest, ks[i], cs[i]) {
        assert Holds(m, ks[i], cs[i]);
      }
      ListsSize(ks[..n], cs[..n], rest);
    }
  }

  lemma SortedMember(ks: seq<byte>, ls: seq<byte>, i: nat)
    requires Sorted(ks) && Sorted(ls) && i < |ks| && i < |ls|
    requires ks[..i] == ls[..i] && ls[i] in ks
    ensures ks[i] <= ls[i]
  {
    assert forall j :: 0 <= j < i ==> ks[j] == ks[..i][j] == ls[j] < ls[i];
  }

  /** There is only one listing: all layouts iterate in the same order. */
  lemma {:induction false} ListsUnique<C>(ks: seq<byte>, cs: seq<C>, ls: seq<byte>, ds: seq<C>, m: map<byte, C>)
    requires Lists(ks, cs, m) && Lists(ls, ds, m)
    ensures ks == ls && cs == ds
  {
    ListsSize(ks, cs, m);
    ListsSize(ls, ds, m);
    ListsAgree(ks, cs, ls, ds, m, |ks|);
    assert ks[..|ks|] == ks && ls[..|ls|] == ls;
    forall i | 0 <= i < |ks| ensures cs[i] == ds[i] {
      assert Holds(m, ks[i], cs[i]) && Holds(m, ls[i], ds[i]);
    }
  }

  lemma {:induction false} ListsAgree<C>(ks: seq<byte>, cs: seq<C>, ls: seq<byte>, ds: seq<C>, m: map<byte, C>, n: nat)
    requires Lists(ks, cs, m) && Lists(ls, ds, m) && n <= |ks| == |ls|
    ensures ks[..n] == ls[..n]
  {
    if n > 0 {
      ListsAgree(ks, cs, ls, ds, m, n - 1);
      assert Holds(m, ks[n - 1], cs[n - 1]) && Holds(m, ls[n - 1], ds[n - 1]);
      SortedMember(ks, ls, n - 1);
      SortedMember(ls, ks, n - 1);
      assert ks[..n] == ks[..n - 1] + [ks[n - 1]] && ls[..n] == ls[..n - 1] + [ls[n - 1]];
    }
  }

  lemma ListsUpdate<C>(ks: seq<byte>, cs: seq<C>, m: map<byte, C>, i: nat, c: C)
    requires Lists(ks, cs, m) && i < |ks|
    ensures Lists(ks, cs[i := c], m[ks[i] := c])
  {
    forall j | 0 <= j < |ks| ensures Holds(m[ks[i] := c], ks[j], cs[i := c][j]) {
      assert Holds(m, ks[j], cs[j]);
    }
    assert Holds(m, ks[i], cs[i]);
  }

  lemma SortedInsert(ks: seq<byte>, i: nat, b: byte)
    requires Sorted(ks) && i <= |ks|
    requires (i > 0 ==> ks[i - 1] < b) && (i < |ks| ==> b < ks[i])
    ensures b !in ks && Sorted(ks[..i] + [b] + ks[i..])
  {
  }

  lemma HoldsInsert<C>(ks: seq<byte>, cs: seq<C>, m: map<byte, C>, i: nat, b: byte, c: C)
    requires |ks| == |cs| && HoldsAll(ks, cs, m) && i <= |ks| && b !in ks
    ensures HoldsAll(ks[..i] + [b] + ks[i..], cs[..i] + [c] + cs[i..], m[b := c])
  {
    var ls, ds := ks[..i] + [b] + ks[i..], cs[..i] + [c] + cs[i..];
    forall j | 0 <= j < |ls| ensures Holds(m[b := c], ls[j], ds[j]) {
      if j != i {
        var p := if j < i then j else j - 1;
        assert ls[j] == ks[p] && ds[j] == cs[p] && Holds(m, ks[p], cs[p]);
      }
    }
  }

  lemma CoversInsert<C>(ks: seq<byte>, m: map<byte, C>, i: nat, b: byte, c: C)
    requires Covers(ks, m) && i <= |ks|
    ensures Covers(ks[..i] + [b] + ks[i..], m[b := c])
  {
    assert ks == ks[..i] + ks[i..];
  }

  lemma ListsInsert<C>(ks: seq<byte>, cs: seq<C>, m: map<byte, C>, i: nat, b: byte, c: C)
    requires Lists(ks, cs, m) && i <= |ks|
    requires (i > 0 ==> ks[i - 1] < b) && (i < |ks| ==> b < ks[i])
    ensures b !in m
    ensures Lists(ks[..i] + [b] + ks[i..], cs[..i] + [c] + cs[i..], m[b := c])
  {
    SortedInsert(ks, i, b);
    HoldsInsert(ks, cs, m, i, b, c);
    CoversInsert(ks, m, i, b, c);
  }

  lemma SortedRemove(ks: seq<byte>, i: nat)
    requires Sorted(ks) && i < |ks|
    ensures ks[i] !in ks[..i] + ks[i + 1..] && Sorted(ks[..i] + ks[i + 1..])
  {
  }

  lemma HoldsRemove<C>(ks: seq<byte>, cs: seq<C>, m: map<byte, C>, i: nat)
    requires |ks| == |cs| && HoldsAll(ks, cs, m) && i < |ks| && ks[i] !in ks[..i] + ks[i + 1..]
    ensures HoldsAll(ks[..i] + ks[i + 1..], cs[..i] + cs[i + 1..], m - {ks[i]})
  {
    var ls, ds, m' := ks[..i] + ks[i + 1..], cs[..i] + cs[i + 1..], m - {ks[i]};
    forall j | 0 <= j < |ls| ensures Holds(m', ls[j], ds[j]) {
      var p := if j < i then j else j + 1;
      assert ls[j] == ks[p] && ds[j] == cs[p] && Holds(m, ks[p], cs[p]);
    }
  }

  lemma ListsRemove<C>(ks: seq<byte>, cs: seq<C>, m: map<byte, C>, i: nat)
    requires Lists(ks, cs, m) && i < |ks|
    ensures Lists(ks[..i] + ks[i + 1..], cs[..i] + cs[i + 1..], m - {ks[i]})
  {
    SortedRemove(ks, i);
    HoldsRemove(ks, cs, m, i);
    assert ks == ks[..i] + [ks[i]] + ks[i + 1..];
  }

  /** The slots hold the children `cs`. */
  ghost predicate Slots<C>(ss: seq<Option<C>>, cs: seq<C>) {
    |ss| == |cs| && forall i :: 0 <= i < |cs| ==> ss[i] == Some(cs[i])
  }

  lemma SlotsInsert<C>(ss: seq<Option<C>>, cs: seq<C>, i: nat, c: C)
    requires Slots(ss, cs) && i <= |cs|
    ensures Slots(ss[..i] + [Some(c)] + ss[i..], cs[..i] + [c] + cs[i..])
  {
  }

  lemma SlotsRemove<C>(ss: seq<Option<C>>, cs: seq<C>, i: nat)
    requires Slots(ss, cs) && i < |cs|
    ensures Slots(ss[..i] + ss[i + 1..], cs[..i] + cs[i + 1..])
  {
  }

  /** `ks` and `cs` list the entries of `m` with a key byte below `bound`. */
  ghost predicate ListsBelow<C>(ks: seq<byte>, cs: seq<C>, m: map<byte, C>, bound: nat) {
    && |ks| == |cs| && Sorted(ks) && HoldsAll(ks, cs, m)
    && (forall i :: 0 <= i < |ks| ==> ks[i] < bound)
    && (forall b :: b in m && b < bound ==> b in ks)
  }

  /** One step of an iteration over all key bytes. */
  lemma ListsBelowStep<C>(ks: seq<byte>, cs: seq<C>, m: map<byte, C>, b: byte)
    requires ListsBelow(ks, cs, m, b)
    ensures b !in m ==> ListsBelow(ks, cs, m, b + 1)
    ensures b in m ==> ListsBelow(ks + [b], cs + [m[b]], m, b + 1)
  {
    if b in m {
      forall i | 0 <= i < |ks| + 1 ensures Holds(m, (ks + [b])[i], (cs + [m[b]])[i]) {
        if i < |ks| {
          assert Holds(m, ks[i], cs[i]);
        }
      }
    }
  }

  /** The ends of a listing are the least and the greatest entry. */
  lemma ListsEnds<C>(ks: seq<byte>, cs: seq<C>, m: map<byte, C>)
    requires Lists(ks, cs, m) && m != map[]
    ensures ks != [] && IsMin(m, ks[0], cs[0]) && IsMax(m, ks[|ks| - 1], cs[|cs| - 1])
  {
    var b :| b in m;
    assert b in ks;
    assert Holds(m, ks[0], cs[0]) && Holds(m, ks[|ks| - 1], cs[|cs| - 1]);
  }

  ghost predicate IsMin<C>(m: map<byte, C>, b: byte, c: C) {
    b in m && m[b] == c && forall d :: d in m ==> b <= d
  }

  ghost predicate IsMax<C>(m: map<byte, C>, b: byte, c: C) {
    b in m && m[b] == c && forall d :: d in m ==> d <= b
  }

  datatype WritePoint = Existing(index: nat) | Last(index: nat) | Shift(index: nat)

  /** `InnerNode4` and `InnerNode16`: the first `numChildren` slots hold the
      entries in increasing order of key byte; the other slots are unreadable. */
  class InnerNodeCompressed<C> {
    const size: nat
    const header: Header
    const keys: array<byte>
    const slots: array<Option<C>>
    ghost var ptrs: seq<C>
    ghost var kids: map<byte, C>

    ghost function Repr(): set<object> {
      {this, header, header.prefix, keys, slots}
    }

    ghost predicate Valid()
      reads Repr()
    {
      && header.Valid() && keys != header.prefix
      && keys.Length == slots.Length == size && header.numChildren <= size <= 16
      && |ptrs| == header.numChildren
      && (forall i :: 0 <= i < header.numChildren ==> slots[i] == Some(ptrs[i]))
      && Lists(keys[..header.numChildren], ptrs, kids)
    }

    constructor FromHeader(size: nat, header: Header)
      requires size <= 16 && header.Valid() && header.numChildren == 0
      ensures Valid() && this.size == size && this.header == header && kids == map[]
      ensures fresh(Repr() - {header, header.prefix})
    {
      this.size, this.header := size, header;
      keys := new byte[size](_ => 0);
      slots := new Option<C>[size](_ => None);
      ptrs, kids := [], map[];
    }

    method LookupChildIndex(b: byte) returns (r: Option<nat>)
      requires Valid()
      ensures r.None? ==> b !in kids
      ensures r.Some? ==> r.value < header.numChildren && keys[r.value] == b
    {
      var i := 0;
      while i < header.numChildren
        invariant i <= header.numChildren
        invariant b !in keys[..i]
      {
        if b == keys[i] {
          return Some(i);
        }
        i := i + 1;
      }
      return None;
    }

    method FindWritePoint(b: byte) returns (w: WritePoint)
      requires Valid()
      ensures w.Existing? ==> w.index < header.numChildren && keys[w.index] == b
      ensures w.Last? ==> w.index == header.numChildren
      ensures w.Shift? ==> w.index < header.numChildren && b < keys[w.index]
      ensures w.index > 0 ==> keys[w.index - 1] < b
    {
      var i := 0;
      while i < header.numChildren
        invariant i <= header.numChildren
        invariant i > 0 ==> keys[i - 1] < b
      {
        if b < keys[i] {
          return Shift(i);
        } else if b == keys[i] {
          return Existing(i);
        }
        i := i + 1;
      }
      return Last(i);
    }

    method LookupChild(b: byte) returns (r: Option<C>)
      requires Valid()
      ensures r == if b in kids then Some(kids[b]) else None
    {
      var index := LookupChildIndex(b);
      if index.None? {
        return None;
      }
      assert Holds(kids, keys[..header.numChildren][index.value], ptrs[index.value]);
      return Some(slots[index.value].value);
    }

    method WriteChild(b: byte, c: C)
      requires Valid() && (b in kids || header.numChildren < size)
      modifies Repr()
      ensures Valid() && header.full == old(header.full)
      ensures kids == old(kids)[b := c]
    {
      ghost var ks := keys[..header.numChildren];
      var w := FindWritePoint(b);
      if w.Existing? {
        assert b == ks[w.index];
        ListsUpdate(ks, ptrs, kids, w.index, c);
        slots[w.index] := Some(c);
        ptrs, kids := ptrs[w.index := c], kids[b := c];
      } else {
        ListsInsert(ks, ptrs, kids, w.index, b, c);
        if w.Last? {
          WriteChildUnchecked(b, c);
        } else {
          WriteChildShift(w.index, b, c);
        }
      }
    }

    /** Moves the entries from `at` on up by one and writes an entry there. */
    method OpenGap(at: nat, b: byte, c: C)
      requires header.Valid() && keys != header.prefix && keys.Length == slots.Length
      requires at <= header.numChildren < keys.Length
      modifies keys, slots
      ensures header.Valid()
      ensures keys[..header.numChildren + 1] == old(keys[..at]) + [b] + old(keys[at..header.numChildren])
      ensures slots[..header.numChildren + 1] == old(slots[..at]) + [Some(c)] + old(slots[at..header.numChildren])
    {
      InsertAt(keys, at, header.numChildren, b);
      InsertAt(slots, at, header.numChildren, Some(c));
    }

    /** Writes an entry at `at`, after moving the later entries up by one. */
    method WriteChildShift(at: nat, b: byte, c: C)
      requires Valid() && at < header.numChildren < size
      requires at > 0 ==> keys[at - 1] < b
      requires b < keys[at]
      modifies Repr()
      ensures Valid() && header.full == old(header.full)
      ensures kids == old(kids)[b := c]
    {
      hide Lists;
      var n := header.numChildren;
      ghost var ks, ss := keys[..n], slots[..n];
      ListsInsert(ks, ptrs, kids, at, b, c);
      SlotsInsert(ss, ptrs, at, c);
      OpenGap(at, b, c);
      assert keys[..n + 1] == ks[..at] + [b] + ks[at..] by {
        assert ks[..at] == old(keys[..at]) && ks[at..] == old(keys[at..n]);
      }
      assert slots[..n + 1] == ss[..at] + [Some(c)] + ss[at..] by {
        assert ss[..at] == old(slots[..at]) && ss[at..] == old(slots[at..n]);
      }
      ptrs, kids := ptrs[..at] + [c] + ptrs[at..], kids[b := c];
      header.IncNumChildren();
      assert forall i :: 0 <= i <= n ==> slots[i] == slots[..n + 1][i];
    }

    /** Writes an entry after all others, without looking for its place. */
    method WriteChildUnchecked(b: byte, c: C)
      requires Valid() && header.numChildren < size
      requires header.numChildren > 0 ==> keys[header.numChildren - 1] < b
      modifies Repr()
      ensures Valid() && header.full == old(header.full)
      ensures kids == old(kids)[b := c]
      ensures header.numChildren == old(header.numChildren) + 1
      ensures keys[old(header.numChildren)] == b
    {
      var n := header.numChildren;
      ghost var ks := keys[..n];
      ListsInsert(ks, ptrs, kids, n, b, c);
      keys[n] := b;
      slots[n] := Some(c);
      header.IncNumChildren();
      ptrs, kids := ptrs + [c], kids[b := c];
      assert keys[..n + 1] == ks[..n] + [b] + ks[n..];
      assert ptrs == old(ptrs)[..n] + [c] + old(ptrs)[n..];
    }

    method RemoveChild(b: byte) returns (r: Option<C>)
      requires Valid()
      modifies Repr()
      ensures Valid() && header.full == old(header.full)
      ensures r == if b in old(kids) then Some(old(kids)[b]) else None
      ensures kids == old(kids) - {b}
    {
      var index := LookupChildIndex(b);
      if index.None? {
        return None;
      }
      r := Some(slots[index.value].value);
      assert Holds(kids, keys[..header.numChildren][index.value], ptrs[index.value]);
      RemoveAt(index.value);
    }

    /** Moves the entries after `at` down by one, over the entry at `at`. */
    method CloseGap(at: nat)
      requires header.Valid() && keys != header.prefix && keys.Length == slots.Length
      requires at < header.numChildren <= keys.Length
      modifies keys, slots
      ensures header.Valid()
      ensures keys[..header.numChildren - 1] == old(keys[..at]) + old(keys[at + 1..header.numChildren])
      ensures slots[..header.numChildren - 1] == old(slots[..at]) + old(slots[at + 1..header.numChildren])
    {
      slots[at] := None;
      assert slots[..at] == old(slots[..at]);
      assert slots[at + 1..header.numChildren] == old(slots[at + 1..header.numChildren]);
      TakeOut(slots, at, header.numChildren);
      TakeOut(keys, at, header.numChildren);
    }

    method RemoveAt(at: nat)
      requires Valid() && at < header.numChildren
      modifies Repr()
      ensures Valid() && header.full == old(header.full)
      ensures kids == old(kids) - {old(keys[at])}
    {
      hide Lists;
      var n := header.numChildren;
      ghost var ks, ss := keys[..n], slots[..n];
      ListsRemove(ks, ptrs, kids, at);
      SlotsRemove(ss, ptrs, at);
      CloseGap(at);
      assert keys[..n - 1] == ks[..at] + ks[at + 1..] by {
        assert ks[..at] == old(keys[..at]) && ks[at + 1..] == old(keys[at + 1..n]);
      }
      assert slots[..n - 1] == ss[..at] + ss[at + 1..] by {
        assert ss[..at] == old(slots[..at]) && ss[at + 1..] == old(slots[at + 1..n]);
      }
      ptrs, kids := ptrs[..at] + ptrs[at + 1..], kids - {ks[at]};
      header.DecNumChildren();
      assert forall i :: 0 <= i < n - 1 ==> slots[i] == slots[..n - 1][i];
    }

    /** A node with the given parts, as in a struct expression. */
    constructor (size: nat, header: Header, keys: array<byte>, slots: array<Option<C>>,
                 ghost ptrs: seq<C>, ghost kids: map<byte, C>)
      ensures this.size == size && this.header == header && this.keys == keys && this.slots == slots
      ensures this.ptrs == ptrs && this.kids == kids
    {
      this.size, this.header, this.keys, this.slots := size, header, keys, slots;
      this.ptrs, this.kids := ptrs, kids;
    }

    /** The node stays valid when only its header's prefix changes. */
    twostate lemma HeaderChanged()
      requires old(Valid()) && header.Valid() && header.numChildren == old(header.numChildren)
      requires unchanged(this, keys, slots)
      ensures Valid()
    {
      assert keys[..header.numChildren] == old(keys[..header.numChildren]);
    }

    /** The entries in increasing order of key byte. */
    method Iter() returns (ks: seq<byte>, cs: seq<C>)
      requires Valid()
      ensures Lists(ks, cs, kids)
    {
      ks, cs := keys[..header.numChildren], [];
      var i := 0;
      while i < header.numChildren
        invariant i <= header.numChildren
        invariant cs == ptrs[..i]
      {
        cs := cs + [slots[i].value];
        i := i + 1;
      }
    }

    method Min() returns (b: byte, c: C)
      requires Valid() && kids != map[]
      ensures IsMin(kids, b, c)
    {
      ListsEnds(keys[..header.numChildren], ptrs, kids);
      return keys[0], slots[0].value;
    }

    method Max() returns (b: byte, c: C)
      requires Valid() && kids != map[]
      ensures IsMax(kids, b, c)
    {
      ListsEnds(keys[..header.numChildren], ptrs, kids);
      var n := header.numChildren;
      return keys[n - 1], slots[n - 1].value;
    }

    /** The same node with room for `newSize` children. */
    method ChangeBlockSize(newSize: nat) returns (r: InnerNodeCompressed<C>)
      requires Valid() && header.numChildren <= newSize <= 16
      ensures fresh(r.Repr()) && r.Valid() && r.size == newSize
      ensures r.kids == kids && r.header.full == header.full
    {
      var n := header.numChildren;
      var h := new Header.Clone(header);
      var ks := new byte[newSize](i reads keys => if 0 <= i < keys.Length then keys[i] else 0);
      var ss := new Option<C>[newSize](i reads slots => if 0 <= i < slots.Length then slots[i] else None);
      r := new InnerNodeCompressed(newSize, h, ks, ss, ptrs, kids);
      assert ks[..n] == keys[..n];
    }

    /** The same node with the index of each child stored under its key byte. */
    method GrowNode48() returns (r: InnerNode48<C>)
      requires Valid()
      ensures fresh(r.Repr()) && r.Valid()
      ensures r.kids == kids && r.header.full == header.full
    {
      var bs := keys[..header.numChildren];
      ListsSize(bs, ptrs, kids);
      var h := new Header.Clone(header);
      var indices := IndexKeys(bs);
      var ss := new Option<C>[48](i reads slots => if 0 <= i < slots.Length then slots[i] else None);
      TableOfList(indices[..], bs, ptrs, kids);
      r := new InnerNode48(h, indices, ss, bs, ptrs, kids);
    }
  }

  /** Stores under each key byte its position in `bs`. */
  method IndexKeys(bs: seq<byte>) returns (indices: array<nat>)
    requires Sorted(bs) && |bs| <= 48
    ensures fresh(indices) && indices.Length == 256 && Indexes(indices[..], bs)
  {
    indices := new nat[256](_ => EMPTY);
    var i := 0;
    while i < |bs|
      invariant i <= |bs|
      invariant Indexes(indices[..], bs[..i])
    {
      indices[bs[i]] := i;
      i := i + 1;
    }
    assert bs[..i] == bs;
  }

  /** The arrays of a compressed node with 16 slots and the given entries. */
  method PackEntries<C>(bs: seq<byte>, cs: seq<C>) returns (keys: array<byte>, slots: array<Option<C>>)
    requires |bs| == |cs| <= 16
    ensures fresh(keys) && fresh(slots) && keys.Length == slots.Length == 16
    ensures keys[..|bs|] == bs && forall i :: 0 <= i < |cs| ==> slots[i] == Some(cs[i])
  {
    keys := new byte[16](i => if 0 <= i < |bs| then bs[i] else 0);
    slots := new Option<C>[16](i => if 0 <= i < |cs| then Some(cs[i]) else None);
  }

  /** `indices` and `owner` are inverse to each other. */
  ghost predicate Indexes(indices: seq<nat>, owner: seq<byte>)
    requires |indices| == 256
  {
    && (forall i :: 0 <= i < |owner| ==> indices[owner[i]] == i)
    && (forall b: byte :: indices[b] == EMPTY || (indices[b] < |owner| && owner[indices[b]] == b))
  }

  /** The parts of an `InnerNode48`: an index table, the key byte and the
      child of each slot in use, and the map they stand for. */
  ghost predicate Table<C>(indices: seq<nat>, owner: seq<byte>, ptrs: seq<C>, m: map<byte, C>) {
    && |indices| == 256 && |owner| == |ptrs| == |m| <= 48
    && Indexes(indices, owner) && HoldsAll(owner, ptrs, m)
    && (forall b: byte :: b in m <==> indices[b] != EMPTY)
  }

  lemma TableGet<C>(indices: seq<nat>, owner: seq<byte>, ptrs: seq<C>, m: map<byte, C>, b: byte)
    requires Table(indices, owner, ptrs, m)
    ensures b !in m ==> indices[b] == EMPTY
    ensures b in m ==> indices[b] < |owner| && owner[indices[b]] == b && ptrs[indices[b]] == m[b]
  {
    if b in m {
      assert Holds(m, owner[indices[b]], ptrs[indices[b]]);
    }
  }

  /** A sorted listing, indexed by position, is such a table. */
  lemma TableOfList<C>(indices: seq<nat>, bs: seq<byte>, cs: seq<C>, m: map<byte, C>)
    requires Lists(bs, cs, m) && |bs| <= 48 && |indices| == 256 && Indexes(indices, bs)
    ensures Table(indices, bs, cs, m)
  {
    ListsSize(bs, cs, m);
    forall i | 0 <= i < |bs| ensures bs[i] in m {
      assert Holds(m, bs[i], cs[i]);
    }
  }

  /** Index `x` after slot `at` is gone and the later slots moved down. */
  function Lowered(x: nat, at: nat): nat {
    if x != EMPTY && at < x then x - 1 else x
  }

  lemma IndexesDistinct(indices: seq<nat>, owner: seq<byte>, b: byte)
    requires |indices| == 256 && |owner| <= 48 && Indexes(indices, owner) && indices[b] != EMPTY
    ensures indices[b] < |owner| && owner[indices[b]] == b
    ensures forall o: byte :: indices[o] <= EMPTY && (o != b ==> indices[o] != indices[b])
    ensures b !in owner[..indices[b]] + owner[indices[b] + 1..]
  {
    var left := owner[..indices[b]] + owner[indices[b] + 1..];
    forall i | 0 <= i < |left| ensures left[i] != b {
      var p := if i < indices[b] then i else i + 1;
      assert left[i] == owner[p];
    }
  }

  lemma TableUpdate<C>(indices: seq<nat>, owner: seq<byte>, ptrs: seq<C>, m: map<byte, C>, b: byte, c: C)
    requires Table(indices, owner, ptrs, m) && b in m
    ensures Table(indices, owner, ptrs[indices[b] := c], m[b := c])
  {
    forall i | 0 <= i < |owner| ensures Holds(m[b := c], owner[i], ptrs[indices[b] := c][i]) {
      assert Holds(m, owner[i], ptrs[i]);
    }
  }

  lemma TableAdd<C>(indices: seq<nat>, owner: seq<byte>, ptrs: seq<C>, m: map<byte, C>, b: byte, c: C)
    requires Table(indices, owner, ptrs, m) && b !in m && |m| < 48
    ensures Table(indices[b := |owner|], owner + [b], ptrs + [c], m[b := c])
  {
    forall i | 0 <= i <= |owner| ensures Holds(m[b := c], (owner + [b])[i], (ptrs + [c])[i]) {
      assert i < |owner| ==> Holds(m, owner[i], ptrs[i]);
    }
  }

  /** Shifting the slots down and decrementing the larger indices keeps indices
      and owners inverse to each other. */
  lemma IndexesRemove(indices: seq<nat>, owner: seq<byte>, b: byte, after: seq<nat>)
    requires |indices| == |after| == 256 && |owner| <= 48 && Indexes(indices, owner)
    requires indices[b] != EMPTY
    requires forall o: byte :: after[o] == if o == b then EMPTY else Lowered(indices[o], indices[b])
    ensures Indexes(after, owner[..indices[b]] + owner[indices[b] + 1..])
  {
    var at := indices[b];
    var left := owner[..at] + owner[at + 1..];
    forall i | 0 <= i < |left| ensures after[left[i]] == i {
      var p := if i < at then i else i + 1;
      assert left[i] == owner[p] && indices[owner[p]] == p;
    }
    forall o: byte ensures after[o] == EMPTY || (after[o] < |left| && left[after[o]] == o) {
      assert indices[o] == EMPTY || (indices[o] < |owner| && owner[indices[o]] == o);
    }
  }

  lemma TableRemove<C>(indices: seq<nat>, owner: seq<byte>, ptrs: seq<C>, m: map<byte, C>, b: byte, after: seq<nat>)
    requires Table(indices, owner, ptrs, m) && b in m && |after| == 256
    requires forall o: byte :: after[o] == if o == b then EMPTY else Lowered(indices[o], indices[b])
    ensures indices[b] < |owner| && owner[indices[b]] == b
    ensures Table(after, owner[..indices[b]] + owner[indices[b] + 1..],
                  ptrs[..indices[b]] + ptrs[indices[b] + 1..], m - {b})
  {
    IndexesDistinct(indices, owner, b);
    IndexesRemove(indices, owner, b, after);
    HoldsRemove(owner, ptrs, m, indices[b]);
    RemoveSize(m, b);
  }

  /** The index stored for a key byte that has no child. */
  const EMPTY: nat := 48

  /** `InnerNode48`: for each key byte the index of its child among the first
      `numChildren` slots, or `EMPTY`. `owner[i]` is the key byte of slot `i`. */
  class InnerNode48<C> {
    const header: Header
    const indices: array<nat>
    const slots: array<Option<C>>
    ghost var owner: seq<byte>
    ghost var ptrs: seq<C>
    ghost var kids: map<byte, C>

    ghost function Repr(): set<object> {
      {this, header, header.prefix, indices, slots}
    }

    ghost predicate Valid()
      reads Repr()
    {
      && header.Valid() && indices.Length == 256 && slots.Length == 48
      && |kids| == header.numChildren
      && Table(indices[..], owner, ptrs, kids)
      && (forall i :: 0 <= i < |ptrs| ==> slots[i] == Some(ptrs[i]))
    }

    /** A node with the given parts, as in a struct expression. */
    constructor (header: Header, indices: array<nat>, slots: array<Option<C>>,
                 ghost owner: seq<byte>, ghost ptrs: seq<C>, ghost kids: map<byte, C>)
      ensures this.header == header && this.indices == indices && this.slots == slots
      ensures this.owner == owner && this.ptrs == ptrs && this.kids == kids
    {
      this.header, this.indices, this.slots := header, indices, slots;
      this.owner, this.ptrs, this.kids := owner, ptrs, kids;
    }

    method LookupChild(b: byte) returns (r: Option<C>)
      requires Valid()
      ensures r == if b in kids then Some(kids[b]) else None
    {
      TableGet(indices[..], owner, ptrs, kids, b);
      var index := indices[b];
      if index == EMPTY {
        return None;
      }
      return Some(slots[index].value);
    }

    method WriteChild(b: byte, c: C)
      requires Valid() && (b in kids || header.numChildren < 48)
      modifies Repr()
      ensures Valid() && header.full == old(header.full)
      ensures kids == old(kids)[b := c]
    {
      TableGet(indices[..], owner, ptrs, kids, b);
      var index := indices[b];
      if index == EMPTY {
        TableAdd(indices[..], owner, ptrs, kids, b, c);
        index := header.numChildren;
        owner, ptrs := owner + [b], ptrs + [c];
        indices[b] := index;
        header.IncNumChildren();
      } else {
        TableUpdate(indices[..], owner, ptrs, kids, b, c);
        ptrs := ptrs[index := c];
      }
      kids := kids[b := c];
      slots[index] := Some(c);
    }

    method RemoveChild(b: byte) returns (r: Option<C>)
      requires Valid()
      modifies Repr()
      ensures Valid() && header.full == old(header.full)
      ensures r == if b in old(kids) then Some(old(kids)[b]) else None
      ensures kids == old(kids) - {b}
    {
      TableGet(indices[..], owner, ptrs, kids, b);
      var at := indices[b];
      if at == EMPTY {
        return None;
      }
      r := Some(slots[at].value);
      RemoveAt(at, b);
    }

    method RemoveAt(at: nat, b: byte)
      requires Valid() && b in kids && at == indices[b] < |ptrs|
      modifies Repr()
      ensures Valid() && header.full == old(header.full)
      ensures kids == old(kids) - {b}
    {
      hide Indexes;
      ghost var before := indices[..];
      CloseGap(at);
      LowerIndices(at, b);
      TableRemove(before, owner, ptrs, kids, b, indices[..]);
      owner, ptrs, kids := owner[..at] + owner[at + 1..], ptrs[..at] + ptrs[at + 1..], kids - {b};
      header.DecNumChildren();
    }

    /** Moves the slots after `at` down by one. */
    method CloseGap(at: nat)
      requires at < header.numChildren <= slots.Length
      modifies slots
      ensures forall i :: 0 <= i < at ==> slots[i] == old(slots[i])
      ensures forall i :: at <= i < header.numChildren - 1 ==> slots[i] == old(slots[i + 1])
    {
      slots[at] := None;
      CopyWithin(slots, at + 1, header.numChildren, at);
    }

    /** Lowers the indices of the slots that moved; byte `b` becomes empty. */
    method LowerIndices(at: nat, b: byte)
      requires indices.Length == 256
      modifies indices
      ensures forall o: byte :: indices[o] == if o == b then EMPTY else Lowered(old(indices[o]), at)
    {
      ghost var before := indices[..];
      var o := 0;
      while o < 256
        invariant o <= 256
        invariant forall p: byte :: indices[p] == if p < o then Lowered(before[p], at) else before[p]
      {
        if indices[o] != EMPTY && at < indices[o] {
          indices[o] := indices[o] - 1;
        }
        o := o + 1;
      }
      indices[b] := EMPTY;
    }

    /** The node stays valid when only its header's prefix changes. */
    twostate lemma HeaderChanged()
      requires old(Valid()) && header.Valid() && header.numChildren == old(header.numChildren)
      requires unchanged(this, indices, slots)
      ensures Valid()
    {
      assert indices[..] == old(indices[..]);
    }

    /** The entries in increasing order of key byte. */
    method Iter() returns (ks: seq<byte>, cs: seq<C>)
      requires Valid()
      ensures Lists(ks, cs, kids)
    {
      ks, cs := [], [];
      var b := 0;
      while b < 256
        invariant b <= 256 && ListsBelow(ks, cs, kids, b)
      {
        ListsBelowStep(ks, cs, kids, b);
        TableGet(indices[..], owner, ptrs, kids, b);
        if indices[b] != EMPTY {
          ks, cs := ks + [b], cs + [slots[indices[b]].value];
        }
        b := b + 1;
      }
    }

    method Min() returns (b: byte, c: C)
      requires Valid() && kids != map[]
      ensures IsMin(kids, b, c)
    {
      b := 0;
      while indices[b] == EMPTY
        invariant forall d :: d in kids ==> b <= d
        decreases 256 - b
      {
        ghost var d :| d in kids;
        b := b + 1;
      }
      TableGet(indices[..], owner, ptrs, kids, b);
      return b, slots[indices[b]].value;
    }

    method Max() returns (b: byte, c: C)
      requires Valid() && kids != map[]
      ensures IsMax(kids, b, c)
    {
      b := 255;
      while indices[b] == EMPTY
        invariant forall d :: d in kids ==> d <= b
        decreases b
      {
        ghost var d :| d in kids;
        b := b - 1;
      }
      TableGet(indices[..], owner, ptrs, kids, b);
      return b, slots[indices[b]].value;
    }

    method Grow() returns (r: InnerNode256<C>)
      requires Valid()
      ensures fresh(r.Repr()) && r.Valid()
      ensures r.kids == kids && r.header.full == header.full
    {
      var h := new Header.Clone(header);
      var ss := new Option<C>[256](_ => None);
      var b := 0;
      while b < 256
        invariant b <= 256
        invariant forall d: byte :: ss[d] == if d < b && d in kids then Some(kids[d]) else None
        modifies ss
      {
        TableGet(indices[..], owner, ptrs, kids, b);
        if indices[b] != EMPTY {
          ss[b] := Some(slots[indices[b]].value);
        }
        b := b + 1;
      }
      r := new InnerNode256(h, ss, kids);
    }

    method Shrink() returns (r: InnerNodeCompressed<C>)
      requires Valid() && header.numChildren <= 16
      ensures fresh(r.Repr()) && r.Valid() && r.size == 16
      ensures r.kids == kids && r.header.full == header.full
    {
      var h := new Header.Clone(header);
      var bs, cs := Iter();
      ListsSize(bs, cs, kids);
      hide Lists;
      var ks, ss := PackEntries(bs, cs);
      r := new InnerNodeCompressed(16, h, ks, ss, cs, kids);
    }
  }

  /** `InnerNode256`: the child of each key byte, if there is one. */
  class InnerNode256<C> {
    const header: Header
    const slots: array<Option<C>>
    ghost var kids: map<byte, C>

    ghost function Repr(): set<object> {
      {this, header, header.prefix, slots}
    }

    ghost predicate Valid()
      reads Repr()
    {
      && header.Valid() && slots.Length == 256 && |kids| == header.numChildren
      && (forall b: byte :: slots[b] == if b in kids then Some(kids[b]) else None)
    }

    /** A node with the given parts, as in a struct expression. */
    constructor (header: Header, slots: array<Option<C>>, ghost kids: map<byte, C>)
      ensures this.header == header && this.slots == slots && this.kids == kids
    {
      this.header, this.slots, this.kids := header, slots, kids;
    }

    method LookupChild(b: byte) returns (r: Option<C>)
      requires Valid()
      ensures r == if b in kids then Some(kids[b]) else None
    {
      return slots[b];
    }

    method WriteChild(b: byte, c: C)
      requires Valid() && (b in kids || header.numChildren < 256)
      modifies Repr()
      ensures Valid() && header.full == old(header.full)
      ensures kids == old(kids)[b := c]
    {
      var existing := slots[b];
      slots[b] := Some(c);
      kids := kids[b := c];
      if existing.None? {
        header.IncNumChildren();
      }
    }

    method RemoveChild(b: byte) returns (r: Option<C>)
      requires Valid()
      modifies Repr()
      ensures Valid() && header.full == old(header.full)
      ensures r == if b in old(kids) then Some(old(kids)[b]) else None
      ensures kids == old(kids) - {b}
    {
      r := slots[b];
      if r.Some? {
        RemoveSize(kids, b);
        slots[b] := None;
        kids := kids - {b};
        header.DecNumChildren();
      }
    }

    /** The node stays valid when only its header's prefix changes. */
    twostate lemma HeaderChanged()
      requires old(Valid()) && header.Valid() && header.numChildren == old(header.numChildren)
      requires unchanged(this, slots)
      ensures Valid()
    {
    }

    /** The entries in increasing order of key byte. */
    method Iter() returns (ks: seq<byte>, cs: seq<C>)
      requires Valid()
      ensures Lists(ks, cs, kids)
    {
      ks, cs := [], [];
      var b := 0;
      while b < 256
        invariant b <= 256 && ListsBelow(ks, cs, kids, b)
      {
        ListsBelowStep(ks, cs, kids, b);
        if slots[b].Some? {
          ks, cs := ks + [b], cs + [slots[b].value];
        }
        b := b + 1;
      }
    }

    method Min() returns (b: byte, c: C)
      requires Valid() && kids != map[]
      ensures IsMin(kids, b, c)
    {
      b := 0;
      while slots[b].None?
        invariant forall d :: d in kids ==> b <= d
        decreases 256 - b
      {
        ghost var d :| d in kids;
        b := b + 1;
      }
      return b, slots[b].value;
    }

    method Max() returns (b: byte, c: C)
      requires Valid() && kids != map[]
      ensures IsMax(kids, b, c)
    {
      b := 255;
      while slots[b].None?
        invariant forall d :: d in kids ==> d <= b
        decreases b
      {
        ghost var d :| d in kids;
        b := b - 1;
      }
      return b, slots[b].value;
    }

    method Shrink() returns (r: InnerNode48<C>)
      requires Valid() && header.numChildren <= 48
      ensures fresh(r.Repr()) && r.Valid()
      ensures r.kids == kids && r.header.full == header.full
    {
      var h := new Header.Clone(header);
      var bs, cs := Iter();
      ListsSize(bs, cs, kids);
      var indices := IndexKeys(bs);
      var ss := new Option<C>[48](i => if 0 <= i < |cs| then Some(cs[i]) else None);
      TableOfList(indices[..], bs, cs, kids);
      r := new InnerNode48(h, indices, ss, bs, cs, kids);
    }
  }
}
