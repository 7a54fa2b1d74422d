/** The edit distance between byte strings, and the rows of its matrix. */
module Levenshtein {
  import opened Bytes

  /** The distance by the full recurrence over last bytes. */
  function Distance(q: Key, k: Key): nat
    decreases |q| + |k|
  {
    if q == [] then |k|
    else if k == [] then |q|
    else
      var q', k' := q[..|q| - 1], k[..|k| - 1];
      var cost := if q[|q| - 1] == k[|k| - 1] then 0 else 1;
      Min(Distance(q', k') + cost, Min(Distance(q', k), Distance(q, k')) + 1)
  }

  /** One step of turning a string into another: the bytes it reads, the bytes it
      writes, and what it costs. */
  datatype Edit = Keep(b: byte) | Substitute(b: byte, c: byte) | Delete(b: byte) | Insert(c: byte) {
    function Reads(): Key {
      if Insert? then [] else [b]
    }

    function Writes(): Key {
      match this
      case Keep(b) => [b]
      case Substitute(_, c) => [c]
      case Delete(_) => []
      case Insert(c) => [c]
    }

    function Cost(): nat {
      if Keep? then 0 else 1
    }
  }

  function Read(es: seq<Edit>): Key {
    if es == [] then [] else Read(es[..|es| - 1]) + es[|es| - 1].Reads()
  }

  function Written(es: seq<Edit>): Key {
    if es == [] then [] else Written(es[..|es| - 1]) + es[|es| - 1].Writes()
  }

  function Cost(es: seq<Edit>): nat {
    if es == [] then 0 else Cost(es[..|es| - 1]) + es[|es| - 1].Cost()
  }

  /** Dropping the last byte of either string changes the distance by at most 1. */
  lemma {:induction false} DistanceAdjacent(q: Key, k: Key)
    ensures q != [] ==>
      Distance(q[..|q| - 1], k) <= Distance(q, k) + 1 && Distance(q, k) <= Distance(q[..|q| - 1], k) + 1
    ensures k != [] ==>
      Distance(q, k[..|k| - 1]) <= Distance(q, k) + 1 && Distance(q, k) <= Distance(q, k[..|k| - 1]) + 1
    decreases |q| + |k|
  {
    if q != [] && k != [] {
      var q', k' := q[..|q| - 1], k[..|k| - 1];
      DistanceAdjacent(q', k);
      DistanceAdjacent(q, k');
      DistanceAdjacent(q', k');
    }
  }

  /** If the last bytes are equal, then nothing is gained by changing them: the
      three-way minimum is the distance without them. */
  lemma DistanceEqualBytes(q: Key, k: Key)
    requires q != [] && k != [] && q[|q| - 1] == k[|k| - 1]
    ensures Distance(q, k) == Distance(q[..|q| - 1], k[..|k| - 1])
  {
    var q', k' := q[..|q| - 1], k[..|k| - 1];
    DistanceAdjacent(q', k);
    DistanceAdjacent(q, k');
  }

  lemma DistanceDifferentBytes(q: Key, k: Key)
    requires q != [] && k != [] && q[|q| - 1] != k[|k| - 1]
    ensures var q', k' := q[..|q| - 1], k[..|k| - 1];
      Distance(q, k) == Min(Min(Distance(q', k'), Distance(q', k)), Distance(q, k')) + 1
  {
  }

  /** No edits turn one string into the other with less cost than the distance. */
  lemma {:induction false} DistanceLeast(es: seq<Edit>)
    ensures Distance(Read(es), Written(es)) <= Cost(es)
  {
    if es != [] {
      var n := |es| - 1;
      DistanceLeast(es[..n]);
      var q, k := Read(es), Written(es);
      var q', k' := Read(es[..n]), Written(es[..n]);
      match es[n]
      case Keep(b) =>
        assert q[..|q| - 1] == q' && k[..|k| - 1] == k';
      case Substitute(b, c) =>
        assert q[..|q| - 1] == q' && k[..|k| - 1] == k';
      case Delete(b) =>
        assert q[..|q| - 1] == q' && k == k';
        DistanceAdjacent(q, k);
      case Insert(c) =>
        assert q == q' && k[..|k| - 1] == k';
        DistanceAdjacent(q, k);
    }
  }

  lemma LastEdit(q: Key, k: Key) returns (q': Key, k': Key, e: Edit)
    requires q != [] || k != []
    ensures q == q' + e.Reads() && k == k' + e.Writes()
    ensures Distance(q, k) == Distance(q', k') + e.Cost() && |q'| + |k'| < |q| + |k|
  {
    if q == [] {
      return q, k[..|k| - 1], Insert(k[|k| - 1]);
    }
    if k == [] {
      return q[..|q| - 1], k, Delete(q[|q| - 1]);
    }
    q', k' := q[..|q| - 1], k[..|k| - 1];
    var b, c := q[|q| - 1], k[|k| - 1];
    if b == c {
      DistanceEqualBytes(q, k);
      return q', k', Keep(b);
    }
    q', k', e := LastChange(q, k);
  }

  lemma LastChange(q: Key, k: Key) returns (q': Key, k': Key, e: Edit)
    requires q != [] && k != [] && q[|q| - 1] != k[|k| - 1]
    ensures q == q' + e.Reads() && k == k' + e.Writes()
    ensures Distance(q, k) == Distance(q', k') + e.Cost() && |q'| + |k'| < |q| + |k|
  {
    hide Distance;
    DistanceDifferentBytes(q, k);
    q', k' := q[..|q| - 1], k[..|k| - 1];
    if Distance(q, k) == Distance(q', k') + 1 {
      e := Substitute(q[|q| - 1], k[|k| - 1]);
    } else if Distance(q, k) == Distance(q', k) + 1 {
      k', e := k, Delete(q[|q| - 1]);
    } else {
      q', e := q, Insert(k[|k| - 1]);
    }
  }

  /** Some edits reach the distance. */
  lemma {:induction false} DistanceReached(q: Key, k: Key) returns (es: seq<Edit>)
    ensures Read(es) == q && Written(es) == k && Cost(es) == Distance(q, k)
    decreases |q| + |k|
  {
    if q == [] && k == [] {
      es := [];
    } else {
      var q', k', e := LastEdit(q, k);
      var fs := DistanceReached(q', k');
      es := fs + [e];
      assert es[..|es| - 1] == fs;
    }
  }

  /** The row of the matrix for key bytes `k`: the distances from `k` to each
      prefix of the query. */
  function Row(q: Key, k: Key): (row: seq<nat>)
    ensures |row| == |q| + 1
    ensures forall i :: 0 <= i <= |q| ==> row[i] == Distance(q[..i], k)
  {
    seq(|q| + 1, i requires 0 <= i <= |q| => Distance(q[..i], k))
  }

  /** Some entry of the row is within the bound. */
  ghost predicate Within(row: seq<nat>, max: nat) {
    exists i :: 0 <= i < |row| && row[i] <= max
  }

  /** One more key byte never brings a row within the bound. */
  lemma {:induction false} RowGrows(q: Key, k: Key, c: byte, max: nat, i: nat)
    requires i <= |q| && Distance(q[..i], k + [c]) <= max
    ensures Within(Row(q, k), max)
  {
    assert (k + [c])[..|k|] == k;
    if i == 0 {
      assert q[..0] == [];
      assert Row(q, k)[0] <= max;
    } else {
      assert q[..i][..i - 1] == q[..i - 1];
      if Distance(q[..i - 1], k) <= max {
        assert Row(q, k)[i - 1] <= max;
      } else if Distance(q[..i], k) <= max {
        assert Row(q, k)[i] <= max;
      } else {
        RowGrows(q, k, c, max, i - 1);
      }
    }
  }

  lemma RowNext(q: Key, k: Key, c: byte, max: nat)
    requires Within(Row(q, k + [c]), max)
    ensures Within(Row(q, k), max)
  {
    var i :| 0 <= i < |q| + 1 && Row(q, k + [c])[i] <= max;
    RowGrows(q, k, c, max, i);
  }

  /** A row without an entry within the bound cannot lead to a match: pruning is
      sound. */
  lemma {:induction false} PruneSound(q: Key, k: Key, z: Key, max: nat)
    requires k <= z && (Distance(q, z) <= max || Within(Row(q, z), max))
    ensures Within(Row(q, k), max)
    decreases |z|
  {
    assert q[..|q|] == q;
    if Distance(q, z) <= max {
      assert Row(q, z)[|q|] <= max;
    }
    if k != z {
      var n := |z| - 1;
      assert z == z[..n] + [z[n]];
      RowNext(q, z[..n], z[n], max);
      PruneSound(q, k, z[..n], max);
    }
  }
}
