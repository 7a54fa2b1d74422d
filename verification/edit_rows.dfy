/** Computing rows of the edit distance matrix, and a stack of rows. */
module EditRows {
  import opened Bytes
  import opened Levenshtein

  /** The buffer holds the rows one after the other, each of length `n`. */
  ghost predicate Stacked(buffer: seq<nat>, rows: seq<seq<nat>>, n: nat)
    decreases |rows|
  {
    if rows == [] then buffer == []
    else
      var row := rows[|rows| - 1];
      |row| == n <= |buffer| && buffer[|buffer| - n..] == row && Stacked(buffer[..|buffer| - n], rows[..|rows| - 1], n)
  }

  lemma StackedPush(buffer: seq<nat>, rows: seq<seq<nat>>, row: seq<nat>, n: nat)
    requires Stacked(buffer, rows, n) && |row| == n
    ensures Stacked(buffer + row, rows + [row], n)
  {
    assert (buffer + row)[..|buffer|] == buffer && (buffer + row)[|buffer|..] == row;
    assert (rows + [row])[..|rows|] == rows;
  }

  /** The length of the buffer is a multiple of the length of a row. */
  lemma {:induction false} StackedLength(buffer: seq<nat>, rows: seq<seq<nat>>, n: nat)
    requires Stacked(buffer, rows, n)
    ensures |buffer| == |rows| * n
    decreases |rows|
  {
    if rows != [] {
      StackedLength(buffer[..|buffer| - n], rows[..|rows| - 1], n);
    }
  }

  lemma StackedPop(buffer: seq<nat>, rows: seq<seq<nat>>, n: nat)
    requires Stacked(buffer, rows, n) && rows != []
    ensures n <= |buffer| && rows == rows[..|rows| - 1] + [buffer[|buffer| - n..]]
    ensures Stacked(buffer[..|buffer| - n], rows[..|rows| - 1], n)
  {
  }

  lemma MultipleOf(m: nat, n: nat)
    requires 1 <= n
    ensures (m * n) % n == 0
  {
    var d, r := m - (m * n) / n, (m * n) % n;
    assert d * n == m * n - ((m * n) / n) * n == r;
    assert 1 <= d ==> n <= d * n;
    assert d <= -1 ==> d * n < 0;
  }

  lemma StackedWhole(buffer: seq<nat>, rows: seq<seq<nat>>, n: nat)
    requires Stacked(buffer, rows, n) && 1 <= n
    ensures |buffer| % n == 0 && (buffer == [] <==> rows == [])
  {
    StackedLength(buffer, rows, n);
    MultipleOf(|rows|, n);
  }

  /** A stack of rows of the same length in one growing buffer. */
  class StackArena {
    var data: array<nat>
    var len: nat
    const n: nat
    ghost var rows: seq<seq<nat>>

    ghost predicate Valid()
      reads this, data
    {
      1 <= n && len <= data.Length && Stacked(data[..len], rows, n)
    }

    constructor (n: nat)
      requires 1 <= n
      ensures Valid() && fresh(data) && this.n == n && rows == []
    {
      this.n := n;
      data := new nat[0];
      len, rows := 0, [];
    }

    /** `push`: makes room for one more row, which is still to be filled in, and
        returns where it begins. */
    method Push() returns (begin: nat)
      requires Valid()
      modifies this, data
      ensures n <= len <= data.Length && begin == len - n && rows == old(rows)
      ensures Stacked(data[..begin], rows, n)
      ensures data == old(data) || fresh(data)
    {
      begin := len;
      if len + n > data.Length {
        var grown := new nat[2 * len + n];
        forall i | 0 <= i < len {
          grown[i] := data[i];
        }
        assert grown[..len] == data[..len];
        data := grown;
      }
      len := len + n;
      assert data[..begin] == old(data[..len]);
    }

    /** The new row has been filled in. */
    ghost method Filled(row: seq<nat>)
      requires 1 <= n <= len <= data.Length && Stacked(data[..len - n], rows, n)
      requires data[len - n..len] == row
      modifies this`rows
      ensures Valid() && rows == old(rows) + [row]
    {
      StackedPush(data[..len - n], rows, row, n);
      assert data[..len] == data[..len - n] + row;
      rows := rows + [row];
    }

    /** `pop` of a row that was pushed but is not wanted. */
    method Pop()
      requires 1 <= n <= len <= data.Length && Stacked(data[..len - n], rows, n)
      modifies this`len
      ensures Valid()
    {
      len := len - n;
    }

    /** `pop_copy`: takes the last row off the stack. */
    method PopCopy(buffer: array<nat>) returns (some: bool)
      requires Valid() && buffer.Length == n && buffer != data
      modifies this, buffer
      ensures Valid() && data == old(data)
      ensures some <==> old(rows) != []
      ensures some ==> old(rows) == rows + [buffer[..]]
      ensures !some ==> rows == old(rows)
    {
      hide Stacked;
      ghost var whole := data[..len];
      StackedWhole(whole, rows, n);
      assert len % n == 0;
      if len == 0 {
        return false;
      }
      StackedPop(whole, rows, n);
      var begin := len - n;
      forall i | 0 <= i < n {
        buffer[i] := data[begin + i];
      }
      assert buffer[..] == whole[begin..] && data[..begin] == whole[..begin];
      len := begin;
      rows := rows[..|rows| - 1];
      return true;
    }
  }

  /** `edit_dist`: the next row of the matrix, for one more key byte, and whether
      one of its entries is within the bound. */
  method EditDist(key: Key, c: byte, previous: array<nat>, next: array<nat>, begin: nat, max: nat, ghost k: Key)
    returns (keep: bool)
    requires previous != next && previous[..] == Row(key, k) && begin + |key| + 1 <= next.Length
    modifies next
    ensures next[begin..begin + |key| + 1] == Row(key, k + [c])
    ensures next[..begin] == old(next[..begin])
    ensures keep <==> Within(Row(key, k + [c]), max)
  {
    ghost var row := Row(key, k + [c]);
    assert (k + [c])[..|k|] == k;
    next[begin] := previous[0] + 1;
    assert row[0] == previous[0] + 1 by { FirstCell(key, k, c); }
    keep := next[begin] <= max;
    var i := 1;
    while i < |key| + 1
      invariant 1 <= i <= |key| + 1
      invariant next[begin..begin + i] == row[..i]
      invariant next[..begin] == old(next[..begin])
      invariant keep <==> exists j :: 0 <= j < i && row[j] <= max
    {
      var substitution := previous[i - 1];
      var insertion := previous[i];
      var deletion := next[begin + i - 1];
      assert deletion == next[begin..begin + i][i - 1] == row[i - 1];
      NextCell(key, k, c, i);
      var v := if key[i - 1] == c then substitution else Min(Min(substitution, insertion), deletion) + 1;
      next[begin + i] := v;
      keep := keep || v <= max;
      i := i + 1;
    }
  }

  lemma FirstCell(key: Key, k: Key, c: byte)
    ensures Row(key, k + [c])[0] == Row(key, k)[0] + 1 == |k| + 1
  {
  }

  /** The equal-byte shortcut and the three-way minimum compute the next cell. */
  lemma NextCell(key: Key, k: Key, c: byte, i: nat)
    requires 1 <= i <= |key|
    ensures var row, below := Row(key, k), Row(key, k + [c]);
      below[i] == if key[i - 1] == c then row[i - 1] else Min(Min(row[i - 1], row[i]), below[i - 1]) + 1
  {
    var q, z := key[..i], k + [c];
    assert q[..|q| - 1] == key[..i - 1] && z[..|z| - 1] == k;
    if key[i - 1] == c {
      DistanceEqualBytes(q, z);
    } else {
      DistanceDifferentBytes(q, z);
    }
  }
}
