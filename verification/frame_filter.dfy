/**
 * The frame filter of `TransmitBodyJoints`: from the fixed-size slot array to a
 * dense array of the tracked slots, in slot order.
 */
module FrameFilter {
  /** The kept elements of `s`, in order; built from the back, like the copy loop. */
  function Filter<T>(s: seq<T>, keep: T -> bool): seq<T>
    decreases |s|
  {
    if s == [] then []
    else Filter(s[..|s| - 1], keep) + (if keep(s[|s| - 1]) then [s[|s| - 1]] else [])
  }

  /** The indices of the kept elements, in increasing order: the reference the filter is checked against. */
  function KeptIndices<T>(s: seq<T>, keep: T -> bool): seq<nat>
    decreases |s|
  {
    if s == [] then []
    else KeptIndices(s[..|s| - 1], keep) + (if keep(s[|s| - 1]) then [|s| - 1] else [])
  }

  /** The number of kept slots, counted over the slot positions. */
  function KeptCount<T>(s: seq<T>, keep: T -> bool): nat
  {
    |set i | 0 <= i < |s| && keep(s[i])|
  }

  lemma FilterSnoc<T>(s: seq<T>, x: T, keep: T -> bool)
    ensures Filter(s + [x], keep) == Filter(s, keep) + (if keep(x) then [x] else [])
  {
    assert (s + [x])[..|s|] == s;
  }

  /** Filtering distributes over concatenation. */
  lemma {:induction false} FilterAppend<T>(a: seq<T>, b: seq<T>, keep: T -> bool)
    ensures Filter(a + b, keep) == Filter(a, keep) + Filter(b, keep)
    decreases |b|
  {
    if b == [] {
      assert a + b == a;
    } else {
      var b' := b[..|b| - 1];
      FilterAppend(a, b', keep);
      assert a + b == (a + b') + [b[|b| - 1]];
      FilterSnoc(a + b', b[|b| - 1], keep);
      assert b == b' + [b[|b| - 1]];
      FilterSnoc(b', b[|b| - 1], keep);
    }
  }

  /** A kept slot at index `j` still has room after the kept slots before it. */
  lemma FilterPrefixRoom<T>(s: seq<T>, j: nat, keep: T -> bool)
    requires j < |s|
    ensures |Filter(s[..j], keep)| + (if keep(s[j]) then 1 else 0) <= |Filter(s, keep)|
  {
    FilterAppend(s[..j + 1], s[j + 1..], keep);
    assert s == s[..j + 1] + s[j + 1..];
    FilterSnoc(s[..j], s[j], keep);
    assert s[..j + 1] == s[..j] + [s[j]];
  }

  /** The kept indices are in range and strictly increasing. */
  lemma {:induction false} KeptIndicesIncreasing<T>(s: seq<T>, keep: T -> bool)
    ensures forall k | 0 <= k < |KeptIndices(s, keep)| :: KeptIndices(s, keep)[k] < |s|
    ensures forall k, l | 0 <= k < l < |KeptIndices(s, keep)| :: KeptIndices(s, keep)[k] < KeptIndices(s, keep)[l]
    decreases |s|
  {
    if s != [] {
      var n := |s| - 1;
      KeptIndicesIncreasing(s[..n], keep);
      var idx := KeptIndices(s[..n], keep);
      assert KeptIndices(s, keep) == idx + (if keep(s[n]) then [n] else []);
      assert forall k | 0 <= k < |idx| :: idx[k] < n;
    }
  }

  /** The k-th kept element is the slot at the k-th kept index. */
  lemma {:induction false} FilterAtKeptIndices<T>(s: seq<T>, keep: T -> bool)
    ensures |Filter(s, keep)| == |KeptIndices(s, keep)|
    ensures forall k | 0 <= k < |KeptIndices(s, keep)| ::
      KeptIndices(s, keep)[k] < |s| && Filter(s, keep)[k] == s[KeptIndices(s, keep)[k]]
    decreases |s|
  {
    if s != [] {
      var n := |s| - 1;
      FilterAtKeptIndices(s[..n], keep);
      KeptIndicesIncreasing(s[..n], keep);
      var r, idx := Filter(s[..n], keep), KeptIndices(s[..n], keep);
      assert Filter(s, keep) == r + (if keep(s[n]) then [s[n]] else []);
      assert KeptIndices(s, keep) == idx + (if keep(s[n]) then [n] else []);
      forall k | 0 <= k < |idx|
        ensures r[k] == s[idx[k]]
      {
        assert s[..n][idx[k]] == s[idx[k]];
      }
    }
  }

  /** An index is listed exactly when its slot is kept. */
  lemma {:induction false} KeptIndicesComplete<T>(s: seq<T>, keep: T -> bool)
    ensures forall i | 0 <= i < |s| :: keep(s[i]) <==> i in KeptIndices(s, keep)
    decreases |s|
  {
    if s != [] {
      var n := |s| - 1;
      KeptIndicesComplete(s[..n], keep);
      KeptIndicesIncreasing(s[..n], keep);
      var idx := KeptIndices(s[..n], keep);
      assert KeptIndices(s, keep) == idx + (if keep(s[n]) then [n] else []);
      assert n !in idx;
      forall i | 0 <= i < |s|
        ensures keep(s[i]) <==> i in KeptIndices(s, keep)
      {
        if i < n {
          assert s[..n][i] == s[i];
        }
      }
    }
  }

  /**
   * The filter keeps exactly the kept slots, in their original index order:
   * its k-th element is the slot at the k-th kept index, the indices strictly
   * increase (so no slot appears twice), and an index is listed exactly when
   * its slot is kept.
   */
  lemma FilterIsKeptSubsequence<T>(s: seq<T>, keep: T -> bool)
    ensures var r, idx := Filter(s, keep), KeptIndices(s, keep);
      |r| == |idx|
      && (forall k | 0 <= k < |idx| :: idx[k] < |s| && r[k] == s[idx[k]])
      && (forall k, l | 0 <= k < l < |idx| :: idx[k] < idx[l])
      && (forall i | 0 <= i < |s| :: keep(s[i]) <==> i in idx)
  {
    FilterAtKeptIndices(s, keep);
    KeptIndicesIncreasing(s, keep);
    KeptIndicesComplete(s, keep);
  }

  /** Every element of the result is kept. */
  lemma FilterAllKept<T>(s: seq<T>, keep: T -> bool)
    ensures forall k | 0 <= k < |Filter(s, keep)| :: keep(Filter(s, keep)[k])
  {
    FilterIsKeptSubsequence(s, keep);
  }

  /** Among the first `n` slots, as many are kept as the filter of that prefix holds. */
  lemma {:induction false} FilterPrefixLength<T>(s: seq<T>, n: nat, keep: T -> bool)
    requires n <= |s|
    ensures |Filter(s[..n], keep)| == |set i | 0 <= i < n && keep(s[i])|
    decreases n
  {
    if n > 0 {
      FilterPrefixLength(s, n - 1, keep);
      FilterSnoc(s[..n - 1], s[n - 1], keep);
      assert s[..n] == s[..n - 1] + [s[n - 1]];
      var before := set i | 0 <= i < n - 1 && keep(s[i]);
      var now := set i | 0 <= i < n && keep(s[i]);
      if keep(s[n - 1]) {
        assert now == before + {n - 1};
      } else {
        assert now == before;
      }
    }
  }

  /** The result is as long as the number of kept slots; with none kept it is empty. */
  lemma FilterLength<T>(s: seq<T>, keep: T -> bool)
    ensures |Filter(s, keep)| == KeptCount(s, keep)
    ensures (forall i | 0 <= i < |s| :: !keep(s[i])) ==> Filter(s, keep) == []
  {
    FilterPrefixLength(s, |s|, keep);
    assert s[..|s|] == s;
    FilterIsKeptSubsequence(s, keep);
  }

  /**
   * `TransmitBodyJoints`' two passes: count the kept slots, allocate an array of
   * exactly that size, then copy the kept slots into it in order. The result is
   * a new array: the slots array is never written.
   */
  method Compact<T(0)>(slots: array<T>, keep: T -> bool) returns (valid: array<T>)
    ensures fresh(valid)
    ensures valid[..] == Filter(slots[..], keep)
    ensures valid.Length == KeptCount(slots[..], keep)
  {
    var i := 0;
    for j := 0 to slots.Length
      invariant i == |Filter(slots[..j], keep)|
    {
      FilterSnoc(slots[..j], slots[j], keep);
      assert slots[..j + 1] == slots[..j] + [slots[j]];
      if keep(slots[j]) {
        i := i + 1;
      }
    }
    assert slots[..slots.Length] == slots[..];
    valid := new T[i];
    i := 0;
    for j := 0 to slots.Length
      invariant valid.Length == |Filter(slots[..], keep)|
      invariant i == |Filter(slots[..j], keep)| <= valid.Length
      invariant valid[..i] == Filter(slots[..j], keep)
    {
      FilterSnoc(slots[..j], slots[j], keep);
      assert slots[..j + 1] == slots[..j] + [slots[j]];
      FilterPrefixRoom(slots[..], j, keep);
      assert slots[..][..j] == slots[..j];
      if keep(slots[j]) {
        valid[i] := slots[j];
        i := i + 1;
      }
    }
    assert slots[..slots.Length] == slots[..];
    assert valid[..] == valid[..i];
    FilterLength(slots[..], keep);
  }
}
