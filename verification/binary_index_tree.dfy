/** A Fenwick (binary indexed) tree over `n` deltas: point update and exclusive
    prefix sum, both walking the one-based `sum` array by low-bit arithmetic. */
module BinaryIndexTree {
  import opened Bits
  import opened Common

  /** The sum of a sequence of deltas. */
  function Sum(s: seq<int>): int
  {
    if s == [] then 0 else Sum(s[..|s| - 1]) + s[|s| - 1]
  }

  lemma {:induction false} SumSplit(s: seq<int>, i: int)
    requires 0 <= i <= |s|
    ensures Sum(s) == Sum(s[..i]) + Sum(s[i..])
    decreases |s|
  {
    if i < |s| {
      var t := s[..|s| - 1];
      SumSplit(t, i);
      assert t[..i] == s[..i];
      assert s[i..][..|s[i..]| - 1] == t[i..];
    } else {
      assert s[..i] == s;
    }
  }

  lemma {:induction false} SumZero(s: seq<int>)
    requires forall i :: 0 <= i < |s| ==> s[i] == 0
    ensures Sum(s) == 0
    decreases |s|
  {
    if s != [] {
      SumZero(s[..|s| - 1]);
    }
  }

  /** Adding `d` to one delta changes the sum of a slice by `d` exactly when the
      slice holds that delta. */
  lemma {:induction false} SumOfBumpedSlice(s: seq<int>, i: int, d: int, lo: int, hi: int)
    requires 0 <= i < |s| && 0 <= lo <= hi <= |s|
    ensures Sum(s[i := s[i] + d][lo..hi]) == Sum(s[lo..hi]) + (if lo <= i < hi then d else 0)
    decreases hi - lo
  {
    var t := s[i := s[i] + d];
    if lo < hi {
      SumOfBumpedSlice(s, i, d, lo, hi - 1);
      assert t[lo..hi][..hi - 1 - lo] == t[lo..hi - 1];
      assert s[lo..hi][..hi - 1 - lo] == s[lo..hi - 1];
    }
  }

  /** `sum[j]` holds the deltas at indices `j - LowBit(j) .. j - 1`; it covers the
      one-based position `k` when `k` lies in `(j - LowBit(j), j]`. */
  predicate Covers(j: int, k: int)
    requires j > 0
  {
    j - LowBit(j) < k <= j
  }

  /** The update walk: from a position covering `k`, the next one (after adding the
      low bit) covers `k` as well, and no position skipped in between covers it. */
  lemma CoverStep(j: int, k: int)
    requires j > 0 && Covers(j, k)
    ensures Covers(j + LowBit(j), k)
    ensures forall m :: j < m < j + LowBit(j) ==> !Covers(m, k)
  {
    LowBitGrows(j);
    forall m | j < m < j + LowBit(j)
      ensures !Covers(m, k)
    {
      LowBitOfSum(j, m - j);
    }
  }

  /** Python's `idx += idx & -idx` on any integer (for a negative `idx` the second
      operand `-idx` is the non-negative one). */
  function UpdateIndexStep(idx: int): int
  {
    idx + (if idx >= 0 then And(-idx, idx) else And(idx, -idx))
  }

  /** From a negative position the step climbs by the low bit of its magnitude: it
      rises strictly and never passes 0, and 0 is a fixed point. */
  lemma StepFromNonPositive(x: int)
    requires x <= 0
    ensures x < 0 ==> x < UpdateIndexStep(x) <= 0
    ensures x == 0 ==> UpdateIndexStep(x) == 0
  {
    if x < 0 {
      AndNegIsLowBit(-x);
    }
  }

  /** The positions that the loop of `update` visits from a negative position `x`,
      in order, before it reaches 0. */
  function NegativeWalk(x: int): (w: seq<int>)
    requires x < 0
    ensures |w| >= 1 && w[0] == x && UpdateIndexStep(w[|w| - 1]) == 0
    ensures forall i :: 0 <= i < |w| ==> x <= w[i] < 0
    ensures forall i :: 0 <= i < |w| - 1 ==> w[i + 1] == UpdateIndexStep(w[i])
    decreases -x
  {
    StepFromNonPositive(x);
    var y := UpdateIndexStep(x);
    if y == 0 then [x] else [x] + NegativeWalk(y)
  }

  /** Python's `lst[i]` on a list of length `len` is defined exactly for
      `-len <= i < len`; a negative `i` stands for `lst[len + i]`. */
  predicate PyIndexOk(len: nat, i: int)
  {
    0 <= len + i && i < len
  }

  /** As written, `update` rejects only `idx >= n`, so a negative `idx` passes and
      the loop starts at `idx + 1 <= 0`, where `idx <= n` always holds. From -1 it
      starts at 0, a fixed point: it adds `delta` to `sum[0]` forever. From a lower
      index it first visits `NegativeWalk(idx + 1)` through Python's negative
      indexing of the `n + 1` slots: when `idx + 1 >= -(n + 1)` every one of those
      writes lands (on `sum[n + 2 + idx]` and onwards), and the walk then reaches 0
      and stays there forever; otherwise the first write, `sum[idx + 1]`, raises
      IndexError. */
  lemma NegativeIndexAsWritten(n: nat, idx: int)
    requires idx < 0
    ensures idx == -1 ==> PyIndexOk(n + 1, idx + 1) && UpdateIndexStep(idx + 1) == idx + 1
    ensures idx < -1 ==>
      var w := NegativeWalk(idx + 1);
      && (idx + 1 >= -(n + 1) ==> forall i :: 0 <= i < |w| ==> PyIndexOk(n + 1, w[i]))
      && (idx + 1 < -(n + 1) ==> !PyIndexOk(n + 1, w[0]))
      && UpdateIndexStep(w[|w| - 1]) == 0 && PyIndexOk(n + 1, 0)
  {
    StepFromNonPositive(0);
  }

  class BIT {
    const n: nat
    const sum: array<int>
    /** The deltas applied so far, one per index `0 .. n - 1`. */
    ghost var deltas: seq<int>

    ghost predicate Valid()
      reads this, sum
    {
      && sum.Length == n + 1
      && |deltas| == n
      && forall j :: 1 <= j <= n ==> sum[j] == Sum(deltas[j - LowBit(j) .. j])
    }

    constructor (n: nat)
      ensures Valid() && this.n == n
      ensures deltas == seq(n, _ => 0)
    {
      this.n := n;
      sum := new int[n + 1](_ => 0);
      deltas := seq(n, _ => 0);
      new;
      forall j | 1 <= j <= n
        ensures sum[j] == Sum(deltas[j - LowBit(j) .. j])
      {
        SumZero(deltas[j - LowBit(j) .. j]);
      }
    }

    /** Adds `delta` at index `idx`. An index at or above `n`, or negative, is out of
        range (the source rejects only the former). */
    method Update(idx: int, delta: int) returns (r: Outcome<string>)
      requires Valid()
      modifies this, sum
      ensures Valid()
      ensures r == if 0 <= idx < n then Pass else Fail("out of range")
      ensures r.Pass? ==> deltas == old(deltas)[idx := old(deltas)[idx] + delta]
      ensures r.Fail? ==> deltas == old(deltas) && unchanged(sum)
    {
      if idx < 0 || idx >= n {
        return Fail("out of range");
      }
      AddFrom(idx + 1, delta);
      ghost var before := deltas;
      deltas := deltas[idx := deltas[idx] + delta];
      forall j | 1 <= j <= n
        ensures sum[j] == Sum(deltas[j - LowBit(j) .. j])
      {
        SumOfBumpedSlice(before, idx, delta, j - LowBit(j), j);
      }
      r := Pass;
    }

    /** The walk of `update` from the one-based position `k`: adds `delta` to
        exactly the partial sums that cover `k`. */
    method AddFrom(k: int, delta: int)
      requires 1 <= k <= n && sum.Length == n + 1
      modifies sum
      ensures forall j :: 1 <= j <= n ==> sum[j] == old(sum[j]) + (if Covers(j, k) then delta else 0)
    {
      var i := k;
      while i <= n
        invariant k <= i && Covers(i, k)
        invariant forall j :: 1 <= j <= n ==>
          sum[j] == old(sum[j]) + (if j < i && Covers(j, k) then delta else 0)
        decreases n + 1 - i
      {
        sum[i] := sum[i] + delta;
        CoverStep(i, k);
        AndNegIsLowBit(i);
        i := i + And(-i, i);
      }
    }

    /** The sum of the deltas at indices below `idx` (0 for `idx <= 0`); an `idx`
        above `n` is out of range. */
    method GetSum(idx: int) returns (r: Result<int, string>)
      requires Valid()
      ensures r == if idx > n then Failure("out of range")
                   else Success(if idx <= 0 then 0 else Sum(deltas[..idx]))
    {
      if idx > n {
        return Failure("out of range");
      }
      var result := 0;
      var i := idx;
      while i > 0
        invariant i <= idx && (idx <= 0 ==> result == 0)
        invariant idx > 0 ==> 0 <= i && result + Sum(deltas[..i]) == Sum(deltas[..idx])
        decreases i
      {
        SumSplit(deltas[..i], i - LowBit(i));
        assert deltas[..i][..i - LowBit(i)] == deltas[..i - LowBit(i)];
        assert deltas[..i][i - LowBit(i)..] == deltas[i - LowBit(i) .. i];
        result := result + sum[i];
        AndPredIsClearLowBit(i);
        i := And(i, i - 1);
      }
      if idx > 0 {
        assert deltas[..0] == [];
      }
      r := Success(result);
    }
  }
}
