/** The map symmetrizer (symmetrize): gathers the map through every
    operator's index array and either averages the non-zero contributions
    (unit-cell mode) or sums the first half of the operators (asymmetric-unit
    mode). */
module Symmetrize {
  import SymmetryIndex

  /** Every index array has one entry per voxel and points into the map. */
  predicate WellFormed(table: seq<seq<nat>>, g: nat)
  {
    && (forall key :: 0 <= key < |table| ==> |table[key]| == g)
    && (forall key, i :: 0 <= key < |table| && 0 <= i < |table[key]| ==> table[key][i] < g)
  }

  /** The index arrays of a successful generator run fit a map over its grid,
      so the symmetrizer accepts them. */
  lemma SymmatesWellFormed(s: SymmetryIndex.Symmates, ops: seq<SymmetryIndex.Matrix3>, b: SymmetryIndex.Bins,
                           subsampling: real, discretize: SymmetryIndex.Discretizer)
    requires SymmetryIndex.NonEmpty(b) && SymmetryIndex.AllKeysInCube(ops, b, subsampling, discretize)
    requires SymmetryIndex.IsSymmates(s, ops, b, subsampling, discretize)
    ensures WellFormed(s.symmIdx, |s.grid|)
  {
  }

  /** input[table[key]], the map read through one index array. */
  function Gather(input: seq<real>, row: seq<nat>): (r: seq<real>)
    requires forall i :: 0 <= i < |row| ==> row[i] < |input|
    ensures |r| == |row|
  {
    seq(|row|, i requires 0 <= i < |row| => input[row[i]])
  }

  /** The value that operator `key` gathers into voxel i. */
  function Contribution(input: seq<real>, table: seq<seq<nat>>, key: nat, i: nat): real
    requires WellFormed(table, |input|) && key < |table| && i < |input|
  {
    input[table[key][i]]
  }

  /** Sum of the contributions of the first n operators to voxel i. */
  function SumFirst(input: seq<real>, table: seq<seq<nat>>, i: nat, n: nat): real
    requires WellFormed(table, |input|) && n <= |table| && i < |input|
  {
    if n == 0 then 0.0 else SumFirst(input, table, i, n - 1) + Contribution(input, table, n - 1, i)
  }

  /** How many of the first n operators contribute exactly zero to voxel i. */
  function ZerosFirst(input: seq<real>, table: seq<seq<nat>>, i: nat, n: nat): nat
    requires WellFormed(table, |input|) && n <= |table| && i < |input|
  {
    if n == 0 then 0
    else ZerosFirst(input, table, i, n - 1) + (if Contribution(input, table, n - 1, i) == 0.0 then 1 else 0)
  }

  /** The surviving count of voxel i: operators minus missing contributions. */
  function Count(input: seq<real>, table: seq<seq<nat>>, i: nat): int
    requires WellFormed(table, |input|) && i < |input|
  {
    |table| - ZerosFirst(input, table, i, |table|)
  }

  /** Unit-cell mode at voxel i: the sum divided by the count where the count is non-zero. */
  function UnitCellValue(input: seq<real>, table: seq<seq<nat>>, i: nat): real
    requires WellFormed(table, |input|) && i < |input|
  {
    var count := Count(input, table, i);
    var sum := SumFirst(input, table, i, |table|);
    if count != 0 then sum / count as real else sum
  }

  /** Asymmetric-unit mode at voxel i: the plain sum over the first ⌊N/2⌋ operators. */
  function AsuValue(input: seq<real>, table: seq<seq<nat>>, i: nat): real
    requires WellFormed(table, |input|) && i < |input|
  {
    SumFirst(input, table, i, |table| / 2)
  }

  /** symm_map += xs */
  method AddInPlace(acc: array<real>, xs: seq<real>)
    requires |xs| == acc.Length
    modifies acc
    ensures forall i :: 0 <= i < acc.Length ==> acc[i] == old(acc[i]) + xs[i]
  {
    var i := 0;
    while i < acc.Length
      invariant 0 <= i <= acc.Length
      invariant forall j :: 0 <= j < i ==> acc[j] == old(acc[j]) + xs[j]
      invariant forall j :: i <= j < acc.Length ==> acc[j] == old(acc[j])
    {
      acc[i] := acc[i] + xs[i];
      i := i + 1;
    }
  }

  /** nonzero_counts[np.where(xs == 0)] -= 1 */
  method DecrementWhereZero(counts: array<int>, xs: seq<real>)
    requires |xs| == counts.Length
    modifies counts
    ensures forall i :: 0 <= i < counts.Length ==>
              counts[i] == old(counts[i]) - (if xs[i] == 0.0 then 1 else 0)
  {
    var i := 0;
    while i < counts.Length
      invariant 0 <= i <= counts.Length
      invariant forall j :: 0 <= j < i ==> counts[j] == old(counts[j]) - (if xs[j] == 0.0 then 1 else 0)
      invariant forall j :: i <= j < counts.Length ==> counts[j] == old(counts[j])
    {
      if xs[i] == 0.0 {
        counts[i] := counts[i] - 1;
      }
      i := i + 1;
    }
  }

  /** symm_map[counts != 0] /= counts[counts != 0] */
  method DivideWhereNonzero(acc: array<real>, counts: array<int>)
    requires acc.Length == counts.Length
    modifies acc
    ensures forall i :: 0 <= i < acc.Length ==>
              acc[i] == if counts[i] != 0 then old(acc[i]) / counts[i] as real else old(acc[i])
  {
    var i := 0;
    while i < acc.Length
      invariant 0 <= i <= acc.Length
      invariant forall j :: 0 <= j < i ==>
                  acc[j] == if counts[j] != 0 then old(acc[j]) / counts[j] as real else old(acc[j])
      invariant forall j :: i <= j < acc.Length ==> acc[j] == old(acc[j])
    {
      if counts[i] != 0 {
        acc[i] := acc[i] / counts[i] as real;
      }
      i := i + 1;
    }
  }

  /** symmetrize: works on a copy of the caller's map, which it cannot
      modify, and returns a new map of the same length. */
  method Symmetrize(inputMap: array<real>, symmIdx: seq<seq<nat>>, fromAsu: bool) returns (out: seq<real>)
    requires WellFormed(symmIdx, inputMap.Length)
    ensures |out| == inputMap.Length
    ensures !fromAsu ==> forall i :: 0 <= i < |out| ==> out[i] == UnitCellValue(inputMap[..], symmIdx, i)
    ensures fromAsu ==> forall i :: 0 <= i < |out| ==> out[i] == AsuValue(inputMap[..], symmIdx, i)
  {
    var unsymm := inputMap[..];
    var g, n := |unsymm|, |symmIdx|;
    var symmMap := new real[g](_ => 0.0);
    var counts := new int[g](_ => n);
    if !fromAsu {
      var key := 0;
      while key < n
        invariant 0 <= key <= n
        invariant forall i :: 0 <= i < g ==> symmMap[i] == SumFirst(unsymm, symmIdx, i, key)
        invariant forall i :: 0 <= i < g ==> counts[i] == n - ZerosFirst(unsymm, symmIdx, i, key)
      {
        var gathered := Gather(unsymm, symmIdx[key]);
        AddInPlace(symmMap, gathered);
        DecrementWhereZero(counts, gathered);
        key := key + 1;
      }
      DivideWhereNonzero(symmMap, counts);
    } else {
      var key := 0;
      while key < n / 2
        invariant 0 <= key <= n / 2
        invariant forall i :: 0 <= i < g ==> symmMap[i] == SumFirst(unsymm, symmIdx, i, key)
      {
        AddInPlace(symmMap, Gather(unsymm, symmIdx[key]));
        key := key + 1;
      }
    }
    out := symmMap[..];
  }

  /** Every operator contributes value v to voxel i. */
  predicate ConstantAt(input: seq<real>, table: seq<seq<nat>>, i: nat, v: real)
    requires WellFormed(table, |input|) && i < |input|
  {
    forall key :: 0 <= key < |table| ==> Contribution(input, table, key, i) == v
  }

  /** The map is unchanged by every operator: each voxel gathers its own value. */
  predicate Invariant(input: seq<real>, table: seq<seq<nat>>)
    requires WellFormed(table, |input|)
  {
    forall key, i :: 0 <= key < |table| && 0 <= i < |input| ==> input[table[key][i]] == input[i]
  }

  lemma {:induction false} ZerosFirstBound(input: seq<real>, table: seq<seq<nat>>, i: nat, n: nat)
    requires WellFormed(table, |input|) && n <= |table| && i < |input|
    ensures ZerosFirst(input, table, i, n) <= n
  {
    if n > 0 {
      ZerosFirstBound(input, table, i, n - 1);
    }
  }

  /** The surviving count lies in [0, N]. */
  lemma CountBounds(input: seq<real>, table: seq<seq<nat>>, i: nat)
    requires WellFormed(table, |input|) && i < |input|
    ensures 0 <= Count(input, table, i) <= |table|
  {
    ZerosFirstBound(input, table, i, |table|);
  }

  /** If all of the first n contributions are zero, so is their sum. */
  lemma {:induction false} AllZerosSumZero(input: seq<real>, table: seq<seq<nat>>, i: nat, n: nat)
    requires WellFormed(table, |input|) && n <= |table| && i < |input|
    requires ZerosFirst(input, table, i, n) == n
    ensures SumFirst(input, table, i, n) == 0.0
  {
    if n > 0 {
      ZerosFirstBound(input, table, i, n - 1);
      AllZerosSumZero(input, table, i, n - 1);
    }
  }

  /** A voxel whose every contribution is missing keeps its raw sum, which is 0. */
  lemma UnitCellAllMissing(input: seq<real>, table: seq<seq<nat>>, i: nat)
    requires WellFormed(table, |input|) && i < |input|
    requires Count(input, table, i) == 0
    ensures UnitCellValue(input, table, i) == 0.0
  {
    AllZerosSumZero(input, table, i, |table|);
  }

  /** The number of the first n operators that contribute to voxel i, as a real. */
  function NonZeros(input: seq<real>, table: seq<seq<nat>>, i: nat, n: nat): real
    requires WellFormed(table, |input|) && n <= |table| && i < |input|
  {
    if n == 0 then 0.0
    else NonZeros(input, table, i, n - 1) + (if Contribution(input, table, n - 1, i) == 0.0 then 0.0 else 1.0)
  }

  /** Contributing and missing operators make up all n. */
  lemma {:induction false} NonZerosCount(input: seq<real>, table: seq<seq<nat>>, i: nat, n: nat)
    requires WellFormed(table, |input|) && n <= |table| && i < |input|
    ensures ZerosFirst(input, table, i, n) <= n
    ensures NonZeros(input, table, i, n) == (n - ZerosFirst(input, table, i, n)) as real
  {
    if n > 0 {
      NonZerosCount(input, table, i, n - 1);
    }
  }

  /** When the non-zero contributions of the first n operators lie in [lo, hi],
      their sum lies between lo and hi times their number. */
  lemma {:induction false} SumFirstBetween(input: seq<real>, table: seq<seq<nat>>, i: nat, n: nat, lo: real, hi: real)
    requires WellFormed(table, |input|) && n <= |table| && i < |input|
    requires forall key :: 0 <= key < n && Contribution(input, table, key, i) != 0.0 ==>
               lo <= Contribution(input, table, key, i) <= hi
    ensures NonZeros(input, table, i, n) * lo <= SumFirst(input, table, i, n) <= NonZeros(input, table, i, n) * hi
  {
    if n > 0 {
      SumFirstBetween(input, table, i, n - 1, lo, hi);
      StepBetween(NonZeros(input, table, i, n - 1), SumFirst(input, table, i, n - 1), Contribution(input, table, n - 1, i),
                  NonZeros(input, table, i, n), SumFirst(input, table, i, n), lo, hi);
    }
  }

  /** One operator more: a zero contribution changes neither the sum nor the
      count, a non-zero one in [lo, hi] adds itself to the sum and one to the count. */
  lemma StepBetween(c0: real, s0: real, x: real, c: real, sum: real, lo: real, hi: real)
    requires c0 * lo <= s0 <= c0 * hi && sum == s0 + x
    requires x == 0.0 ==> c == c0
    requires x != 0.0 ==> c == c0 + 1.0 && lo <= x <= hi
    ensures c * lo <= sum <= c * hi
  {
    if x != 0.0 {
      assert c * lo == c0 * lo + lo;
      assert c * hi == c0 * hi + hi;
    }
  }

  /** A quotient by a positive c of a value between c·lo and c·hi lies in [lo, hi]. */
  lemma BetweenDiv(sum: real, c: real, lo: real, hi: real)
    requires c > 0.0 && c * lo <= sum <= c * hi
    ensures lo <= sum / c <= hi
  {
    var q := sum / c;
    assert q * c == sum;
    assert (q - lo) * c == sum - c * lo;
    assert (hi - q) * c == c * hi - sum;
  }

  /** Unit-cell mode averages: where some contribution is non-zero, the output
      lies between the smallest and the largest non-zero contribution. */
  lemma UnitCellIsMean(input: seq<real>, table: seq<seq<nat>>, i: nat, lo: real, hi: real)
    requires WellFormed(table, |input|) && i < |input|
    requires Count(input, table, i) != 0
    requires forall key :: 0 <= key < |table| && Contribution(input, table, key, i) != 0.0 ==>
               lo <= Contribution(input, table, key, i) <= hi
    ensures lo <= UnitCellValue(input, table, i) <= hi
  {
    var c := Count(input, table, i) as real;
    var sum := SumFirst(input, table, i, |table|);
    CountBounds(input, table, i);
    SumFirstBetween(input, table, i, |table|, lo, hi);
    NonZerosCount(input, table, i, |table|);
    BetweenDiv(sum, c, lo, hi);
  }

  /** n equal contributions v sum to n·v, and none is missing unless v is 0. */
  lemma {:induction false} ConstantSums(input: seq<real>, table: seq<seq<nat>>, i: nat, n: nat, v: real)
    requires WellFormed(table, |input|) && n <= |table| && i < |input|
    requires ConstantAt(input, table, i, v)
    ensures SumFirst(input, table, i, n) == n as real * v
    ensures ZerosFirst(input, table, i, n) == if v == 0.0 then n else 0
  {
    if n > 0 {
      ConstantSums(input, table, i, n - 1, v);
    }
  }

  /** If every operator gathers the same non-zero v into voxel i, unit-cell
      mode yields v there. */
  lemma UnitCellConstant(input: seq<real>, table: seq<seq<nat>>, i: nat, v: real)
    requires WellFormed(table, |input|) && i < |input| && |table| > 0
    requires ConstantAt(input, table, i, v) && v != 0.0
    ensures UnitCellValue(input, table, i) == v
  {
    ConstantSums(input, table, i, |table|, v);
  }

  /** Symmetrizing a map that is already invariant under every operator
      returns the map unchanged. */
  lemma UnitCellOfInvariant(input: seq<real>, table: seq<seq<nat>>)
    requires WellFormed(table, |input|) && |table| > 0 && Invariant(input, table)
    ensures forall i :: 0 <= i < |input| ==> UnitCellValue(input, table, i) == input[i]
  {
    forall i | 0 <= i < |input| ensures UnitCellValue(input, table, i) == input[i] {
      assert ConstantAt(input, table, i, input[i]);
      ConstantSums(input, table, i, |table|, input[i]);
    }
  }

  /** In asymmetric-unit mode an invariant map is multiplied by ⌊N/2⌋: the
      sum is not normalised. */
  lemma AsuOfInvariant(input: seq<real>, table: seq<seq<nat>>)
    requires WellFormed(table, |input|) && Invariant(input, table)
    ensures forall i :: 0 <= i < |input| ==> AsuValue(input, table, i) == (|table| / 2) as real * input[i]
  {
    forall i | 0 <= i < |input| ensures AsuValue(input, table, i) == (|table| / 2) as real * input[i] {
      assert ConstantAt(input, table, i, input[i]);
      ConstantSums(input, table, i, |table| / 2, input[i]);
    }
  }
}
