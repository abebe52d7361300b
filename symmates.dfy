/** The symmetry index generator (generate_symmates): for every symmetry
    operator, the argsort of the flat indices that the rotated grid vectors
    round to, and per voxel the number of distinct values across operators. */
module SymmetryIndex {
  import opened Grid
  import opened Lattice
  import opened Sorting

  /** Bin centres along h, k and l. */
  datatype Bins = Bins(h: seq<real>, k: seq<real>, l: seq<real>)

  /** A 3x3 rotation or rotoinversion matrix, given by its rows. */
  datatype Matrix3 = Matrix3(row0: Vec, row1: Vec, row2: Vec)

  /** The floating-point step of the generator: the nearest-integer lattice
      coordinates of subsampling · (op · v + platform), called as
      discretize(op, v, platform, subsampling). */
  type Discretizer = (Matrix3, Vec, real, real) -> Triple

  /** Why the generator fails: np.max of an empty axis, a coordinate that
      ravel_multi_index rejects (for the first such operator key), or no
      operator at all (symm_idx[0] does not exist). */
  datatype SymmError = EmptyAxis | OutOfCube(key: nat) | NoOperators

  datatype Result<T> = Ok(value: T) | Err(error: SymmError)

  /** What the generator returns: per-key index arrays, the grid and the
      per-voxel multiplicities. */
  datatype Symmates = Symmates(symmIdx: seq<seq<nat>>, grid: seq<Vec>, multiplicities: seq<nat>)

  function VoxelGrid(b: Bins): seq<Vec>
  {
    Product(b.h, b.k, b.l)
  }

  predicate NonEmpty(b: Bins)
  {
    b.h != [] && b.k != [] && b.l != []
  }

  function MaxNat(x: nat, y: nat): nat
  {
    if x >= y then x else y
  }

  function MaxReal(x: real, y: real): real
  {
    if x >= y then x else y
  }

  /** Side of the index cube: the longest axis. */
  function Extent(b: Bins): nat
  {
    MaxNat(MaxNat(|b.h|, |b.k|), |b.l|)
  }

  /** np.max of a non-empty sequence. */
  function MaxOf(s: seq<real>): (r: real)
    requires |s| > 0
    ensures r in s
    ensures forall i :: 0 <= i < |s| ==> s[i] <= r
  {
    if |s| == 1 then s[0] else MaxReal(s[0], MaxOf(s[1..]))
  }

  /** Largest bin centre over all three axes. */
  function Platform(b: Bins): real
    requires NonEmpty(b)
  {
    MaxReal(MaxReal(MaxOf(b.h), MaxOf(b.k)), MaxOf(b.l))
  }

  /** The rounded coordinates of every grid vector under operator `key`. */
  function Discretized(ops: seq<Matrix3>, b: Bins, subsampling: real, discretize: Discretizer, key: nat): seq<Triple>
    requires NonEmpty(b) && key < |ops|
  {
    var g := VoxelGrid(b);
    seq(|g|, i requires 0 <= i < |g| => discretize(ops[key], g[i], Platform(b), subsampling))
  }

  predicate KeyInCube(ops: seq<Matrix3>, b: Bins, subsampling: real, discretize: Discretizer, key: nat)
    requires NonEmpty(b) && key < |ops|
  {
    var d := Discretized(ops, b, subsampling, discretize, key);
    forall i :: 0 <= i < |d| ==> InCube(d[i], Extent(b))
  }

  predicate AllKeysInCube(ops: seq<Matrix3>, b: Bins, subsampling: real, discretize: Discretizer)
    requires NonEmpty(b)
  {
    forall key :: 0 <= key < |ops| ==> KeyInCube(ops, b, subsampling, discretize, key)
  }

  /** The raveled flat index of every grid vector under operator `key`. */
  function FlatIndices(ops: seq<Matrix3>, b: Bins, subsampling: real, discretize: Discretizer, key: nat): seq<nat>
    requires NonEmpty(b) && key < |ops| && KeyInCube(ops, b, subsampling, discretize, key)
  {
    var d := Discretized(ops, b, subsampling, discretize, key);
    seq(|d|, i requires 0 <= i < |d| => Ravel(d[i], Extent(b)))
  }

  predicate Rectangular(table: seq<seq<nat>>, g: nat)
  {
    forall key :: 0 <= key < |table| ==> |table[key]| == g
  }

  /** The values in column i of the first n rows of the table. */
  function ColumnValues(table: seq<seq<nat>>, g: nat, i: nat, n: nat): set<nat>
    requires Rectangular(table, g) && i < g && n <= |table|
  {
    set key | 0 <= key < n :: table[key][i]
  }

  /** len(np.unique(combined.T[i])): the number of distinct values that the
      operators give voxel i. */
  function Multiplicity(table: seq<seq<nat>>, g: nat, i: nat): nat
    requires Rectangular(table, g) && i < g
  {
    |ColumnValues(table, g, i, |table|)|
  }

  /** What a successful run of the generator produces. */
  predicate IsSymmates(s: Symmates, ops: seq<Matrix3>, b: Bins, subsampling: real, discretize: Discretizer)
    requires NonEmpty(b) && AllKeysInCube(ops, b, subsampling, discretize)
  {
    && s.grid == VoxelGrid(b)
    && |s.symmIdx| == |ops|
    && (forall key :: 0 <= key < |ops| ==>
          IsSortingPermutation(s.symmIdx[key], FlatIndices(ops, b, subsampling, discretize, key)))
    && Rectangular(s.symmIdx, |s.grid|)
    && |s.multiplicities| == |s.grid|
    && (forall i :: 0 <= i < |s.grid| ==> s.multiplicities[i] == Multiplicity(s.symmIdx, |s.grid|, i))
  }

  lemma {:induction false} ColumnValuesSize(table: seq<seq<nat>>, g: nat, i: nat, n: nat)
    requires Rectangular(table, g) && i < g && n <= |table|
    ensures |ColumnValues(table, g, i, n)| <= n
    ensures n > 0 ==> |ColumnValues(table, g, i, n)| >= 1
  {
    if n > 0 {
      ColumnValuesSize(table, g, i, n - 1);
      assert ColumnValues(table, g, i, n) == ColumnValues(table, g, i, n - 1) + {table[n - 1][i]};
    }
  }

  /** Every multiplicity lies in [1, number of operators]. */
  lemma MultiplicityBounds(table: seq<seq<nat>>, g: nat, i: nat)
    requires Rectangular(table, g) && i < g && |table| > 0
    ensures 1 <= Multiplicity(table, g, i) <= |table|
  {
    ColumnValuesSize(table, g, i, |table|);
  }

  /** A voxel has multiplicity one exactly when every operator sends it to
      the same position. */
  lemma MultiplicityOneIff(table: seq<seq<nat>>, g: nat, i: nat)
    requires Rectangular(table, g) && i < g && |table| > 0
    ensures Multiplicity(table, g, i) == 1 <==> forall key :: 0 <= key < |table| ==> table[key][i] == table[0][i]
  {
    var vals := ColumnValues(table, g, i, |table|);
    if forall key :: 0 <= key < |table| ==> table[key][i] == table[0][i] {
      assert vals == {table[0][i]};
    } else {
      var key :| 0 <= key < |table| && table[key][i] != table[0][i];
      var first := table[0][i];
      assert first in vals;
      assert table[key][i] in vals - {first};
      assert vals == (vals - {first}) + {first};
    }
  }

  /** An operator whose rounded coordinates run in strictly increasing
      lexicographic order over the grid (the identity on ascending bins)
      gets the identity index array: every voxel maps to itself. */
  lemma IdentityOperatorRow(s: Symmates, ops: seq<Matrix3>, b: Bins, subsampling: real, discretize: Discretizer, key: nat)
    requires NonEmpty(b) && AllKeysInCube(ops, b, subsampling, discretize)
    requires IsSymmates(s, ops, b, subsampling, discretize) && key < |ops|
    requires var d := Discretized(ops, b, subsampling, discretize, key);
             forall i, j :: 0 <= i < j < |d| ==> LexLess(d[i], d[j])
    ensures s.symmIdx[key] == Identity(|s.grid|)
  {
    var d := Discretized(ops, b, subsampling, discretize, key);
    var flat := FlatIndices(ops, b, subsampling, discretize, key);
    forall i, j | 0 <= i < j < |flat| ensures flat[i] < flat[j] {
      RavelMonotone(d[i], d[j], Extent(b));
    }
    SortingIncreasingIsIdentity(s.symmIdx[key], flat);
  }

  /** The loop over operator keys (lines 51-58): ravel every rounded
      coordinate and store its argsort, failing at the first key some of
      whose coordinates leave the cube. */
  method IndexArrays(symmOps: seq<Matrix3>, bins: Bins, subsampling: real, discretize: Discretizer)
    returns (r: Result<seq<seq<nat>>>)
    requires NonEmpty(bins)
    ensures r.Ok? <==> AllKeysInCube(symmOps, bins, subsampling, discretize)
    ensures r.Err? ==>
              r.error.OutOfCube? && r.error.key < |symmOps| &&
              !KeyInCube(symmOps, bins, subsampling, discretize, r.error.key) &&
              forall key :: 0 <= key < r.error.key ==> KeyInCube(symmOps, bins, subsampling, discretize, key)
    ensures r.Ok? ==> |r.value| == |symmOps|
    ensures r.Ok? ==> forall key :: 0 <= key < |symmOps| ==>
              IsSortingPermutation(r.value[key], FlatIndices(symmOps, bins, subsampling, discretize, key))
  {
    var extent := Extent(bins);
    var symmIdx: seq<seq<nat>> := [];
    var key := 0;
    while key < |symmOps|
      invariant 0 <= key <= |symmOps|
      invariant |symmIdx| == key
      invariant forall k :: 0 <= k < key ==>
                  KeyInCube(symmOps, bins, subsampling, discretize, k) &&
                  IsSortingPermutation(symmIdx[k], FlatIndices(symmOps, bins, subsampling, discretize, k))
    {
      var rotBump := Discretized(symmOps, bins, subsampling, discretize, key);
      var idx := RavelAll(rotBump, extent);
      if idx.None? {
        assert !KeyInCube(symmOps, bins, subsampling, discretize, key);
        assert !AllKeysInCube(symmOps, bins, subsampling, discretize);
        return Err(OutOfCube(key));
      }
      assert idx.value == FlatIndices(symmOps, bins, subsampling, discretize, key);
      symmIdx := symmIdx + [ArgSort(idx.value)];
      key := key + 1;
    }
    return Ok(symmIdx);
  }

  /** Lines 61-64: stack the index arrays row by row into a table and count
      the distinct values of each column. */
  method Multiplicities(symmIdx: seq<seq<nat>>, g: nat) returns (m: seq<nat>)
    requires Rectangular(symmIdx, g) && |symmIdx| > 0
    ensures |m| == g
    ensures forall i :: 0 <= i < g ==> m[i] == Multiplicity(symmIdx, g, i)
    ensures forall i :: 0 <= i < g ==> 1 <= m[i] <= |symmIdx|
  {
    var n := |symmIdx|;
    var combined := new nat[n, g];
    var key := 0;
    while key < n
      invariant 0 <= key <= n
      invariant forall k, c :: 0 <= k < key && 0 <= c < g ==> combined[k, c] == symmIdx[k][c]
    {
      var c := 0;
      while c < g
        invariant 0 <= c <= g
        invariant forall k, c' :: 0 <= k < key && 0 <= c' < g ==> combined[k, c'] == symmIdx[k][c']
        invariant forall c' :: 0 <= c' < c ==> combined[key, c'] == symmIdx[key][c']
      {
        combined[key, c] := symmIdx[key][c];
        c := c + 1;
      }
      key := key + 1;
    }

    m := [];
    var i := 0;
    while i < g
      invariant 0 <= i <= g
      invariant |m| == i
      invariant forall c :: 0 <= c < i ==> m[c] == Multiplicity(symmIdx, g, c)
    {
      var column := set k | 0 <= k < n :: combined[k, i];
      assert column == ColumnValues(symmIdx, g, i, n);
      m := m + [|column|];
      i := i + 1;
    }
    forall c | 0 <= c < g ensures 1 <= m[c] <= n {
      MultiplicityBounds(symmIdx, g, c);
    }
  }

  /** generate_symmates from the rounded coordinates onward. */
  method GenerateSymmates(symmOps: seq<Matrix3>, bins: Bins, subsampling: real, discretize: Discretizer)
    returns (r: Result<Symmates>)
    ensures r == Err(EmptyAxis) <==> !NonEmpty(bins)
    ensures r == Err(NoOperators) <==> NonEmpty(bins) && |symmOps| == 0
    ensures r.Err? && r.error.OutOfCube? ==>
              NonEmpty(bins) && r.error.key < |symmOps| &&
              !KeyInCube(symmOps, bins, subsampling, discretize, r.error.key) &&
              forall key :: 0 <= key < r.error.key ==> KeyInCube(symmOps, bins, subsampling, discretize, key)
    ensures r.Ok? <==> NonEmpty(bins) && |symmOps| > 0 && AllKeysInCube(symmOps, bins, subsampling, discretize)
    ensures r.Ok? ==> IsSymmates(r.value, symmOps, bins, subsampling, discretize)
    ensures r.Ok? ==> |r.value.grid| == |bins.h| * |bins.k| * |bins.l|
    ensures r.Ok? ==> forall i :: 0 <= i < |r.value.grid| ==> 1 <= r.value.multiplicities[i] <= |symmOps|
  {
    var grid := VoxelGrid(bins);
    ProductLength(bins.h, bins.k, bins.l);
    if !NonEmpty(bins) {
      return Err(EmptyAxis);
    }
    var indexed := IndexArrays(symmOps, bins, subsampling, discretize);
    if indexed.Err? {
      return Err(indexed.error);
    }
    var symmIdx := indexed.value;
    if |symmOps| == 0 {
      return Err(NoOperators);
    }
    assert Rectangular(symmIdx, |grid|) by {
      forall key | 0 <= key < |symmIdx| ensures |symmIdx[key]| == |grid| {
        assert |FlatIndices(symmOps, bins, subsampling, discretize, key)| == |grid|;
      }
    }
    var multiplicities := Multiplicities(symmIdx, |grid|);
    r := Ok(Symmates(symmIdx, grid, multiplicities));
  }
}
