/** numpy's argsort: a permutation of the positions 0..n-1 that reads a key
    sequence in non-decreasing order. numpy's default sort is not stable, so
    callers may rely only on IsSortingPermutation, not on how ties are broken. */
module Sorting {

  predicate Distinct(p: seq<nat>)
  {
    forall i, j :: 0 <= i < j < |p| ==> p[i] != p[j]
  }

  /** p lists each of 0..n-1 exactly once. */
  predicate IsPermutation(p: seq<nat>, n: nat)
  {
    |p| == n && (forall i :: 0 <= i < |p| ==> p[i] < n) && Distinct(p)
  }

  predicate Indexes(p: seq<nat>, keys: seq<int>)
  {
    forall i :: 0 <= i < |p| ==> p[i] < |keys|
  }

  /** Reading keys in the order p gives a non-decreasing sequence. */
  predicate SortsKeys(p: seq<nat>, keys: seq<int>)
    requires Indexes(p, keys)
  {
    forall i, j :: 0 <= i < j < |p| ==> keys[p[i]] <= keys[p[j]]
  }

  predicate IsSortingPermutation(p: seq<nat>, keys: seq<int>)
  {
    IsPermutation(p, |keys|) && SortsKeys(p, keys)
  }

  predicate StrictlyIncreasing(s: seq<int>)
  {
    forall i, j :: 0 <= i < j < |s| ==> s[i] < s[j]
  }

  /** The identity permutation of 0..n-1. */
  function Identity(n: nat): seq<nat>
  {
    seq(n, i requires 0 <= i < n => i)
  }

  /** Puts position x into the key-sorted list p. */
  function Insert(p: seq<nat>, x: nat, keys: seq<int>): (r: seq<nat>)
    requires x < |keys| && Indexes(p, keys) && SortsKeys(p, keys)
    requires Distinct(p) && x !in p
    ensures |r| == |p| + 1
    ensures forall v: nat :: v in r <==> v in p || v == x
    ensures Indexes(r, keys) && SortsKeys(r, keys) && Distinct(r)
  {
    if p == [] || keys[x] <= keys[p[0]] then
      [x] + p
    else
      assert p == [p[0]] + p[1..];
      var rest := Insert(p[1..], x, keys);
      assert p[0] !in rest;
      assert forall j :: 0 <= j < |rest| ==> keys[p[0]] <= keys[rest[j]] by {
        forall j | 0 <= j < |rest| ensures keys[p[0]] <= keys[rest[j]] {
          assert rest[j] in rest;
          if rest[j] != x {
            var k :| 0 <= k < |p[1..]| && p[1..][k] == rest[j];
            assert p[k + 1] == rest[j];
          }
        }
      }
      [p[0]] + rest
  }

  /** Sorts the positions 0..n-1 by their keys. */
  function SortPrefix(keys: seq<int>, n: nat): (r: seq<nat>)
    requires n <= |keys|
    ensures |r| == n
    ensures forall v: nat :: v in r <==> v < n
    ensures Indexes(r, keys) && SortsKeys(r, keys) && Distinct(r)
  {
    if n == 0 then
      []
    else
      var prev := SortPrefix(keys, n - 1);
      assert n - 1 !in prev;
      Insert(prev, n - 1, keys)
  }

  /** One sorting permutation of keys, as np.argsort returns. */
  function ArgSort(keys: seq<int>): (r: seq<nat>)
    ensures IsSortingPermutation(r, keys)
  {
    SortPrefix(keys, |keys|)
  }

  /** In a strictly increasing sequence, values grow at least as fast as positions. */
  lemma {:induction false} IncreasingGap(p: seq<nat>, i: nat, j: nat)
    requires StrictlyIncreasing(p) && i <= j < |p|
    ensures p[j] - p[i] >= j - i
  {
    if i < j {
      IncreasingGap(p, i, j - 1);
    }
  }

  /** When the keys are strictly increasing, the only sorting permutation is
      the identity: argsort of the grid's own flat indices leaves every voxel
      in place. */
  lemma SortingIncreasingIsIdentity(p: seq<nat>, keys: seq<int>)
    requires IsSortingPermutation(p, keys) && StrictlyIncreasing(keys)
    ensures p == Identity(|keys|)
  {
    var n := |keys|;
    assert StrictlyIncreasing(p);
    forall i | 0 <= i < n ensures p[i] == i {
      IncreasingGap(p, 0, i);
      IncreasingGap(p, i, n - 1);
    }
  }
}
