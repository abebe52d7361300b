/** The voxel grid of scattering vectors: the Cartesian product of the bin
    centres along h, k and l, with h varying slowest and l fastest. */
module Grid {

  /** One scattering vector (h, k, l) of the grid. */
  datatype Vec = Vec(h: real, k: real, l: real)

  /** The vectors (h, k, l') for l' running over ls, in order. */
  function Line(h: real, k: real, ls: seq<real>): seq<Vec>
  {
    seq(|ls|, m requires 0 <= m < |ls| => Vec(h, k, ls[m]))
  }

  /** All vectors with first coordinate h, k running slower than l. */
  function Plane(h: real, ks: seq<real>, ls: seq<real>): seq<Vec>
  {
    if ks == [] then [] else Line(h, ks[0], ls) + Plane(h, ks[1..], ls)
  }

  /** The product hs x ks x ls in the order itertools.product yields it. */
  function Product(hs: seq<real>, ks: seq<real>, ls: seq<real>): seq<Vec>
  {
    if hs == [] then [] else Plane(hs[0], ks, ls) + Product(hs[1..], ks, ls)
  }

  /** Row-major position of the triple of bin positions (i, j, m). */
  function FlatIndex(i: nat, j: nat, m: nat, nk: nat, nl: nat): nat
  {
    (i * nk + j) * nl + m
  }

  lemma {:induction false} PlaneLength(h: real, ks: seq<real>, ls: seq<real>)
    ensures |Plane(h, ks, ls)| == |ks| * |ls|
  {
    if ks != [] {
      PlaneLength(h, ks[1..], ls);
      calc {
        |Plane(h, ks, ls)|;
        |ls| + (|ks| - 1) * |ls|;
        |ks| * |ls|;
      }
    }
  }

  /** The grid has exactly |H|·|K|·|L| rows. */
  lemma {:induction false} ProductLength(hs: seq<real>, ks: seq<real>, ls: seq<real>)
    ensures |Product(hs, ks, ls)| == |hs| * |ks| * |ls|
  {
    if hs != [] {
      PlaneLength(hs[0], ks, ls);
      ProductLength(hs[1..], ks, ls);
      SuccTimes(|hs| - 1, |ks|, |ls|);
    }
  }

  lemma {:induction false} PlaneAt(h: real, ks: seq<real>, ls: seq<real>, j: nat, m: nat)
    requires j < |ks| && m < |ls|
    ensures j * |ls| + m < |Plane(h, ks, ls)|
    ensures Plane(h, ks, ls)[j * |ls| + m] == Vec(h, ks[j], ls[m])
  {
    PlaneLength(h, ks, ls);
    if j == 0 {
      assert Plane(h, ks, ls)[m] == Line(h, ks[0], ls)[m];
    } else {
      PlaneAt(h, ks[1..], ls, j - 1, m);
      assert j * |ls| + m == |ls| + ((j - 1) * |ls| + m);
    }
  }

  /** Bin positions (i, j, m) sit at row (i·|K| + j)·|L| + m of the grid:
      h slowest, l fastest. */
  lemma {:induction false} ProductAt(hs: seq<real>, ks: seq<real>, ls: seq<real>, i: nat, j: nat, m: nat)
    requires i < |hs| && j < |ks| && m < |ls|
    ensures FlatIndex(i, j, m, |ks|, |ls|) < |Product(hs, ks, ls)|
    ensures Product(hs, ks, ls)[FlatIndex(i, j, m, |ks|, |ls|)] == Vec(hs[i], ks[j], ls[m])
  {
    ProductLength(hs, ks, ls);
    PlaneLength(hs[0], ks, ls);
    if i == 0 {
      PlaneAt(hs[0], ks, ls, j, m);
      assert FlatIndex(i, j, m, |ks|, |ls|) == j * |ls| + m;
    } else {
      ProductAt(hs[1..], ks, ls, i - 1, j, m);
      assert FlatIndex(i, j, m, |ks|, |ls|) == |ks| * |ls| + FlatIndex(i - 1, j, m, |ks|, |ls|) by {
        SuccFlat(i - 1, j, m, |ks|, |ls|);
      }
    }
  }

  lemma SuccTimes(a: nat, b: nat, c: nat)
    ensures (a + 1) * b * c == b * c + a * b * c
  {
  }

  lemma SuccFlat(i: nat, j: nat, m: nat, nk: nat, nl: nat)
    ensures FlatIndex(i + 1, j, m, nk, nl) == nk * nl + FlatIndex(i, j, m, nk, nl)
  {
    assert (i + 1) * nk + j == nk + (i * nk + j);
    assert (nk + (i * nk + j)) * nl == nk * nl + (i * nk + j) * nl;
  }
}
