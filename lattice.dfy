/** Integer lattice coordinates and their row-major flat index in a cube of
    side `extent`, as numpy's ravel_multi_index computes it with its default
    error mode: a coordinate outside [0, extent) is an error. */
module Lattice {

  datatype Option<T> = None | Some(value: T)

  /** Rounded lattice coordinates of one rotated, shifted grid vector. */
  datatype Triple = Triple(x: int, y: int, z: int)

  predicate InCube(t: Triple, extent: nat)
  {
    0 <= t.x < extent && 0 <= t.y < extent && 0 <= t.z < extent
  }

  /** Lexicographic order on triples: x first, then y, then z. */
  predicate LexLess(s: Triple, t: Triple)
  {
    s.x < t.x || (s.x == t.x && (s.y < t.y || (s.y == t.y && s.z < t.z)))
  }

  /** x·extent² + y·extent + z, the flat index in the cube. */
  function Ravel(t: Triple, extent: nat): nat
    requires InCube(t, extent)
  {
    (t.x * extent + t.y) * extent + t.z
  }

  /** The coordinates of a flat index: the inverse of Ravel. */
  function Unravel(n: nat, extent: nat): Triple
    requires extent > 0
  {
    Triple(n / (extent * extent), (n / extent) % extent, n % extent)
  }

  /** Division with remainder is determined by its quotient and remainder. */
  lemma DivModOf(q: int, d: int, b: int)
    requires d > 0 && 0 <= b < d
    ensures (q * d + b) / d == q && (q * d + b) % d == b
  {
    var n := q * d + b;
    var r, s := n / d, n % d;
    assert d * (q - r) == s - b;
    MulLessCancel(d, q - r, 1);
    MulLessCancel(d, -1, q - r);
  }

  lemma MulLessCancel(d: int, a: int, b: int)
    requires d > 0 && d * a < d * b
    ensures a < b
  {
    assert d * (b - a) == d * b - d * a;
  }

  lemma MulAtLeast(d: int, e: int)
    requires d > 0 && e >= 1
    ensures d * e >= d
  {
    assert d * e == d + d * (e - 1);
  }

  lemma MulBelow(a: int, b: int, d: nat)
    requires 0 <= a < b
    ensures a * d + d <= b * d
  {
    assert b * d == a * d + (b - a) * d;
    if d > 0 {
      MulAtLeast(d, b - a);
      assert (b - a) * d == d * (b - a);
    }
  }

  /** The flat index of an in-range triple lies in [0, extent³). */
  lemma RavelBound(t: Triple, extent: nat)
    requires InCube(t, extent)
    ensures Ravel(t, extent) < extent * extent * extent
  {
    var e := extent;
    MulBelow(t.x, e, e);
    assert t.x * e + t.y < e * e;
    MulBelow(t.x * e + t.y, e * e, e);
  }

  /** Unravelling the flat index of an in-range triple gives the triple back. */
  lemma RavelUnravel(t: Triple, extent: nat)
    requires InCube(t, extent)
    ensures Unravel(Ravel(t, extent), extent) == t
  {
    var e := extent;
    var n := Ravel(t, e);
    var row := t.x * e + t.y;
    DivModOf(row, e, t.z);
    DivModOf(t.x, e, t.y);
    MulBelow(t.y, e, e);
    assert n == t.x * (e * e) + (t.y * e + t.z) by {
      assert row * e == t.x * (e * e) + t.y * e;
    }
    DivModOf(t.x, e * e, t.y * e + t.z);
  }

  /** Every index of the cube is the flat index of exactly the triple Unravel gives. */
  lemma UnravelRavel(n: nat, extent: nat)
    requires extent > 0 && n < extent * extent * extent
    ensures InCube(Unravel(n, extent), extent)
    ensures Ravel(Unravel(n, extent), extent) == n
  {
    var e := extent;
    var t := Unravel(n, e);
    assert (e * e) * (n / (e * e)) <= n;
    MulLessCancel(e * e, n / (e * e), e);
    assert n / e == (n / (e * e)) * e + (n / e) % e by {
      DivDiv(n, e);
    }
    assert n == (n / e) * e + n % e;
  }

  lemma DivDiv(n: nat, e: nat)
    requires e > 0
    ensures n / e == (n / (e * e)) * e + (n / e) % e
    ensures n / (e * e) == (n / e) / e
  {
    var q := n / e;
    var s := n % e;
    var q2 := q / e;
    var s2 := q % e;
    assert n == (q2 * e + s2) * e + s;
    assert n == q2 * (e * e) + (s2 * e + s);
    MulBelow(s2, e, e);
    DivModOf(q2, e * e, s2 * e + s);
  }

  /** Ravel is strictly monotone in lexicographic order. */
  lemma RavelMonotone(s: Triple, t: Triple, extent: nat)
    requires InCube(s, extent) && InCube(t, extent) && LexLess(s, t)
    ensures Ravel(s, extent) < Ravel(t, extent)
  {
    var e := extent;
    var rs, rt := s.x * e + s.y, t.x * e + t.y;
    if s.x < t.x {
      MulBelow(s.x, t.x, e);
      assert rs < rt;
    }
    if rs < rt {
      MulBelow(rs, rt, e);
    }
  }

  /** ravel_multi_index on a whole array of triples: None when any triple
      leaves the cube (numpy raises), otherwise every flat index. */
  function RavelAll(pts: seq<Triple>, extent: nat): (r: Option<seq<nat>>)
    ensures r.None? <==> exists i :: 0 <= i < |pts| && !InCube(pts[i], extent)
    ensures r.Some? ==> |r.value| == |pts|
    ensures r.Some? ==> forall i :: 0 <= i < |pts| ==>
              InCube(pts[i], extent) && r.value[i] == Ravel(pts[i], extent) &&
              r.value[i] < extent * extent * extent
  {
    if forall i :: 0 <= i < |pts| ==> InCube(pts[i], extent) then
      var idx := seq(|pts|, i requires 0 <= i < |pts| => Ravel(pts[i], extent));
      assert forall i :: 0 <= i < |pts| ==> idx[i] < extent * extent * extent by {
        forall i | 0 <= i < |pts| ensures idx[i] < extent * extent * extent {
          RavelBound(pts[i], extent);
        }
      }
      Some(idx)
    else
      None
  }
}
