/** The resolution calculator (compute_resolution): the d-spacing of every
    scattering vector, by a closed-form formula chosen from the space-group
    number. The model works with squares: it returns d² = 1 / (1/d)², which
    avoids the square root; d itself is the positive root of each entry.
    A flag picks the sign of the monoclinic cross term: as the calculator
    writes it, or as the standard formula has it. */
module Resolution {
  import opened Grid

  /** Unit-cell constants (a, b, c, alpha, beta, gamma), angles in degrees. */
  datatype Cell = Cell(a: real, b: real, c: real, alpha: real, beta: real, gamma: real)

  /** The formula families, in the order compute_resolution tests them. */
  datatype Family = Orthorhombic | Hexagonal | Monoclinic | Unsupported

  /** Orthorhombic, tetragonal and cubic groups (16–142, 195–230) first,
      then hexagonal (168–194), then monoclinic (3–15); nothing else. */
  function Classify(spaceGroup: int): (f: Family)
    ensures f != Unsupported <==> 3 <= spaceGroup <= 142 || 168 <= spaceGroup <= 230
  {
    if (16 <= spaceGroup <= 142) || (195 <= spaceGroup <= 230) then Orthorhombic
    else if 168 <= spaceGroup <= 194 then Hexagonal
    else if 3 <= spaceGroup <= 15 then Monoclinic
    else Unsupported
  }

  /** The smallest 1/d the calculator lets through: 1e-5. */
  const InvDFloor: real := 0.00001

  function Sq(x: real): real
  {
    x * x
  }

  /** A non-zero real has a positive square. */
  lemma SqPos(x: real)
    requires x != 0.0
    ensures Sq(x) > 0.0
  {
    if x > 0.0 {
      calc {
        Sq(x);
        == x * x;
        > 0.0 * x;
      }
    } else {
      calc {
        Sq(x);
        == (-x) * (-x);
        > 0.0 * (-x);
      }
    }
  }

  lemma SqNonNeg(x: real)
    ensures Sq(x) >= 0.0
    ensures Sq(x) == 0.0 <==> x == 0.0
  {
    if x != 0.0 {
      SqPos(x);
    }
  }

  lemma MulNonZero(x: real, y: real)
    requires x != 0.0 && y != 0.0
    ensures x * y != 0.0
  {
  }

  /** The formulas divide by the cell lengths. */
  predicate ValidCell(cell: Cell)
  {
    cell.a != 0.0 && cell.b != 0.0 && cell.c != 0.0
  }

  /** 1/d² = (h/a)² + (k/b)² + (l/c)². */
  function OrthorhombicInvDSq(cell: Cell, v: Vec): real
    requires ValidCell(cell)
  {
    Sq(v.h / cell.a) + Sq(v.k / cell.b) + Sq(v.l / cell.c)
  }

  /** 1/d² = 4(h² + hk + k²) / (3a²) + (l/c)². */
  function HexagonalInvDSq(cell: Cell, v: Vec): real
    requires HexagonalCell(cell)
  {
    SqPos(cell.a);
    4.0 * (Sq(v.h) + v.h * v.k + Sq(v.k)) / (3.0 * Sq(cell.a)) + Sq(v.l / cell.c)
  }

  /** The monoclinic expression exactly as the calculator writes it:
      (h/(a sinβ))² + (k/b)² + (l/(c sinβ))² + 2hl cosβ / (a c sin²β),
      for sinβ = sinBeta and cosβ = cosBeta. The cross term has the wrong
      sign (see MonoclinicAsWrittenMirrors). */
  function MonoclinicInvDSqAsWritten(cell: Cell, v: Vec, sinBeta: real, cosBeta: real): real
    requires ValidCell(cell) && sinBeta != 0.0
  {
    MulNonZero(cell.a, sinBeta);
    MulNonZero(cell.c, sinBeta);
    MulNonZero(cell.a, cell.c);
    SqPos(sinBeta);
    MulNonZero(cell.a * cell.c, Sq(sinBeta));
    Sq(v.h / (cell.a * sinBeta)) + Sq(v.k / cell.b) + Sq(v.l / (cell.c * sinBeta))
      + 2.0 * v.h * v.l * cosBeta / (cell.a * cell.c * Sq(sinBeta))
  }

  /** The monoclinic 1/d² for unique axis b:
      (h/(a sinβ))² + (k/b)² + (l/(c sinβ))² − 2hl cosβ / (a c sin²β). */
  function MonoclinicInvDSq(cell: Cell, v: Vec, sinBeta: real, cosBeta: real): real
    requires ValidCell(cell) && sinBeta != 0.0
  {
    MulNonZero(cell.a, sinBeta);
    MulNonZero(cell.c, sinBeta);
    MulNonZero(cell.a, cell.c);
    SqPos(sinBeta);
    MulNonZero(cell.a * cell.c, Sq(sinBeta));
    Sq(v.h / (cell.a * sinBeta)) + Sq(v.k / cell.b) + Sq(v.l / (cell.c * sinBeta))
      - 2.0 * v.h * v.l * cosBeta / (cell.a * cell.c * Sq(sinBeta))
  }

  /** Which sign the monoclinic cross term carries: the calculator as written
      adds it, the standard formula for unique axis b subtracts it. */
  datatype CrossSign = AsWritten | Standard

  /** The monoclinic 1/d² with the chosen sign of the cross term. */
  function MonoclinicBranch(sign: CrossSign, cell: Cell, v: Vec, sinBeta: real, cosBeta: real): real
    requires ValidCell(cell) && sinBeta != 0.0
  {
    match sign
    case AsWritten => MonoclinicInvDSqAsWritten(cell, v, sinBeta, cosBeta)
    case Standard => MonoclinicInvDSq(cell, v, sinBeta, cosBeta)
  }

  /** The hexagonal formula divides by a and c only. */
  predicate HexagonalCell(cell: Cell)
  {
    cell.a != 0.0 && cell.c != 0.0
  }

  /** What each family's formula divides by must be non-zero: a, b and c for
      orthorhombic; a and c for hexagonal; a, b, c and sinβ for monoclinic;
      nothing for an unsupported group, which returns before any formula. */
  predicate Defined(f: Family, cell: Cell, sinDeg: real -> real)
  {
    match f
    case Orthorhombic => ValidCell(cell)
    case Hexagonal => HexagonalCell(cell)
    case Monoclinic => ValidCell(cell) && sinDeg(cell.beta) != 0.0
    case Unsupported => true
  }

  /** sin and cos are supplied by the caller as functions of an angle given
      in degrees (the conversion to radians is part of them). */
  predicate Admissible(spaceGroup: int, cell: Cell, sinDeg: real -> real)
  {
    Defined(Classify(spaceGroup), cell, sinDeg)
  }

  function InvDSq(sign: CrossSign, f: Family, cell: Cell, v: Vec, sinDeg: real -> real, cosDeg: real -> real): real
    requires f != Unsupported && Defined(f, cell, sinDeg)
  {
    match f
    case Orthorhombic => OrthorhombicInvDSq(cell, v)
    case Hexagonal => HexagonalInvDSq(cell, v)
    case Monoclinic => MonoclinicBranch(sign, cell, v, sinDeg(cell.beta), cosDeg(cell.beta))
  }

  /** inv_d[inv_d == 0] = 1e-5, stated on squares: √q is zero exactly when q is. */
  function Clamp(q: real): (r: real)
    ensures r != 0.0
    ensures q != 0.0 ==> r == q
  {
    if q == 0.0 then InvDFloor * InvDFloor else q
  }

  /** compute_resolution, returning d² per scattering vector, in order; the
      empty sequence when the space group is unsupported. `AsWritten` is the
      calculator as it stands, `Standard` the corrected monoclinic branch. */
  function ComputeResolution(sign: CrossSign, spaceGroup: int, cell: Cell, sGrid: seq<Vec>,
                             sinDeg: real -> real, cosDeg: real -> real): (r: seq<real>)
    requires Admissible(spaceGroup, cell, sinDeg)
    ensures Classify(spaceGroup) == Unsupported ==> r == []
    ensures Classify(spaceGroup) != Unsupported ==> |r| == |sGrid|
    ensures forall i :: 0 <= i < |r| ==> r[i] != 0.0
  {
    var f := Classify(spaceGroup);
    if f == Unsupported then
      []
    else
      seq(|sGrid|, i requires 0 <= i < |sGrid| => Resolve(Clamp(InvDSq(sign, f, cell, sGrid[i], sinDeg, cosDeg))))
  }

  /** res = 1.0 / inv_d, on squares; never zero. */
  function Resolve(q: real): (r: real)
    requires q != 0.0
    ensures r != 0.0 && r * q == 1.0
  {
    1.0 / q
  }

  const Origin: Vec := Vec(0.0, 0.0, 0.0)

  lemma DivZero(d: real)
    requires d != 0.0
    ensures 0.0 / d == 0.0
  {
  }

  lemma DivNonZero(n: real, d: real)
    requires n != 0.0 && d != 0.0
    ensures n / d != 0.0
  {
  }

  lemma DivSign(n: real, d: real)
    requires d > 0.0
    ensures n >= 0.0 ==> n / d >= 0.0
    ensures n > 0.0 ==> n / d > 0.0
  {
  }

  /** A coordinate over a non-zero length is zero exactly when the coordinate is. */
  lemma ScaledSq(x: real, len: real)
    requires len != 0.0
    ensures Sq(x / len) >= 0.0
    ensures Sq(x / len) == 0.0 <==> x == 0.0
  {
    if x == 0.0 {
      DivZero(len);
    } else {
      DivNonZero(x, len);
    }
    SqNonNeg(x / len);
  }

  /** Sum of squares vanishes only at the origin. */
  lemma OrthorhombicZeroIff(cell: Cell, v: Vec)
    requires ValidCell(cell)
    ensures OrthorhombicInvDSq(cell, v) >= 0.0
    ensures OrthorhombicInvDSq(cell, v) == 0.0 <==> v == Origin
  {
    ScaledSq(v.h, cell.a);
    ScaledSq(v.k, cell.b);
    ScaledSq(v.l, cell.c);
  }

  /** 4(h² + hk + k²) = (2h + k)² + 3k². */
  lemma HexagonalCompletedSquare(h: real, k: real)
    ensures 4.0 * (Sq(h) + h * k + Sq(k)) == Sq(2.0 * h + k) + 3.0 * Sq(k)
  {
  }

  /** h² + hk + k² is positive definite. */
  lemma HexagonalPlaneForm(h: real, k: real)
    ensures Sq(h) + h * k + Sq(k) >= 0.0
    ensures Sq(h) + h * k + Sq(k) == 0.0 <==> h == 0.0 && k == 0.0
  {
    HexagonalCompletedSquare(h, k);
    SqNonNeg(2.0 * h + k);
    SqNonNeg(k);
  }

  /** The hexagonal form is non-negative and vanishes only at the origin too. */
  lemma HexagonalZeroIff(cell: Cell, v: Vec)
    requires HexagonalCell(cell)
    ensures HexagonalInvDSq(cell, v) >= 0.0
    ensures HexagonalInvDSq(cell, v) == 0.0 <==> v == Origin
  {
    var p := Sq(v.h) + v.h * v.k + Sq(v.k);
    HexagonalPlaneForm(v.h, v.k);
    SqPos(cell.a);
    DivSign(4.0 * p, 3.0 * Sq(cell.a));
    if p == 0.0 {
      DivZero(3.0 * Sq(cell.a));
    }
    ScaledSq(v.l, cell.c);
  }

  /** Orthorhombic, tetragonal and cubic groups: d² · ((h/a)² + (k/b)² + (l/c)²) = 1
      away from the origin, and d² is positive. */
  lemma OrthorhombicDSpacing(sign: CrossSign, spaceGroup: int, cell: Cell, sGrid: seq<Vec>,
                             sinDeg: real -> real, cosDeg: real -> real, i: nat)
    requires Admissible(spaceGroup, cell, sinDeg)
    requires (16 <= spaceGroup <= 142) || (195 <= spaceGroup <= 230)
    requires i < |sGrid| && sGrid[i] != Origin
    ensures var r := ComputeResolution(sign, spaceGroup, cell, sGrid, sinDeg, cosDeg);
            |r| == |sGrid| && OrthorhombicInvDSq(cell, sGrid[i]) > 0.0 &&
            r[i] == 1.0 / OrthorhombicInvDSq(cell, sGrid[i]) && r[i] > 0.0 && r[i] * OrthorhombicInvDSq(cell, sGrid[i]) == 1.0
  {
    OrthorhombicZeroIff(cell, sGrid[i]);
  }

  /** Hexagonal groups: d² · (4(h² + hk + k²)/(3a²) + (l/c)²) = 1 away from the origin. */
  lemma HexagonalDSpacing(sign: CrossSign, spaceGroup: int, cell: Cell, sGrid: seq<Vec>,
                          sinDeg: real -> real, cosDeg: real -> real, i: nat)
    requires Admissible(spaceGroup, cell, sinDeg)
    requires 168 <= spaceGroup <= 194
    requires i < |sGrid| && sGrid[i] != Origin
    ensures var r := ComputeResolution(sign, spaceGroup, cell, sGrid, sinDeg, cosDeg);
            |r| == |sGrid| && r[i] > 0.0 && r[i] * HexagonalInvDSq(cell, sGrid[i]) == 1.0
  {
    HexagonalZeroIff(cell, sGrid[i]);
  }

  lemma QuotientProduct(h: real, l: real, p: real, q: real)
    requires p != 0.0 && q != 0.0
    ensures h * l == ((h / p) * (l / q)) * (p * q)
  {
    var x, z := h / p, l / q;
    assert x * p == h;
    assert z * q == l;
    calc {
      h * l;
      == (x * p) * (z * q);
      == (x * z) * (p * q);
    }
  }

  lemma Regroup(a: real, c: real, s: real)
    ensures (a * s) * (c * s) == a * c * Sq(s)
  {
  }

  lemma Cancel(h: real, l: real, co: real, w: real, den: real)
    requires den != 0.0 && h * l == w * den
    ensures 2.0 * h * l * co / den == 2.0 * w * co
  {
    calc {
      2.0 * h * l * co / den;
      == (2.0 * w * co) * den / den;
    }
  }

  /** The monoclinic cross term 2hl cosβ / (a c sin²β) is 2xz cosβ for
      x = h/(a sinβ) and z = l/(c sinβ). */
  lemma CrossTerm(h: real, l: real, a: real, c: real, s: real, co: real, x: real, z: real, t: real)
    requires a != 0.0 && c != 0.0 && s != 0.0
    requires a * s != 0.0 && c * s != 0.0 && a * c * Sq(s) != 0.0
    requires x == h / (a * s) && z == l / (c * s)
    requires t == 2.0 * h * l * co / (a * c * Sq(s))
    ensures t == 2.0 * x * z * co
  {
    QuotientProduct(h, l, a * s, c * s);
    Regroup(a, c, s);
    Cancel(h, l, co, x * z, a * c * Sq(s));
  }

  /** With sin²β + cos²β = 1: x² + z² − 2xz cosβ = (x − z cosβ)² + z² sin²β. */
  lemma MonoclinicCompletedSquare(x: real, z: real, s: real, co: real)
    requires Sq(s) + Sq(co) == 1.0
    ensures Sq(x) + Sq(z) - 2.0 * x * z * co == Sq(x - z * co) + Sq(z) * Sq(s)
  {
    assert Sq(z) * Sq(s) == Sq(z) * (1.0 - Sq(co));
  }

  lemma WeightedSq(z: real, s: real)
    requires s != 0.0
    ensures Sq(z) * Sq(s) >= 0.0
    ensures Sq(z) * Sq(s) == 0.0 <==> z == 0.0
  {
    SqNonNeg(z);
    SqPos(s);
    if z != 0.0 {
      SqPos(z);
      calc {
        Sq(z) * Sq(s);
        > 0.0 * Sq(s);
      }
    }
  }

  /** x² + y² + z² − 2xz cosβ is positive definite when sin²β + cos²β = 1 and sinβ ≠ 0. */
  lemma MonoclinicFormSign(q: real, x: real, y: real, z: real, s: real, co: real)
    requires s != 0.0 && Sq(s) + Sq(co) == 1.0
    requires q == Sq(x) + Sq(y) + Sq(z) - 2.0 * x * z * co
    ensures q >= 0.0
    ensures q == 0.0 <==> x == 0.0 && y == 0.0 && z == 0.0
  {
    MonoclinicCompletedSquare(x, z, s, co);
    SqNonNeg(x - z * co);
    WeightedSq(z, s);
    SqNonNeg(y);
    if z == 0.0 {
      assert x - z * co == x;
    }
  }

  /** The monoclinic reduced coordinates h/(a sinβ) and l/(c sinβ). */
  function ReducedH(cell: Cell, v: Vec, sinBeta: real): real
    requires ValidCell(cell) && sinBeta != 0.0
  {
    MulNonZero(cell.a, sinBeta);
    v.h / (cell.a * sinBeta)
  }

  function ReducedL(cell: Cell, v: Vec, sinBeta: real): real
    requires ValidCell(cell) && sinBeta != 0.0
  {
    MulNonZero(cell.c, sinBeta);
    v.l / (cell.c * sinBeta)
  }

  /** A reduced coordinate vanishes exactly when the coordinate does. */
  lemma ReducedZeroIff(cell: Cell, v: Vec, sinBeta: real)
    requires ValidCell(cell) && sinBeta != 0.0
    ensures ReducedH(cell, v, sinBeta) == 0.0 <==> v.h == 0.0
    ensures ReducedL(cell, v, sinBeta) == 0.0 <==> v.l == 0.0
    ensures v.k / cell.b == 0.0 <==> v.k == 0.0
  {
    MulNonZero(cell.a, sinBeta);
    MulNonZero(cell.c, sinBeta);
    if v.h == 0.0 { DivZero(cell.a * sinBeta); } else { DivNonZero(v.h, cell.a * sinBeta); }
    if v.l == 0.0 { DivZero(cell.c * sinBeta); } else { DivNonZero(v.l, cell.c * sinBeta); }
    if v.k == 0.0 { DivZero(cell.b); } else { DivNonZero(v.k, cell.b); }
  }

  /** The monoclinic cross term in reduced coordinates: 2xz cosβ. */
  lemma MonoclinicCrossReduced(cell: Cell, v: Vec, sinBeta: real, cosBeta: real)
    requires ValidCell(cell) && sinBeta != 0.0
    ensures cell.a * cell.c * Sq(sinBeta) != 0.0
    ensures 2.0 * v.h * v.l * cosBeta / (cell.a * cell.c * Sq(sinBeta))
         == 2.0 * ReducedH(cell, v, sinBeta) * ReducedL(cell, v, sinBeta) * cosBeta
  {
    MulNonZero(cell.a, sinBeta);
    MulNonZero(cell.c, sinBeta);
    MulNonZero(cell.a, cell.c);
    SqPos(sinBeta);
    MulNonZero(cell.a * cell.c, Sq(sinBeta));
    CrossTerm(v.h, v.l, cell.a, cell.c, sinBeta, cosBeta, ReducedH(cell, v, sinBeta), ReducedL(cell, v, sinBeta),
              2.0 * v.h * v.l * cosBeta / (cell.a * cell.c * Sq(sinBeta)));
  }

  /** The monoclinic form in terms of its four summands. */
  lemma MonoclinicUnfold(cell: Cell, v: Vec, sinBeta: real, cosBeta: real, x: real, y: real, z: real, t: real)
    requires ValidCell(cell) && sinBeta != 0.0
    requires cell.a * sinBeta != 0.0 && cell.c * sinBeta != 0.0 && cell.a * cell.c * Sq(sinBeta) != 0.0
    requires x == v.h / (cell.a * sinBeta) && y == v.k / cell.b && z == v.l / (cell.c * sinBeta)
    requires t == 2.0 * v.h * v.l * cosBeta / (cell.a * cell.c * Sq(sinBeta))
    ensures MonoclinicInvDSq(cell, v, sinBeta, cosBeta) == Sq(x) + Sq(y) + Sq(z) - t
  {
  }

  lemma MonoclinicAsWrittenUnfold(cell: Cell, v: Vec, sinBeta: real, cosBeta: real, x: real, y: real, z: real, t: real)
    requires ValidCell(cell) && sinBeta != 0.0
    requires cell.a * sinBeta != 0.0 && cell.c * sinBeta != 0.0 && cell.a * cell.c * Sq(sinBeta) != 0.0
    requires x == v.h / (cell.a * sinBeta) && y == v.k / cell.b && z == v.l / (cell.c * sinBeta)
    requires t == 2.0 * v.h * v.l * cosBeta / (cell.a * cell.c * Sq(sinBeta))
    ensures MonoclinicInvDSqAsWritten(cell, v, sinBeta, cosBeta) == Sq(x) + Sq(y) + Sq(z) + t
  {
  }

  /** The monoclinic form in reduced coordinates: x² + (k/b)² + z² − 2xz cosβ. */
  lemma MonoclinicReduced(cell: Cell, v: Vec, sinBeta: real, cosBeta: real)
    requires ValidCell(cell) && sinBeta != 0.0
    ensures MonoclinicInvDSq(cell, v, sinBeta, cosBeta)
         == Sq(ReducedH(cell, v, sinBeta)) + Sq(v.k / cell.b) + Sq(ReducedL(cell, v, sinBeta))
            - 2.0 * ReducedH(cell, v, sinBeta) * ReducedL(cell, v, sinBeta) * cosBeta
  {
    MulNonZero(cell.a, sinBeta);
    MulNonZero(cell.c, sinBeta);
    MonoclinicCrossReduced(cell, v, sinBeta, cosBeta);
    MonoclinicUnfold(cell, v, sinBeta, cosBeta, ReducedH(cell, v, sinBeta), v.k / cell.b, ReducedL(cell, v, sinBeta),
                     2.0 * v.h * v.l * cosBeta / (cell.a * cell.c * Sq(sinBeta)));
  }

  /** The expression as written in reduced coordinates: x² + (k/b)² + z² + 2xz cosβ. */
  lemma MonoclinicAsWrittenReduced(cell: Cell, v: Vec, sinBeta: real, cosBeta: real)
    requires ValidCell(cell) && sinBeta != 0.0
    ensures MonoclinicInvDSqAsWritten(cell, v, sinBeta, cosBeta)
         == Sq(ReducedH(cell, v, sinBeta)) + Sq(v.k / cell.b) + Sq(ReducedL(cell, v, sinBeta))
            + 2.0 * ReducedH(cell, v, sinBeta) * ReducedL(cell, v, sinBeta) * cosBeta
  {
    MulNonZero(cell.a, sinBeta);
    MulNonZero(cell.c, sinBeta);
    MonoclinicCrossReduced(cell, v, sinBeta, cosBeta);
    MonoclinicAsWrittenUnfold(cell, v, sinBeta, cosBeta, ReducedH(cell, v, sinBeta), v.k / cell.b, ReducedL(cell, v, sinBeta),
                              2.0 * v.h * v.l * cosBeta / (cell.a * cell.c * Sq(sinBeta)));
  }

  /** For a genuine angle β (sin²β + cos²β = 1, sinβ ≠ 0) the monoclinic form
      is positive definite: it is non-negative and vanishes only at the origin. */
  lemma MonoclinicZeroIff(cell: Cell, v: Vec, sinBeta: real, cosBeta: real)
    requires ValidCell(cell) && sinBeta != 0.0
    requires Sq(sinBeta) + Sq(cosBeta) == 1.0
    ensures MonoclinicInvDSq(cell, v, sinBeta, cosBeta) >= 0.0
    ensures MonoclinicInvDSq(cell, v, sinBeta, cosBeta) == 0.0 <==> v == Origin
  {
    MonoclinicReduced(cell, v, sinBeta, cosBeta);
    MonoclinicFormSign(MonoclinicInvDSq(cell, v, sinBeta, cosBeta),
                       ReducedH(cell, v, sinBeta), v.k / cell.b, ReducedL(cell, v, sinBeta), sinBeta, cosBeta);
    ReducedZeroIff(cell, v, sinBeta);
  }

  lemma MirrorAlgebra(x: real, y: real, z: real, zm: real, co: real)
    requires zm == -z
    ensures Sq(x) + Sq(y) + Sq(zm) - 2.0 * x * zm * co == Sq(x) + Sq(y) + Sq(z) + 2.0 * x * z * co
  {
  }

  lemma NegQuot(n: real, d: real)
    requires d != 0.0
    ensures (-n) / d == -(n / d)
  {
  }

  /** The expression as written is the monoclinic 1/d² of the mirror plane
      (h, k, −l): the sign of its cross term is flipped. */
  lemma MonoclinicAsWrittenMirrors(cell: Cell, v: Vec, sinBeta: real, cosBeta: real)
    requires ValidCell(cell) && sinBeta != 0.0
    ensures MonoclinicInvDSqAsWritten(cell, v, sinBeta, cosBeta)
         == MonoclinicInvDSq(cell, Vec(v.h, v.k, -v.l), sinBeta, cosBeta)
  {
    var w := Vec(v.h, v.k, -v.l);
    MonoclinicAsWrittenReduced(cell, v, sinBeta, cosBeta);
    MonoclinicReduced(cell, w, sinBeta, cosBeta);
    assert ReducedL(cell, w, sinBeta) == -ReducedL(cell, v, sinBeta) by {
      MulNonZero(cell.c, sinBeta);
      NegQuot(v.l, cell.c * sinBeta);
    }
    MirrorAlgebra(ReducedH(cell, v, sinBeta), v.k / cell.b, ReducedL(cell, v, sinBeta),
                  ReducedL(cell, w, sinBeta), cosBeta);
  }

  lemma DivMul(n: real, d: real)
    requires d != 0.0
    ensures (n / d) * d == n
  {
  }

  lemma QuotOfProduct(p: real, d: real, n: real)
    requires d != 0.0 && p * d == n
    ensures n / d == p
  {
  }

  lemma SqProducts(x: real, z: real, p: real)
    ensures Sq(x * p) + (x * p) * (z * p) + Sq(z * p) == (Sq(x) + Sq(z) + x * z) * Sq(p)
  {
  }

  lemma SqMul(a: real, s: real)
    ensures Sq(a * s) == Sq(a) * Sq(s)
  {
  }

  /** With sin²β = 3/4 and cosβ = −1/2 (β = 120°), the in-plane part of the
      monoclinic form over a = c is the hexagonal 4(h² + hl + l²)/(3a²). */
  lemma HexagonalPlaneReduced(h: real, l: real, a: real, s: real, x: real, z: real)
    requires a != 0.0 && a * s != 0.0 && Sq(s) == 0.75
    requires x == h / (a * s) && z == l / (a * s)
    ensures Sq(a) != 0.0
    ensures Sq(x) + Sq(z) - 2.0 * x * z * (-0.5) == 4.0 * (Sq(h) + h * l + Sq(l)) / (3.0 * Sq(a))
  {
    SqPos(a);
    DivMul(h, a * s);
    DivMul(l, a * s);
    SqProducts(x, z, a * s);
    SqMul(a, s);
    var p := Sq(x) + Sq(z) + x * z;
    assert p * (3.0 * Sq(a)) == 4.0 * (Sq(h) + h * l + Sq(l));
    QuotOfProduct(p, 3.0 * Sq(a), 4.0 * (Sq(h) + h * l + Sq(l)));
  }

  /** A monoclinic cell with a = c and β = 120° is the hexagonal lattice with
      its unique axis along b: the monoclinic formula gives the same 1/d² as
      the hexagonal one with k and l exchanged. */
  lemma MonoclinicMatchesHexagonal(a: real, b: real, v: Vec, sinBeta: real)
    requires a != 0.0 && b != 0.0 && sinBeta != 0.0 && Sq(sinBeta) == 0.75
    ensures MonoclinicInvDSq(Cell(a, b, a, 90.0, 120.0, 90.0), v, sinBeta, -0.5)
         == HexagonalInvDSq(Cell(a, a, b, 90.0, 90.0, 120.0), Vec(v.h, v.l, v.k))
  {
    var mono := Cell(a, b, a, 90.0, 120.0, 90.0);
    MonoclinicReduced(mono, v, sinBeta, -0.5);
    MulNonZero(a, sinBeta);
    HexagonalPlaneReduced(v.h, v.l, a, sinBeta, ReducedH(mono, v, sinBeta), ReducedL(mono, v, sinBeta));
  }

  /** The discrepancy on one plane: with a = b = c = 1 and β = 120°, the
      expression as written gives 1/d² = 4/3 for (1, 0, 1), whereas the same
      lattice described as hexagonal gives 4 for that plane, (1, 1, 0) in
      hexagonal indexing; the corrected form gives 4 as well. */
  lemma MonoclinicAsWrittenDisagrees(sinBeta: real)
    requires sinBeta != 0.0 && Sq(sinBeta) == 0.75
    ensures MonoclinicInvDSqAsWritten(Cell(1.0, 1.0, 1.0, 90.0, 120.0, 90.0), Vec(1.0, 0.0, 1.0), sinBeta, -0.5)
            == 4.0 / 3.0
    ensures HexagonalInvDSq(Cell(1.0, 1.0, 1.0, 90.0, 90.0, 120.0), Vec(1.0, 1.0, 0.0)) == 4.0
    ensures MonoclinicInvDSq(Cell(1.0, 1.0, 1.0, 90.0, 120.0, 90.0), Vec(1.0, 0.0, 1.0), sinBeta, -0.5) == 4.0
  {
    var mono := Cell(1.0, 1.0, 1.0, 90.0, 120.0, 90.0);
    MonoclinicAsWrittenMirrors(mono, Vec(1.0, 0.0, 1.0), sinBeta, -0.5);
    MonoclinicMatchesHexagonal(1.0, 1.0, Vec(1.0, 0.0, -1.0), sinBeta);
    MonoclinicMatchesHexagonal(1.0, 1.0, Vec(1.0, 0.0, 1.0), sinBeta);
  }

  /** The expression as written is positive definite as well: it is the
      standard form at the mirror plane, which is the origin only when the
      plane itself is. */
  lemma MonoclinicAsWrittenZeroIff(cell: Cell, v: Vec, sinBeta: real, cosBeta: real)
    requires ValidCell(cell) && sinBeta != 0.0
    requires Sq(sinBeta) + Sq(cosBeta) == 1.0
    ensures MonoclinicInvDSqAsWritten(cell, v, sinBeta, cosBeta) >= 0.0
    ensures MonoclinicInvDSqAsWritten(cell, v, sinBeta, cosBeta) == 0.0 <==> v == Origin
  {
    MonoclinicAsWrittenMirrors(cell, v, sinBeta, cosBeta);
    MonoclinicZeroIff(cell, Vec(v.h, v.k, -v.l), sinBeta, cosBeta);
  }

  /** Monoclinic groups, when the supplied sine and cosine of β satisfy
      sin²β + cos²β = 1: away from the origin d² is positive and d² times
      the 1/d² of the chosen sign is 1, for the calculator as written and
      for the standard formula alike. */
  lemma MonoclinicDSpacing(sign: CrossSign, spaceGroup: int, cell: Cell, sGrid: seq<Vec>,
                           sinDeg: real -> real, cosDeg: real -> real, i: nat)
    requires Admissible(spaceGroup, cell, sinDeg)
    requires 3 <= spaceGroup <= 15
    requires Sq(sinDeg(cell.beta)) + Sq(cosDeg(cell.beta)) == 1.0
    requires i < |sGrid| && sGrid[i] != Origin
    ensures var r := ComputeResolution(sign, spaceGroup, cell, sGrid, sinDeg, cosDeg);
            |r| == |sGrid| && r[i] > 0.0 &&
            (sign == AsWritten ==>
               r[i] * MonoclinicInvDSqAsWritten(cell, sGrid[i], sinDeg(cell.beta), cosDeg(cell.beta)) == 1.0) &&
            (sign == Standard ==>
               r[i] * MonoclinicInvDSq(cell, sGrid[i], sinDeg(cell.beta), cosDeg(cell.beta)) == 1.0)
  {
    match sign
    case AsWritten =>
      MonoclinicAsWrittenZeroIff(cell, sGrid[i], sinDeg(cell.beta), cosDeg(cell.beta));
    case Standard =>
      MonoclinicZeroIff(cell, sGrid[i], sinDeg(cell.beta), cosDeg(cell.beta));
  }

  lemma MonoclinicAtOrigin(cell: Cell, sinBeta: real, cosBeta: real)
    requires ValidCell(cell) && sinBeta != 0.0
    ensures MonoclinicInvDSq(cell, Origin, sinBeta, cosBeta) == 0.0
  {
    MulNonZero(cell.a, sinBeta);
    MulNonZero(cell.c, sinBeta);
    MulNonZero(cell.a, cell.c);
    SqPos(sinBeta);
    MulNonZero(cell.a * cell.c, Sq(sinBeta));
    ScaledSq(0.0, cell.a * sinBeta);
    ScaledSq(0.0, cell.b);
    ScaledSq(0.0, cell.c * sinBeta);
    DivZero(cell.a * cell.c * Sq(sinBeta));
  }

  /** The origin gets the floored 1/d = 1e-5, so d = 1e5: d² = 1e10, finite. */
  lemma OriginDSpacing(sign: CrossSign, spaceGroup: int, cell: Cell, sGrid: seq<Vec>,
                       sinDeg: real -> real, cosDeg: real -> real, i: nat)
    requires Admissible(spaceGroup, cell, sinDeg)
    requires 3 <= spaceGroup <= 142 || 168 <= spaceGroup <= 230
    requires i < |sGrid| && sGrid[i] == Origin
    ensures ComputeResolution(sign, spaceGroup, cell, sGrid, sinDeg, cosDeg)[i] == 10000000000.0
  {
    match Classify(spaceGroup)
    case Orthorhombic =>
      OrthorhombicZeroIff(cell, Origin);
    case Hexagonal =>
      HexagonalZeroIff(cell, Origin);
    case Monoclinic =>
      MonoclinicAtOrigin(cell, sinDeg(cell.beta), cosDeg(cell.beta));
      MonoclinicAsWrittenMirrors(cell, Origin, sinDeg(cell.beta), cosDeg(cell.beta));
  }

  /** Along the first axis of a cubic cell of side 10, 1/d² = (h/10)². */
  lemma CubicAxis(h: real)
    ensures OrthorhombicInvDSq(Cell(10.0, 10.0, 10.0, 90.0, 90.0, 90.0), Vec(h, 0.0, 0.0)) == Sq(h / 10.0)
  {
    ScaledSq(0.0, 10.0);
  }

  /** A cubic cell of side 10 in space group 200: (1,0,0) has d = 10, (2,0,0)
      has d = 5 and the origin d = 1e5. */
  lemma CubicScenario(sign: CrossSign, sinDeg: real -> real, cosDeg: real -> real)
    ensures var r := ComputeResolution(sign, 200, Cell(10.0, 10.0, 10.0, 90.0, 90.0, 90.0),
                                       [Vec(1.0, 0.0, 0.0), Vec(2.0, 0.0, 0.0), Origin], sinDeg, cosDeg);
            |r| == 3 && r[0] == 100.0 && r[1] == 25.0 && r[2] == 10000000000.0
  {
    var cell := Cell(10.0, 10.0, 10.0, 90.0, 90.0, 90.0);
    var grid := [Vec(1.0, 0.0, 0.0), Vec(2.0, 0.0, 0.0), Origin];
    var r := ComputeResolution(sign, 200, cell, grid, sinDeg, cosDeg);
    assert r[0] == 100.0 by {
      CubicAxis(1.0);
      assert Sq(1.0 / 10.0) == 0.01;
      OrthorhombicDSpacing(sign, 200, cell, grid, sinDeg, cosDeg, 0);
    }
    assert r[1] == 25.0 by {
      CubicAxis(2.0);
      assert Sq(2.0 / 10.0) == 0.04;
      OrthorhombicDSpacing(sign, 200, cell, grid, sinDeg, cosDeg, 1);
    }
    OriginDSpacing(sign, 200, cell, grid, sinDeg, cosDeg, 2);
  }

  /** Space group 1 (triclinic) is unsupported: the result is empty, whatever
      the cell. */
  lemma TriclinicScenario(sign: CrossSign, cell: Cell, sGrid: seq<Vec>, sinDeg: real -> real, cosDeg: real -> real)
    ensures ComputeResolution(sign, 1, cell, sGrid, sinDeg, cosDeg) == []
  {
  }

  /** The sign of the monoclinic cross term changes nothing outside the
      monoclinic groups. */
  lemma SignOnlyMonoclinic(spaceGroup: int, cell: Cell, sGrid: seq<Vec>, sinDeg: real -> real, cosDeg: real -> real)
    requires Admissible(spaceGroup, cell, sinDeg)
    requires Classify(spaceGroup) != Monoclinic
    ensures ComputeResolution(AsWritten, spaceGroup, cell, sGrid, sinDeg, cosDeg)
         == ComputeResolution(Standard, spaceGroup, cell, sGrid, sinDeg, cosDeg)
  {
  }

  /** The discrepancy end to end: with a = b = c = 1 and β = 120° in space
      group 4, plane (1, 0, 1) gets d² = 3/4 from the calculator as written
      and d² = 1/4 with the standard sign. The same lattice described as
      hexagonal (space group 168) gives that plane, (1, 1, 0) in hexagonal
      indexing, d² = 1/4. */
  lemma MonoclinicScenario(sign: CrossSign, sinDeg: real -> real, cosDeg: real -> real)
    requires sinDeg(120.0) != 0.0 && Sq(sinDeg(120.0)) == 0.75 && cosDeg(120.0) == -0.5
    ensures ComputeResolution(AsWritten, 4, Cell(1.0, 1.0, 1.0, 90.0, 120.0, 90.0), [Vec(1.0, 0.0, 1.0)], sinDeg, cosDeg)
         == [0.75]
    ensures ComputeResolution(Standard, 4, Cell(1.0, 1.0, 1.0, 90.0, 120.0, 90.0), [Vec(1.0, 0.0, 1.0)], sinDeg, cosDeg)
         == [0.25]
    ensures ComputeResolution(sign, 168, Cell(1.0, 1.0, 1.0, 90.0, 90.0, 120.0), [Vec(1.0, 1.0, 0.0)], sinDeg, cosDeg)
         == [0.25]
  {
    var mono := Cell(1.0, 1.0, 1.0, 90.0, 120.0, 90.0);
    var hex := Cell(1.0, 1.0, 1.0, 90.0, 90.0, 120.0);
    var v, w := Vec(1.0, 0.0, 1.0), Vec(1.0, 1.0, 0.0);
    MonoclinicAsWrittenDisagrees(sinDeg(120.0));
    assert Classify(4) == Monoclinic && Classify(168) == Hexagonal;
    var q1 := MonoclinicInvDSqAsWritten(mono, v, sinDeg(120.0), cosDeg(120.0));
    var q2 := MonoclinicInvDSq(mono, v, sinDeg(120.0), cosDeg(120.0));
    var q3 := HexagonalInvDSq(hex, w);
    assert Resolve(Clamp(q1)) == 0.75 by {
      assert q1 == 4.0 / 3.0;
    }
    assert Resolve(Clamp(q2)) == 0.25 by {
      assert q2 == 4.0;
    }
    assert Resolve(Clamp(q3)) == 0.25 by {
      assert q3 == 4.0;
    }
    assert ComputeResolution(AsWritten, 4, mono, [v], sinDeg, cosDeg)[0] == Resolve(Clamp(q1));
    assert ComputeResolution(Standard, 4, mono, [v], sinDeg, cosDeg)[0] == Resolve(Clamp(q2));
    assert ComputeResolution(sign, 168, hex, [w], sinDeg, cosDeg)[0] == Resolve(Clamp(q3));
  }
}
