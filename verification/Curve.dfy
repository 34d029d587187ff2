/** The Jacobian formulas of src/crypto/p256.c and p384.c give the curve's group sum: points on y^2 = x^3 - 3x + b over
    a field of m elements. */
module Curve {
  import opened Modular

  ghost predicate Eq(a: int, b: int, m: int)
  {
    m > 0 && a % m == b % m
  }

  lemma EqMul(a: int, c: int, b: int, d: int, m: int)
    requires Eq(a, c, m) && Eq(b, d, m)
    ensures Eq(a * b, c * d, m)
  {
    CongMul(a, c, b, d, m);
  }

  lemma EqAdd(a: int, c: int, b: int, d: int, m: int)
    requires Eq(a, c, m) && Eq(b, d, m)
    ensures Eq(a + b, c + d, m) && Eq(a - b, c - d, m)
  {
    CongAdd(a, c, b, d, m);
  }

  lemma EqZero(a: int, b: int, m: int)
    requires m > 0
    ensures Eq(a, b, m) <==> (a - b) % m == 0
  {
    if Eq(a, b, m) {
      CongAdd(a, b, b, b, m);
    } else if (a - b) % m == 0 {
      CongAdd(a - b, 0, b, b, m);
    }
  }

  /** No zero divisors: what a prime modulus gives. */
  ghost predicate Field(m: int)
  {
    m > 3 && m % 2 == 1 && forall a: int, b: int :: Eq(a * b, 0, m) ==> Eq(a, 0, m) || Eq(b, 0, m)
  }

  lemma Cancel(a: int, b: int, c: int, m: int)
    requires Field(m) && !Eq(c, 0, m) && Eq(a * c, b * c, m)
    ensures Eq(a, b, m)
  {
    EqZero(a * c, b * c, m);
    assert a * c - b * c == (a - b) * c;
    assert Eq((a - b) * c, 0, m);
    EqZero(a, b, m);
  }

  datatype Jac = Jac(x: int, y: int, z: int)

  datatype Point = Infinity | Affine(x: int, y: int)

  ghost predicate OnCurve(p: Point, b: int, m: int)
  {
    m > 0 && (p.Affine? ==> 0 <= p.x < m && 0 <= p.y < m && Eq(p.y * p.y, p.x * p.x * p.x - 3 * p.x + b, m))
  }

  /** Jacobian coordinates of a point: z = 0 is infinity, and else x = X / Z^2 and y = Y / Z^3. */
  ghost predicate Rep(j: Jac, p: Point, m: int)
  {
    match p
    case Infinity => Eq(j.z, 0, m)
    case Affine(x, y) => m > 0 && !Eq(j.z, 0, m) && Eq(j.x, x * (j.z * j.z), m) && Eq(j.y, y * (j.z * j.z * j.z), m)
  }

  /** The chord of two points, or the tangent of one, has slope l. */
  ghost predicate Slope(p: Point, q: Point, l: int, m: int)
    requires p.Affine? && q.Affine?
  {
    if Eq(p.x, q.x, m) then Eq(l * (2 * p.y), 3 * (p.x * p.x) - 3, m) else Eq(l * (q.x - p.x), q.y - p.y, m)
  }

  ghost predicate OnLine(p: Point, q: Point, r: Point, l: int, m: int)
    requires p.Affine? && q.Affine? && r.Affine?
  {
    Slope(p, q, l, m) && Eq(r.x, l * l - p.x - q.x, m) && Eq(r.y, l * (p.x - r.x) - p.y, m)
  }

  /** r is the group's sum of p and q. */
  ghost predicate IsSum(p: Point, q: Point, r: Point, m: int)
  {
    if p.Infinity? then r == q
    else if q.Infinity? then r == p
    else if Eq(p.x, q.x, m) && Eq(p.y, -q.y, m) then r.Infinity?
    else r.Affine? && exists l :: OnLine(p, q, r, l, m)
  }

  // ---- the formulas --------------------------------------------------------------------------------------------

  /** dbl's formula, from X, Y, Z and M. */
  function DblFrom(p: Jac, m: int): Jac
  {
    var t := p.y * p.y;
    var s := 4 * (p.x * t);
    var x := m * m - s - s;
    Jac(x, m * (s - x) - 8 * (t * t), 2 * (p.y * p.z))
  }

  function DblM(p: Jac): int
  {
    3 * ((p.x - p.z * p.z) * (p.x + p.z * p.z))
  }

  /** add's general formula, from the quantities it computes first. */
  function AddFrom(w: int, u1: int, s1: int, h: int, r: int): Jac
  {
    var hh := h * h;
    var v := u1 * hh;
    var x := r * r - hh * h - v - v;
    Jac(x, r * (v - x) - s1 * (hh * h), w * h)
  }

  ghost predicate JEq(p: Jac, q: Jac, m: int)
  {
    Eq(p.x, q.x, m) && Eq(p.y, q.y, m) && Eq(p.z, q.z, m)
  }

  lemma DblCong(p: Jac, q: Jac, k: int, l: int, m: int)
    requires JEq(p, q, m) && Eq(k, l, m)
    ensures JEq(DblFrom(p, k), DblFrom(q, l), m)
  {
    var t, u := p.y * p.y, q.y * q.y;
    EqMul(p.y, q.y, p.y, q.y, m);
    EqMul(p.x, q.x, t, u, m);
    EqMul(4, 4, p.x * t, q.x * u, m);
    var s, v := 4 * (p.x * t), 4 * (q.x * u);
    EqMul(k, l, k, l, m);
    EqAdd(k * k, l * l, s, v, m);
    EqAdd(k * k - s, l * l - v, s, v, m);
    var x, y := k * k - s - s, l * l - v - v;
    EqAdd(s, v, x, y, m);
    EqMul(k, l, s - x, v - y, m);
    EqMul(t, u, t, u, m);
    EqMul(8, 8, t * t, u * u, m);
    EqAdd(k * (s - x), l * (v - y), 8 * (t * t), 8 * (u * u), m);
    EqMul(p.y, q.y, p.z, q.z, m);
    EqMul(2, 2, p.y * p.z, q.y * q.z, m);
  }

  lemma AddCong(w: int, u: int, s: int, h: int, r: int, w': int, u': int, s': int, h': int, r': int, m: int)
    requires Eq(w, w', m) && Eq(u, u', m) && Eq(s, s', m) && Eq(h, h', m) && Eq(r, r', m)
    ensures JEq(AddFrom(w, u, s, h, r), AddFrom(w', u', s', h', r'), m)
  {
    var hh, hh' := h * h, h' * h';
    EqMul(h, h', h, h', m);
    EqMul(u, u', hh, hh', m);
    var v, v' := u * hh, u' * hh';
    EqMul(hh, hh', h, h', m);
    EqMul(r, r', r, r', m);
    EqAdd(r * r, r' * r', hh * h, hh' * h', m);
    EqAdd(r * r - hh * h, r' * r' - hh' * h', v, v', m);
    EqAdd(r * r - hh * h - v, r' * r' - hh' * h' - v', v, v', m);
    var x, x' := r * r - hh * h - v - v, r' * r' - hh' * h' - v' - v';
    EqAdd(v, v', x, x', m);
    EqMul(r, r', v - x, v' - x', m);
    EqMul(s, s', hh * h, hh' * h', m);
    EqAdd(r * (v - x), r' * (v' - x'), s * (hh * h), s' * (hh' * h'), m);
    EqMul(w, w', h, h', m);
  }

  // ---- exact identities ----------------------------------------------------------------------------------------

  /** Over integers: the tangent's formula on (xZ^2, yZ^3, Z) with slope l. */
  lemma DblExact(x: int, y: int, z: int, l: int)
    ensures var z2 := z * z;
            var e := 2 * (y * (z2 * z2));
            var x3 := l * l - x - x;
            DblFrom(Jac(x * z2, y * (z2 * z), z), l * e) == Jac(x3 * (e * e), (l * (x - x3) - y) * (e * e * e), e)
  {
    var z2 := z * z;
    var q := z2 * z2;
    var e := 2 * (y * q);
    var p := Jac(x * z2, y * (z2 * z), z);
    var t := p.y * p.y;
    var x3 := l * l - x - x;
    assert t == (y * y) * (q * z2) by { SquareOf(y, z2, z); }
    assert 4 * (p.x * t) == x * (e * e) by { FourXT(x, y, z2, q); }
    assert 2 * (p.y * p.z) == e by { TwoYZ(y, z2, z); }
    assert 8 * (t * t) == y * (e * e * e) by { EightTT(y, z2, q); }
    SlopeOut(l, e, x, y);
  }

  lemma SquareOf(y: int, z2: int, z: int)
    requires z2 == z * z
    ensures (y * (z2 * z)) * (y * (z2 * z)) == (y * y) * ((z2 * z2) * z2)
  {
  }

  lemma FourXT(x: int, y: int, z2: int, q: int)
    requires q == z2 * z2
    ensures var e := 2 * (y * q); 4 * ((x * z2) * ((y * y) * (q * z2))) == x * (e * e)
  {
  }

  lemma TwoYZ(y: int, z2: int, z: int)
    requires z2 == z * z
    ensures 2 * ((y * (z2 * z)) * z) == 2 * (y * (z2 * z2))
  {
  }

  lemma EightTT(y: int, z2: int, q: int)
    requires q == z2 * z2
    ensures var e, t := 2 * (y * q), (y * y) * (q * z2); 8 * (t * t) == y * (e * e * e)
  {
  }

  /** The end of both formulas: with r = l e, X = x3 e^2 and Y = (l (x - x3) - y) e^3. */
  lemma SlopeOut(l: int, e: int, x: int, y: int)
    ensures var x3, v := l * l - x - x, x * (e * e);
            && (l * e) * (l * e) - v - v == x3 * (e * e)
            && (l * e) * (v - x3 * (e * e)) - y * (e * e * e) == (l * (x - x3) - y) * (e * e * e)
  {
  }

  /** Over integers: the chord's formula on points scaled by w, with slope l and x2 = x1 + d. */
  lemma AddExact(x1: int, y1: int, d: int, w: int, l: int)
    ensures var w2 := w * w;
            var e := w * (d * w2);
            var x3 := l * l - x1 - (x1 + d);
            AddFrom(w, x1 * w2, y1 * (w2 * w), d * w2, l * e) == Jac(x3 * (e * e), (l * (x1 - x3) - y1) * (e * e * e), e)
  {
    var w2 := w * w;
    var h := d * w2;
    var e := w * h;
    var hh := h * h;
    assert (x1 * w2) * hh == x1 * (e * e);
    assert hh * h == d * (e * e) by { HCubed(d, w, w2); }
    assert (y1 * (w2 * w)) * (hh * h) == y1 * (e * e * e) by { ECubed(y1, d, w, w2); }
    ChordOut(l, e, x1, y1, d);
  }

  lemma HCubed(d: int, w: int, w2: int)
    requires w2 == w * w
    ensures var h := d * w2; h * h * h == d * ((w * h) * (w * h))
  {
  }

  lemma ECubed(y: int, d: int, w: int, w2: int)
    requires w2 == w * w
    ensures var h := d * w2; var e := w * h; (y * (w2 * w)) * (h * h * h) == y * (e * e * e)
  {
  }

  lemma ChordOut(l: int, e: int, x1: int, y: int, d: int)
    ensures var x3, v := l * l - x1 - (x1 + d), x1 * (e * e);
            && (l * e) * (l * e) - d * (e * e) - v - v == x3 * (e * e)
            && (l * e) * (v - x3 * (e * e)) - y * (e * e * e) == (l * (x1 - x3) - y) * (e * e * e)
  {
  }

  // ---- the group's sum -----------------------------------------------------------------------------------------

  lemma RepFrom(j: Jac, x3: int, y3: int, e: int, r: Point, m: int)
    requires JEq(j, Jac(x3 * (e * e), y3 * (e * e * e), e), m) && !Eq(e, 0, m)
    requires r.Affine? && Eq(r.x, x3, m) && Eq(r.y, y3, m)
    ensures Rep(j, r, m)
  {
    EqMul(j.z, e, j.z, e, m);
    EqMul(j.z * j.z, e * e, j.z, e, m);
    EqMul(r.x, x3, j.z * j.z, e * e, m);
    EqMul(r.y, y3, j.z * j.z * j.z, e * e * e, m);
  }

  /** dbl, with its branch on infinity. */
  function Dbl(p: Jac, m: int): Jac
    requires m > 0
  {
    if p.z % m == 0 then p else DblFrom(p, DblM(p))
  }

  lemma DblSlope(j: Jac, x: int, y: int, l: int, m: int)
    requires m > 0 && Eq(j.x, x * (j.z * j.z), m) && Eq(l * (2 * y), 3 * (x * x) - 3, m)
    ensures var z2 := j.z * j.z; Eq(DblM(j), l * (2 * (y * (z2 * z2))), m)
  {
    var z2 := j.z * j.z;
    EqAdd(j.x, x * z2, z2, z2, m);
    EqMul(j.x - z2, x * z2 - z2, j.x + z2, x * z2 + z2, m);
    EqMul(3, 3, (j.x - z2) * (j.x + z2), (x * z2 - z2) * (x * z2 + z2), m);
    EqMul(l * (2 * y), 3 * (x * x) - 3, z2 * z2, z2 * z2, m);
    assert 3 * ((x * z2 - z2) * (x * z2 + z2)) == (3 * (x * x) - 3) * (z2 * z2);
    assert (l * (2 * y)) * (z2 * z2) == l * (2 * (y * (z2 * z2)));
  }

  lemma DblZ(j: Jac, p: Point, m: int)
    requires p.Affine? && Rep(j, p, m)
    ensures var z2 := j.z * j.z; Eq(2 * (j.y * j.z), 2 * (p.y * (z2 * z2)), m)
  {
    var z2 := j.z * j.z;
    assert z2 * j.z == j.z * j.z * j.z;
    EqMul(j.y, p.y * (z2 * j.z), j.z, j.z, m);
    EqMul(2, 2, j.y * j.z, (p.y * (z2 * j.z)) * j.z, m);
    TwoYZ(p.y, z2, j.z);
  }

  /** A point that is its own opposite doubles to infinity ... */
  lemma DblFlat(j: Jac, p: Point, m: int)
    requires p.Affine? && Rep(j, p, m) && Eq(p.y, -p.y, m)
    ensures Rep(Dbl(j, m), Infinity, m)
  {
    var z2 := j.z * j.z;
    DblZ(j, p, m);
    EqAdd(p.y, -p.y, p.y, p.y, m);
    EqMul(2 * p.y, 0, z2 * z2, z2 * z2, m);
    assert (2 * p.y) * (z2 * z2) == 2 * (p.y * (z2 * z2));
  }

  /** ... and any other to the tangent's third point. */
  lemma DblTangent(j: Jac, p: Point, r: Point, l: int, m: int)
    requires Field(m) && p.Affine? && r.Affine? && Rep(j, p, m) && !Eq(p.y, -p.y, m) && OnLine(p, p, r, l, m)
    ensures Rep(Dbl(j, m), r, m)
  {
    var z2 := j.z * j.z;
    var e := 2 * (p.y * (z2 * z2));
    assert z2 * j.z == j.z * j.z * j.z;
    DblSlope(j, p.x, p.y, l, m);
    DblCong(j, Jac(p.x * z2, p.y * (z2 * j.z), j.z), DblM(j), l * e, m);
    DblExact(p.x, p.y, j.z, l);
    DblNonZero(p.y, j.z, m);
    DblOut(j, p, r, l, m);
  }

  /** dbl gives twice a point, in every case. */
  lemma DblCorrect(j: Jac, p: Point, r: Point, b: int, m: int)
    requires Field(m) && Rep(j, p, m) && OnCurve(p, b, m) && IsSum(p, p, r, m)
    ensures Rep(Dbl(j, m), r, m)
  {
    if p.Affine? {
      if Eq(p.y, -p.y, m) {
        DblFlat(j, p, m);
      } else {
        var l :| OnLine(p, p, r, l, m);
        DblTangent(j, p, r, l, m);
      }
    }
  }

  lemma DblNonZero(y: int, z: int, m: int)
    requires Field(m) && !Eq(y, -y, m) && !Eq(z, 0, m)
    ensures var z2 := z * z; !Eq(2 * (y * (z2 * z2)), 0, m)
  {
    var z2 := z * z;
    if Eq(2 * y, 0, m) {
      EqAdd(2 * y, 0, y, y, m);
    }
    assert !Eq(z2, 0, m) && !Eq(z2 * z2, 0, m);
    assert (2 * y) * (z2 * z2) == 2 * (y * (z2 * z2));
  }

  lemma DblOut(j: Jac, p: Point, r: Point, l: int, m: int)
    requires p.Affine? && r.Affine? && OnLine(p, p, r, l, m)
    requires var z2 := j.z * j.z;
             var e := 2 * (p.y * (z2 * z2));
             var x3 := l * l - p.x - p.x;
             !Eq(e, 0, m) && m > 0 && !Eq(j.z, 0, m)
             && JEq(DblFrom(j, DblM(j)), Jac(x3 * (e * e), (l * (p.x - x3) - p.y) * (e * e * e), e), m)
    ensures Rep(Dbl(j, m), r, m)
  {
    var z2 := j.z * j.z;
    var e := 2 * (p.y * (z2 * z2));
    var x3 := l * l - p.x - p.x;
    ThirdPoint(p, r, l, x3, m);
    assert j.z % m != 0;
    RepFrom(DblFrom(j, DblM(j)), x3, l * (p.x - x3) - p.y, e, r, m);
  }

  lemma ThirdPoint(p: Point, r: Point, l: int, x3: int, m: int)
    requires p.Affine? && r.Affine? && Eq(r.x, x3, m) && Eq(r.y, l * (p.x - r.x) - p.y, m)
    ensures Eq(r.y, l * (p.x - x3) - p.y, m)
  {
    EqAdd(p.x, p.x, r.x, x3, m);
    EqMul(l, l, p.x - r.x, p.x - x3, m);
    EqAdd(l * (p.x - r.x), l * (p.x - x3), p.y, p.y, m);
  }

  /** The quantities add computes before its branches. */
  datatype Chord = Chord(u1: int, s1: int, h: int, r: int)

  function ChordOf(p: Jac, q: Jac): Chord
  {
    var z11, z22 := p.z * p.z, q.z * q.z;
    var u1, s1 := p.x * z22, p.y * (z22 * q.z);
    Chord(u1, s1, q.x * z11 - u1, q.y * (z11 * p.z) - s1)
  }

  /** add, with its branches. */
  function Add(p: Jac, q: Jac, m: int): Jac
    requires m > 0
  {
    if p.z % m == 0 then q
    else if q.z % m == 0 then p
    else
      var c := ChordOf(p, q);
      if c.h % m == 0 then if c.r % m == 0 then Dbl(p, m) else Jac(0, 0, 0)
      else AddFrom(p.z * q.z, c.u1, c.s1, c.h, c.r)
  }

  lemma Scaled(a: int, x: int, z: int, k: int, m: int)
    requires Eq(a, x * (z * z), m)
    ensures Eq(a * (k * k), x * ((z * k) * (z * k)), m)
  {
    EqMul(a, x * (z * z), k * k, k * k, m);
    assert (x * (z * z)) * (k * k) == x * ((z * k) * (z * k));
  }

  lemma ScaledCube(a: int, y: int, z: int, k: int, m: int)
    requires Eq(a, y * (z * z * z), m)
    ensures Eq(a * (k * k * k), y * ((z * k) * (z * k) * (z * k)), m)
  {
    EqMul(a, y * (z * z * z), k * k * k, k * k * k, m);
    assert (y * (z * z * z)) * (k * k * k) == y * ((z * k) * (z * k) * (z * k));
  }

  /** On points, what the chord's quantities are. */
  lemma ChordIs(j: Jac, k: Jac, p: Point, q: Point, m: int)
    requires m > 0 && Rep(j, p, m) && Rep(k, q, m) && p.Affine? && q.Affine?
    ensures var w, c := j.z * k.z, ChordOf(j, k);
            && Eq(c.u1, p.x * (w * w), m) && Eq(c.s1, p.y * (w * w * w), m)
            && Eq(c.h, (q.x - p.x) * (w * w), m) && Eq(c.r, (q.y - p.y) * (w * w * w), m)
  {
    var w, c := j.z * k.z, ChordOf(j, k);
    Scaled(j.x, p.x, j.z, k.z, m);
    ScaledCube(j.y, p.y, j.z, k.z, m);
    Scaled(k.x, q.x, k.z, j.z, m);
    ScaledCube(k.y, q.y, k.z, j.z, m);
    assert k.z * j.z == w;
    EqAdd(k.x * (j.z * j.z), q.x * (w * w), c.u1, p.x * (w * w), m);
    EqAdd(k.y * (j.z * j.z * j.z), q.y * (w * w * w), c.s1, p.y * (w * w * w), m);
    assert q.x * (w * w) - p.x * (w * w) == (q.x - p.x) * (w * w);
    assert q.y * (w * w * w) - p.y * (w * w * w) == (q.y - p.y) * (w * w * w);
  }

  lemma ProductZero(a: int, v: int, m: int)
    requires Field(m) && !Eq(v, 0, m)
    ensures Eq(a * v, 0, m) <==> Eq(a, 0, m)
  {
    if Eq(a, 0, m) {
      EqMul(a, 0, v, v, m);
    }
  }

  /** Residues that are congruent are equal. */
  lemma Same(a: int, b: int, m: int)
    requires Eq(a, b, m) && 0 <= a < m && 0 <= b < m
    ensures a == b
  {
    ModSmall(a, m);
    ModSmall(b, m);
  }

  lemma Squares(y: int, z: int, m: int)
    requires Field(m) && Eq(y * y, z * z, m) && !Eq(y, z, m)
    ensures Eq(y, -z, m)
  {
    EqZero(y * y, z * z, m);
    EqZero(y, z, m);
    EqZero(y, -z, m);
    assert y * y - z * z == (y - z) * (y - (-z));
    assert Eq((y - z) * (y - (-z)), 0, m);
  }

  lemma Opposite(p: Point, q: Point, b: int, m: int)
    requires Field(m) && OnCurve(p, b, m) && OnCurve(q, b, m) && p.Affine? && q.Affine?
    requires Eq(p.x, q.x, m) && !Eq(p.y, q.y, m)
    ensures Eq(p.y, -q.y, m)
  {
    Same(p.x, q.x, m);
    Squares(p.y, q.y, m);
  }

  /** On points, the chord's zeros say whether x and whether y are the same. */
  lemma ChordZeros(j: Jac, k: Jac, p: Point, q: Point, m: int)
    requires Field(m) && Rep(j, p, m) && Rep(k, q, m) && p.Affine? && q.Affine?
    ensures Eq(ChordOf(j, k).h, 0, m) <==> Eq(p.x, q.x, m)
    ensures Eq(ChordOf(j, k).r, 0, m) <==> Eq(p.y, q.y, m)
  {
    var w := j.z * k.z;
    ChordIs(j, k, p, q, m);
    assert !Eq(w, 0, m) && !Eq(w * w, 0, m) && !Eq(w * w * w, 0, m);
    ProductZero(q.x - p.x, w * w, m);
    ProductZero(q.y - p.y, w * w * w, m);
    EqZero(q.x, p.x, m);
    EqZero(q.y, p.y, m);
  }

  /** add gives the sum of any two points of the curve: with infinity, equal, opposite, or neither. */
  lemma AddCorrect(j: Jac, k: Jac, p: Point, q: Point, r: Point, b: int, m: int)
    requires Field(m) && Rep(j, p, m) && Rep(k, q, m) && OnCurve(p, b, m) && OnCurve(q, b, m) && IsSum(p, q, r, m)
    ensures Rep(Add(j, k, m), r, m)
  {
    if p.Affine? && q.Affine? {
      ChordZeros(j, k, p, q, m);
      if Eq(p.x, q.x, m) {
        Same(p.x, q.x, m);
        if Eq(p.y, q.y, m) {
          Same(p.y, q.y, m);
          DblCorrect(j, p, r, b, m);
        } else {
          Opposite(p, q, b, m);
        }
      } else {
        var l :| OnLine(p, q, r, l, m);
        AddGeneral(j, k, p, q, r, l, m);
      }
    }
  }

  lemma AddGeneral(j: Jac, k: Jac, p: Point, q: Point, r: Point, l: int, m: int)
    requires Field(m) && Rep(j, p, m) && Rep(k, q, m) && p.Affine? && q.Affine? && r.Affine?
    requires OnLine(p, q, r, l, m) && !Eq(p.x, q.x, m) && !Eq(ChordOf(j, k).h, 0, m)
    ensures var c := ChordOf(j, k); Rep(AddFrom(j.z * k.z, c.u1, c.s1, c.h, c.r), r, m)
  {
    var w, c := j.z * k.z, ChordOf(j, k);
    var d, w2 := q.x - p.x, w * w;
    var e := w * (d * w2);
    ChordIs(j, k, p, q, m);
    EqMul(l * d, q.y - p.y, w2 * w, w2 * w, m);
    assert (l * d) * (w2 * w) == l * e;
    AddCong(w, c.u1, c.s1, c.h, c.r, w, p.x * w2, p.y * (w2 * w), d * w2, l * e, m);
    AddExact(p.x, p.y, d, w, l);
    EqMul(w, w, c.h, d * w2, m);
    assert !Eq(w, 0, m);
    ProductZero(w, c.h, m);
    var x3 := l * l - p.x - (p.x + d);
    assert x3 == l * l - p.x - q.x;
    ThirdPoint(p, r, l, x3, m);
    RepFrom(AddFrom(w, c.u1, c.s1, c.h, c.r), x3, l * (p.x - x3) - p.y, e, r, m);
  }

  // ---- the sum is one, and either way round --------------------------------------------------------------------

  lemma SlopeOne(p: Point, q: Point, l: int, k: int, m: int)
    requires Field(m) && p.Affine? && q.Affine? && Slope(p, q, l, m) && Slope(p, q, k, m)
    requires Eq(p.x, q.x, m) ==> !Eq(2 * p.y, 0, m)
    ensures Eq(l, k, m)
  {
    if Eq(p.x, q.x, m) {
      Cancel(l, k, 2 * p.y, m);
    } else {
      EqZero(q.x, p.x, m);
      Cancel(l, k, q.x - p.x, m);
    }
  }

  /** Two points have one sum. */
  lemma SumUnique(p: Point, q: Point, r: Point, s: Point, b: int, m: int)
    requires Field(m) && OnCurve(p, b, m) && OnCurve(q, b, m) && OnCurve(r, b, m) && OnCurve(s, b, m)
    requires IsSum(p, q, r, m) && IsSum(p, q, s, m)
    ensures r == s
  {
    if p.Affine? && q.Affine? && !(Eq(p.x, q.x, m) && Eq(p.y, -q.y, m)) {
      var l :| OnLine(p, q, r, l, m);
      var k :| OnLine(p, q, s, k, m);
      if Eq(p.x, q.x, m) {
        NotOpposite(p, q, b, m);
      }
      SlopeOne(p, q, l, k, m);
      LineOne(p, q, r, s, l, k, m);
    }
  }

  lemma LineOne(p: Point, q: Point, r: Point, s: Point, l: int, k: int, m: int)
    requires p.Affine? && q.Affine? && r.Affine? && s.Affine? && Eq(l, k, m)
    requires 0 <= r.x < m && 0 <= r.y < m && 0 <= s.x < m && 0 <= s.y < m
    requires OnLine(p, q, r, l, m) && OnLine(p, q, s, k, m)
    ensures r == s
  {
    EqMul(l, k, l, k, m);
    EqAdd(l * l, k * k, p.x, p.x, m);
    EqAdd(l * l - p.x, k * k - p.x, q.x, q.x, m);
    Same(r.x, s.x, m);
    EqMul(l, k, p.x - r.x, p.x - s.x, m);
    EqAdd(l * (p.x - r.x), k * (p.x - s.x), p.y, p.y, m);
    Same(r.y, s.y, m);
  }

  lemma NotOpposite(p: Point, q: Point, b: int, m: int)
    requires Field(m) && OnCurve(p, b, m) && OnCurve(q, b, m) && p.Affine? && q.Affine?
    requires Eq(p.x, q.x, m) && !Eq(p.y, -q.y, m)
    ensures Eq(p.y, q.y, m) && !Eq(2 * p.y, 0, m)
  {
    if !Eq(p.y, q.y, m) {
      Opposite(p, q, b, m);
    }
    if Eq(2 * p.y, 0, m) {
      EqAdd(2 * p.y, 0, p.y, q.y, m);
    }
  }

  lemma SumCommutes(p: Point, q: Point, r: Point, b: int, m: int)
    requires Field(m) && OnCurve(p, b, m) && OnCurve(q, b, m) && IsSum(p, q, r, m)
    ensures IsSum(q, p, r, m)
  {
    if p.Affine? && q.Affine? {
      MinusTurned(p.y, q.y, m);
      if !(Eq(p.x, q.x, m) && Eq(p.y, -q.y, m)) {
        var l :| OnLine(p, q, r, l, m);
        if Eq(p.x, q.x, m) {
          NotOpposite(p, q, b, m);
          Same(p.x, q.x, m);
          Same(p.y, q.y, m);
        } else {
          LineTurned(p, q, r, l, m);
        }
        assert OnLine(q, p, r, l, m);
      }
    }
  }

  lemma MinusTurned(y: int, z: int, m: int)
    requires m > 0
    ensures Eq(y, -z, m) <==> Eq(z, -y, m)
  {
    EqZero(y, -z, m);
    EqZero(z, -y, m);
  }

  lemma LineTurned(p: Point, q: Point, r: Point, l: int, m: int)
    requires p.Affine? && q.Affine? && r.Affine? && m > 0 && OnLine(p, q, r, l, m) && !Eq(p.x, q.x, m)
    ensures OnLine(q, p, r, l, m)
  {
    EqMul(-1, -1, l * (q.x - p.x), q.y - p.y, m);
    assert -1 * (l * (q.x - p.x)) == l * (p.x - q.x);
    EqAdd(l * (p.x - r.x) - p.y, l * (p.x - r.x) - p.y, l * (q.x - p.x), q.y - p.y, m);
    EqAdd(l * (p.x - r.x) - p.y + l * (q.x - p.x), l * (p.x - r.x) - p.y + (q.y - p.y), q.y - p.y, q.y - p.y, m);
    assert l * (p.x - r.x) + l * (q.x - p.x) == l * (q.x - r.x);
  }
}
