/** The bit loops of src/crypto/p256.c and p384.c: u1 G + u2 Q in one pass over both scalars, and k P. */
module Shamir {
  import opened Words
  import opened Modular
  import opened Digits
  import opened Limbs
  import opened Bits
  import opened Curve
  import opened Points

  type Plus = (Point, Point) -> Point

  /** A veil: `Law` is used through the three lemmas below it. */
  predicate VeilLaw(k: int)
  {
    true
  }

  /** The curve's points under plus: each sum is the chord's or the tangent's, and addition is associative. */
  ghost predicate Group(plus: Plus, b: int, m: int)
  {
    && Field(m)
    && (forall p, q :: OnCurve(p, b, m) && OnCurve(q, b, m) ==> OnCurve(plus(p, q), b, m) && IsSum(p, q, plus(p, q), m))
    && (forall p, q, r :: OnCurve(p, b, m) && OnCurve(q, b, m) && OnCurve(r, b, m)
                          ==> plus(plus(p, q), r) == plus(p, plus(q, r)))
  }

  ghost predicate Law(plus: Plus, b: int, m: int)
  {
    m > 0 && forall k :: VeilLaw(k) ==> Group(plus, b, m)
  }

  lemma LawIs(plus: Plus, b: int, m: int)
    ensures Law(plus, b, m) <==> Group(plus, b, m)
  {
    assert VeilLaw(0);
  }

  lemma PlusIs(plus: Plus, p: Point, q: Point, b: int, m: int)
    requires Law(plus, b, m) && OnCurve(p, b, m) && OnCurve(q, b, m)
    ensures OnCurve(plus(p, q), b, m) && IsSum(p, q, plus(p, q), m) && plus(p, q) == plus(q, p)
  {
    LawIs(plus, b, m);
    SumCommutes(q, p, plus(q, p), b, m);
    SumUnique(p, q, plus(p, q), plus(q, p), b, m);
  }

  lemma Associates(plus: Plus, p: Point, q: Point, r: Point, b: int, m: int)
    requires Law(plus, b, m) && OnCurve(p, b, m) && OnCurve(q, b, m) && OnCurve(r, b, m)
    ensures plus(plus(p, q), r) == plus(p, plus(q, r))
  {
    LawIs(plus, b, m);
  }

  /** (p + q) + (r + s) = (p + r) + (q + s). */
  lemma Medial(plus: Plus, p: Point, q: Point, r: Point, s: Point, b: int, m: int)
    requires Law(plus, b, m) && OnCurve(p, b, m) && OnCurve(q, b, m) && OnCurve(r, b, m) && OnCurve(s, b, m)
    ensures plus(plus(p, q), plus(r, s)) == plus(plus(p, r), plus(q, s))
  {
    PlusIs(plus, r, s, b, m);
    PlusIs(plus, q, s, b, m);
    PlusIs(plus, q, r, b, m);
    Associates(plus, p, q, plus(r, s), b, m);
    Associates(plus, q, r, s, b, m);
    Associates(plus, r, q, s, b, m);
    Associates(plus, p, r, plus(q, s), b, m);
  }

  /** k p. */
  ghost function Times(plus: Plus, k: nat, p: Point): Point
  {
    if k == 0 then Infinity else plus(Times(plus, k - 1, p), p)
  }

  lemma {:induction false} TimesOnCurve(plus: Plus, k: nat, p: Point, b: int, m: int)
    requires Law(plus, b, m) && OnCurve(p, b, m)
    ensures OnCurve(Times(plus, k, p), b, m)
  {
    if k > 0 {
      TimesOnCurve(plus, k - 1, p, b, m);
      PlusIs(plus, Times(plus, k - 1, p), p, b, m);
    }
  }

  lemma ZeroPlus(plus: Plus, p: Point, b: int, m: int)
    requires Law(plus, b, m) && OnCurve(p, b, m)
    ensures plus(Infinity, p) == p == plus(p, Infinity)
  {
    assert OnCurve(Infinity, b, m);
    PlusIs(plus, Infinity, p, b, m);
  }

  /** Multiples add. */
  lemma {:induction false} TimesAdd(plus: Plus, j: nat, k: nat, p: Point, b: int, m: int)
    requires Law(plus, b, m) && OnCurve(p, b, m)
    ensures plus(Times(plus, j, p), Times(plus, k, p)) == Times(plus, j + k, p)
  {
    TimesOnCurve(plus, j, p, b, m);
    if k == 0 {
      ZeroPlus(plus, Times(plus, j, p), b, m);
    } else {
      TimesOnCurve(plus, k - 1, p, b, m);
      TimesAdd(plus, j, k - 1, p, b, m);
      Associates(plus, Times(plus, j, p), Times(plus, k - 1, p), p, b, m);
    }
  }

  /** j g + k q. */
  ghost function Both(plus: Plus, j: nat, g: Point, k: nat, q: Point): Point
  {
    plus(Times(plus, j, g), Times(plus, k, q))
  }

  function Bit(x: bool): nat
  {
    if x then 1 else 0
  }

  /** What one bit of each scalar adds: G + Q, G, Q or nothing. */
  ghost function Chosen(plus: Plus, i1: bool, i2: bool, g: Point, q: Point): Point
  {
    if i1 && i2 then plus(g, q) else if i1 then g else if i2 then q else Infinity
  }

  /** One bit of each scalar: the sum doubled, and then one of four things added. */
  lemma BothStep(plus: Plus, j: nat, g: Point, k: nat, q: Point, x: bool, y: bool, b: int, m: int)
    requires Law(plus, b, m) && OnCurve(g, b, m) && OnCurve(q, b, m)
    ensures var s := Both(plus, j, g, k, q);
      var d := plus(s, s);
      var a := Chosen(plus, x, y, g, q);
      && OnCurve(s, b, m) && OnCurve(d, b, m) && OnCurve(a, b, m)
      && plus(d, a) == Both(plus, 2 * j + Bit(x), g, 2 * k + Bit(y), q)
  {
    var s := Both(plus, j, g, k, q);
    var d := plus(s, s);
    TimesOnCurve(plus, j, g, b, m);
    TimesOnCurve(plus, k, q, b, m);
    PlusIs(plus, Times(plus, j, g), Times(plus, k, q), b, m);
    PlusIs(plus, s, s, b, m);
    PlusIs(plus, g, q, b, m);
    Medial(plus, Times(plus, j, g), Times(plus, k, q), Times(plus, j, g), Times(plus, k, q), b, m);
    TimesAdd(plus, j, j, g, b, m);
    TimesAdd(plus, k, k, q, b, m);
    assert d == Both(plus, 2 * j, g, 2 * k, q);
    BothAdd(plus, 2 * j, g, 2 * k, q, x, y, b, m);
  }

  lemma BothAdd(plus: Plus, j: nat, g: Point, k: nat, q: Point, x: bool, y: bool, b: int, m: int)
    requires Law(plus, b, m) && OnCurve(g, b, m) && OnCurve(q, b, m)
    ensures var a := Chosen(plus, x, y, g, q);
      OnCurve(a, b, m) && plus(Both(plus, j, g, k, q), a) == Both(plus, j + Bit(x), g, k + Bit(y), q)
  {
    var jg, kq, gx, qy := Times(plus, j, g), Times(plus, k, q), if x then g else Infinity, if y then q else Infinity;
    assert OnCurve(Infinity, b, m);
    TimesOnCurve(plus, j, g, b, m);
    TimesOnCurve(plus, k, q, b, m);
    Medial(plus, jg, kq, gx, qy, b, m);
    ZeroPlus(plus, gx, b, m);
    ZeroPlus(plus, qy, b, m);
    ZeroPlus(plus, jg, b, m);
    ZeroPlus(plus, kq, b, m);
    PlusIs(plus, gx, qy, b, m);
  }

  // ---- the slots hold points ----

  /** Slots p, p + 1 and p + 2 hold coordinates of a point. */
  ghost predicate Holds(f: map<nat, int>, p: nat, point: Point, m: int)
  {
    m > 0 && forall k :: VeilHolds(k) ==> Whole(f, p, m) && Rep(JacAt(f, p), point, m)
  }

  /** A veil. */
  predicate VeilHolds(k: int)
  {
    true
  }

  lemma HoldsIs(f: map<nat, int>, p: nat, point: Point, m: int)
    ensures Holds(f, p, point, m) <==> m > 0 && Whole(f, p, m) && Rep(JacAt(f, p), point, m)
  {
    assert VeilHolds(0);
  }

  lemma SameRep(j: Jac, k: Jac, p: Point, m: int)
    requires m > 0 && SamePoint(j, k, m) && Rep(k, p, m)
    ensures Rep(j, p, m)
  {
  }

  lemma SumRep(r: Jac, j: Jac, k: Jac, p: Point, q: Point, plus: Plus, b: int, m: int)
    requires Law(plus, b, m) && OnCurve(p, b, m) && OnCurve(q, b, m) && Rep(j, p, m) && Rep(k, q, m)
    requires SamePoint(r, Curve.Add(j, k, m), m)
    ensures Rep(r, plus(p, q), m)
  {
    LawIs(plus, b, m);
    AddCorrect(j, k, p, q, plus(p, q), b, m);
    SameRep(r, Curve.Add(j, k, m), plus(p, q), m);
  }

  method AddHeld(w: Bench, r: nat, p: nat, q: nat, ghost pp: Point, ghost qq: Point, ghost plus: Plus, ghost b: int)
    requires w.Ready() && Law(plus, b, w.m) && OnCurve(pp, b, w.m) && OnCurve(qq, b, w.m)
    requires r + 2 < TMP && p + 2 < TMP && q + 2 < TMP
    requires (r == p || r + 3 <= p || p + 3 <= r) && (r == q || r + 3 <= q || q + 3 <= r)
    requires Holds(w.f, p, pp, w.m) && Holds(w.f, q, qq, w.m)
    modifies w, w.sc, w.c.t
    ensures w.Ready() && Holds(w.f, r, plus(pp, qq), w.m)
    ensures Beyond(r, r + 3, old(w.f), w.f, old(w.raw), w.raw)
  {
    ghost var j, k := JacAt(w.f, p), JacAt(w.f, q);
    HoldsIs(w.f, p, pp, w.m);
    HoldsIs(w.f, q, qq, w.m);
    w.AddPoints(r, p, q);
    SumRep(JacAt(w.f, r), j, k, pp, qq, plus, b, w.m);
    HoldsIs(w.f, r, plus(pp, qq), w.m);
  }

  method DblHeld(w: Bench, r: nat, p: nat, ghost pp: Point, ghost plus: Plus, ghost b: int)
    requires w.Ready() && Law(plus, b, w.m) && OnCurve(pp, b, w.m)
    requires r + 2 < TMP && p + 2 < TMP && (r == p || r + 3 <= p || p + 3 <= r)
    requires Holds(w.f, p, pp, w.m)
    modifies w, w.sc, w.c.t
    ensures w.Ready() && Holds(w.f, r, plus(pp, pp), w.m)
    ensures Beyond(r, r + 3, old(w.f), w.f, old(w.raw), w.raw)
  {
    ghost var j := JacAt(w.f, p);
    HoldsIs(w.f, p, pp, w.m);
    w.Dbl(r, p);
    LawIs(plus, b, w.m);
    DblCorrect(j, pp, plus(pp, pp), b, w.m);
    HoldsIs(w.f, r, plus(pp, pp), w.m);
  }

  // ---- the scalars' bits ----

  /** bit_of. */
  function LimbBit(u: seq<u16>): nat -> bool
  {
    (i: nat) => i / 16 < |u| && BitOf(u[i / 16], i % 16)
  }

  lemma LimbBitsValue(u: seq<u16>, n: nat)
    requires n == 16 * |u|
    ensures Above(LimbBit(u), n, 0) == Num(u)
  {
    NumBound(u);
    PowAdd(2, 8, 8);
    assert Pow(2, 8) == 0x100 && Pow(2, 16) == 0x1_0000;
    forall i, j, k | 0 <= j < |u| && 0 <= k < 16 && i == 16 * j + k ensures LimbBit(u)(i) == BitOf(u[j], k) {
      assert i / 16 == j && i % 16 == k;
    }
    BitsValue(16, u, n, LimbBit(u));
  }

  method BitAt(w: Bench, k: nat, i: nat) returns (x: bool)
    requires w.Ready() && k < SLOTS && i < 16 * w.n
    ensures x == LimbBit(w.raw[k])(i)
  {
    w.SlotIs(k);
    assert w.raw[k][i / 16] == w.sc[Place(w.n, k) + i / 16];
    x := BitOf(w.sc[Place(w.n, k) + i / 16], i % 16);
  }

  // ---- u1 G + u2 Q ----

  const G := 0
  const Q := 3
  const GQ := 6
  const ACC := 9
  const U1 := 16
  const U2 := 17

  /** The points while the loop runs, the scalars' slots as they were. */
  ghost predicate FourPoints(f: map<nat, int>, g: Point, q: Point, gq: Point, acc: Point, m: int)
  {
    forall k :: VeilFour(k) ==> Holds(f, G, g, m) && Holds(f, Q, q, m) && Holds(f, GQ, gq, m) && Holds(f, ACC, acc, m)
  }

  /** Opens `FourPoints`. */
  predicate VeilFour(k: int)
  {
    true
  }

  lemma HoldsKept(f: map<nat, int>, f': map<nat, int>, p: nat, point: Point, m: int)
    requires Holds(f, p, point, m)
    requires forall k :: p <= k <= p + 2 ==> (k in f' <==> k in f) && (k in f ==> f'[k] == f[k])
    ensures Holds(f', p, point, m)
  {
    assert VeilHolds(0);
    assert JacAt(f', p) == JacAt(f, p);
  }

  lemma PointsKept(f: map<nat, int>, f': map<nat, int>, raw: seq<seq<u16>>, raw': seq<seq<u16>>,
                   g: Point, q: Point, gq: Point, acc: Point, acc': Point, m: int)
    requires FourPoints(f, g, q, gq, acc, m) && Beyond(ACC, ACC + 3, f, f', raw, raw')
    requires Holds(f', ACC, acc', m)
    ensures FourPoints(f', g, q, gq, acc', m)
  {
    assert VeilFour(0);
    HoldsKept(f, f', G, g, m);
    HoldsKept(f, f', Q, q, m);
    HoldsKept(f, f', GQ, gq, m);
  }

  /** The loop's choice: G + Q, G, Q or nothing is added. */
  method AddChosen(w: Bench, i1: bool, i2: bool, ghost g: Point, ghost q: Point, ghost acc: Point, ghost plus: Plus, ghost b: int)
    requires w.Ready() && Law(plus, b, w.m) && OnCurve(g, b, w.m) && OnCurve(q, b, w.m) && OnCurve(acc, b, w.m)
    requires FourPoints(w.f, g, q, plus(g, q), acc, w.m)
    modifies w, w.sc, w.c.t
    ensures w.Ready() && Holds(w.f, ACC, plus(acc, Chosen(plus, i1, i2, g, q)), w.m)
    ensures Beyond(ACC, ACC + 3, old(w.f), w.f, old(w.raw), w.raw)
  {
    assert VeilFour(0);
    if i1 && i2 {
      PlusIs(plus, g, q, b, w.m);
      AddHeld(w, ACC, ACC, GQ, acc, plus(g, q), plus, b);
    } else if i1 {
      AddHeld(w, ACC, ACC, G, acc, g, plus, b);
    } else if i2 {
      AddHeld(w, ACC, ACC, Q, acc, q, plus, b);
    } else {
      ZeroPlus(plus, acc, b, w.m);
    }
  }

  /** One bit of each scalar. */
  method Step(w: Bench, i1: bool, i2: bool, ghost g: Point, ghost q: Point, ghost acc: Point, ghost plus: Plus, ghost b: int)
    requires w.Ready() && Law(plus, b, w.m) && OnCurve(g, b, w.m) && OnCurve(q, b, w.m) && OnCurve(acc, b, w.m)
    requires FourPoints(w.f, g, q, plus(g, q), acc, w.m)
    modifies w, w.sc, w.c.t
    ensures w.Ready() && FourPoints(w.f, g, q, plus(g, q), plus(plus(acc, acc), Chosen(plus, i1, i2, g, q)), w.m)
    ensures Beyond(ACC, ACC + 3, old(w.f), w.f, old(w.raw), w.raw)
  {
    ghost var f0, raw0, d := w.f, w.raw, plus(acc, acc);
    assert VeilFour(0);
    DblHeld(w, ACC, ACC, acc, plus, b);
    PlusIs(plus, acc, acc, b, w.m);
    PointsKept(f0, w.f, raw0, w.raw, g, q, plus(g, q), acc, d, w.m);
    ghost var f1, raw1 := w.f, w.raw;
    AddChosen(w, i1, i2, g, q, d, plus, b);
    PointsKept(f1, w.f, raw1, w.raw, g, q, plus(g, q), d, plus(d, Chosen(plus, i1, i2, g, q)), w.m);
  }

  /** What a scalar's bits from i up come to. */
  ghost function Top(u: seq<u16>, n: nat, i: nat): nat
  {
    Above(LimbBit(u), 16 * n, i)
  }

  /** The loop's body: from the bits above i of both scalars to those from i up. */
  method StepAt(w: Bench, i: nat, ghost u: seq<u16>, ghost v: seq<u16>, ghost g: Point, ghost q: Point, ghost plus: Plus, ghost b: int)
    requires w.Ready() && Law(plus, b, w.m) && OnCurve(g, b, w.m) && OnCurve(q, b, w.m) && i < 16 * w.n
    requires w.raw[U1] == u && w.raw[U2] == v
    requires FourPoints(w.f, g, q, plus(g, q), Both(plus, Top(u, w.n, i + 1), g, Top(v, w.n, i + 1), q), w.m)
    modifies w, w.sc, w.c.t
    ensures w.Ready() && FourPoints(w.f, g, q, plus(g, q), Both(plus, Top(u, w.n, i), g, Top(v, w.n, i), q), w.m)
    ensures Beyond(ACC, ACC + 3, old(w.f), w.f, old(w.raw), w.raw)
  {
    var i1 := BitAt(w, U1, i);
    var i2 := BitAt(w, U2, i);
    ghost var j, k := Top(u, w.n, i + 1), Top(v, w.n, i + 1);
    assert Top(u, w.n, i) == 2 * j + Bit(i1) && Top(v, w.n, i) == 2 * k + Bit(i2);
    BothStep(plus, j, g, k, q, i1, i2, b, w.m);
    Step(w, i1, i2, g, q, Both(plus, j, g, k, q), plus, b);
  }

  /** Before the loop: G + Q in its slots, and acc at infinity. */
  method Prepare(w: Bench, ghost g: Point, ghost q: Point, ghost plus: Plus, ghost b: int)
    requires w.Ready() && Law(plus, b, w.m) && OnCurve(g, b, w.m) && OnCurve(q, b, w.m)
    requires Holds(w.f, G, g, w.m) && Holds(w.f, Q, q, w.m)
    modifies w, w.sc, w.c.t
    ensures w.Ready() && FourPoints(w.f, g, q, plus(g, q), Both(plus, 0, g, 0, q), w.m)
    ensures Beyond(GQ, ACC + 3, old(w.f), w.f, old(w.raw), w.raw)
  {
    ghost var f0 := w.f;
    AddHeld(w, GQ, G, Q, g, q, plus, b);
    ghost var f1 := w.f;
    w.SetZero(ACC + 2);
    HoldsKept(f0, w.f, G, g, w.m);
    HoldsKept(f0, w.f, Q, q, w.m);
    HoldsKept(f1, w.f, GQ, plus(g, q), w.m);
    HoldsIs(w.f, ACC, Infinity, w.m);
    ZeroPlus(plus, Infinity, b, w.m);
  }

  method Loop(w: Bench, ghost u: seq<u16>, ghost v: seq<u16>, ghost g: Point, ghost q: Point, ghost plus: Plus, ghost b: int)
    requires w.Ready() && Law(plus, b, w.m) && OnCurve(g, b, w.m) && OnCurve(q, b, w.m)
    requires w.raw[U1] == u && w.raw[U2] == v
    requires FourPoints(w.f, g, q, plus(g, q), Both(plus, 0, g, 0, q), w.m)
    modifies w, w.sc, w.c.t
    ensures w.Ready() && FourPoints(w.f, g, q, plus(g, q), Both(plus, Top(u, w.n, 0), g, Top(v, w.n, 0), q), w.m)
    ensures Beyond(ACC, ACC + 3, old(w.f), w.f, old(w.raw), w.raw)
  {
    var i := 16 * w.n;
    while i > 0
      invariant 0 <= i <= 16 * w.n && w.Ready()
      invariant FourPoints(w.f, g, q, plus(g, q), Both(plus, Top(u, w.n, i), g, Top(v, w.n, i), q), w.m)
      invariant Beyond(ACC, ACC + 3, old(w.f), w.f, old(w.raw), w.raw)
    {
      i := i - 1;
      StepAt(w, i, u, v, g, q, plus, b);
    }
  }

  /** The loop of p256_verify and p384_verify: with G and Q in their slots, u1 G + u2 Q comes out in acc's, and
      nothing else changes but G + Q's slots and the temporaries. */
  method ShamirLoop(w: Bench, ghost g: Point, ghost q: Point, ghost plus: Plus, ghost b: int)
    requires w.Ready() && Law(plus, b, w.m) && OnCurve(g, b, w.m) && OnCurve(q, b, w.m)
    requires Holds(w.f, G, g, w.m) && Holds(w.f, Q, q, w.m)
    modifies w, w.sc, w.c.t
    ensures w.Ready() && Num(old(w.raw)[U1]) >= 0 && Num(old(w.raw)[U2]) >= 0
    ensures Holds(w.f, ACC, plus(Times(plus, Num(old(w.raw)[U1]), g), Times(plus, Num(old(w.raw)[U2]), q)), w.m)
    ensures Beyond(GQ, ACC + 3, old(w.f), w.f, old(w.raw), w.raw)
  {
    ghost var u, v := w.raw[U1], w.raw[U2];
    w.SlotIs(U1);
    w.SlotIs(U2);
    LimbBitsValue(u, 16 * w.n);
    LimbBitsValue(v, 16 * w.n);
    Prepare(w, g, q, plus, b);
    Loop(w, u, v, g, q, plus, b);
    assert VeilFour(0);
  }

  // ---- k P ----

  /** The loop of mul: with a point in slot 0 and a scalar in slot 12, k P comes out in slot 3. */
  method Mul(w: Bench, ghost g: Point, ghost plus: Plus, ghost b: int)
    requires w.Ready() && Law(plus, b, w.m) && OnCurve(g, b, w.m) && Holds(w.f, 0, g, w.m)
    modifies w, w.sc, w.c.t
    ensures w.Ready() && Num(old(w.raw)[12]) >= 0
    ensures Holds(w.f, 3, Times(plus, Num(old(w.raw)[12]), g), w.m)
    ensures Beyond(3, 6, old(w.f), w.f, old(w.raw), w.raw)
  {
    ghost var u, f0 := w.raw[12], w.f;
    w.SlotIs(12);
    LimbBitsValue(u, 16 * w.n);
    w.SetZero(5);
    HoldsIs(w.f, 3, Infinity, w.m);
    HoldsKept(f0, w.f, 0, g, w.m);
    MulLoop(w, u, g, plus, b);
  }

  method MulLoop(w: Bench, ghost u: seq<u16>, ghost g: Point, ghost plus: Plus, ghost b: int)
    requires w.Ready() && Law(plus, b, w.m) && OnCurve(g, b, w.m) && w.raw[12] == u
    requires Holds(w.f, 0, g, w.m) && Holds(w.f, 3, Infinity, w.m)
    modifies w, w.sc, w.c.t
    ensures w.Ready() && Holds(w.f, 3, Times(plus, Top(u, w.n, 0), g), w.m)
    ensures Beyond(3, 6, old(w.f), w.f, old(w.raw), w.raw)
  {
    var i := 16 * w.n;
    while i > 0
      invariant 0 <= i <= 16 * w.n && w.Ready()
      invariant Holds(w.f, 0, g, w.m) && Holds(w.f, 3, Times(plus, Top(u, w.n, i), g), w.m)
      invariant Beyond(3, 6, old(w.f), w.f, old(w.raw), w.raw)
    {
      i := i - 1;
      MulStep(w, i, u, g, plus, b);
    }
  }

  /** The loop's body. */
  method MulStep(w: Bench, i: nat, ghost u: seq<u16>, ghost g: Point, ghost plus: Plus, ghost b: int)
    requires w.Ready() && Law(plus, b, w.m) && OnCurve(g, b, w.m) && i < 16 * w.n && w.raw[12] == u
    requires Holds(w.f, 0, g, w.m) && Holds(w.f, 3, Times(plus, Top(u, w.n, i + 1), g), w.m)
    modifies w, w.sc, w.c.t
    ensures w.Ready() && Holds(w.f, 0, g, w.m) && Holds(w.f, 3, Times(plus, Top(u, w.n, i), g), w.m)
    ensures Beyond(3, 6, old(w.f), w.f, old(w.raw), w.raw)
  {
    ghost var f0, k := w.f, Top(u, w.n, i + 1);
    TimesOnCurve(plus, k, g, b, w.m);
    TimesOnCurve(plus, 2 * k, g, b, w.m);
    TimesAdd(plus, k, k, g, b, w.m);
    var x := BitAt(w, 12, i);
    assert Top(u, w.n, i) == 2 * k + Bit(x);
    DblHeld(w, 3, 3, Times(plus, k, g), plus, b);
    HoldsKept(f0, w.f, 0, g, w.m);
    if x {
      ghost var f1 := w.f;
      AddHeld(w, 3, 3, 0, Times(plus, 2 * k, g), g, plus, b);
      HoldsKept(f1, w.f, 0, g, w.m);
    }
  }
}
