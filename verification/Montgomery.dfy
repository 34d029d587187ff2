/** Montgomery arithmetic modulo an odd number (src/crypto/mp.c, the portable bodies). */
module Montgomery {
  import opened Words
  import opened Modular
  import opened Digits
  import opened Limbs

  /** v is the Montgomery product of a and b: the value below m with v R = a b (mod m). */
  ghost predicate IsMontProduct(v: int, a: int, b: int, n: nat, m: int)
    requires m > 0
  {
    0 <= v < m && (v * W(n)) % m == (a * b) % m
  }

  /** The limb weights are powers of two, so R is invertible for an odd modulus. */
  lemma WIsPow2(n: nat)
    ensures W(n) == Pow(2, 16 * n)
  {
    PowMul(2, 16, n);
    PowAdd(2, 8, 8);
    assert Pow(2, 8) == 256;
  }

  /** There is only one Montgomery product. */
  lemma MontProductUnique(v: int, u: int, a: int, b: int, n: nat, m: int)
    requires m > 0 && m % 2 == 1
    requires IsMontProduct(v, a, b, n, m) && IsMontProduct(u, a, b, n, m)
    ensures v == u
  {
    WIsPow2(n);
    CancelPow2(v, u, 16 * n, m);
    ModSmall(v, m);
    ModSmall(u, m);
  }

  /** What holds between rounds, over the integers: w is the weight of the limbs of a consumed so far, a their
      value, and q the multiple of m added so far. */
  ghost predicate Progress(T: int, w: int, a: int, b: int, q: int, m: int)
  {
    0 <= q < w && T * w == a * b + q * m
  }

  /** One round in base B: with the round's digit x of a and its multiplier mu, B T' = T + x b + mu m. */
  lemma ProgressStep(B: int, T: int, T': int, w: int, a: int, b: int, q: int, m: int, x: int, mu: int) returns (q': int)
    requires Progress(T, w, a, b, q, m) && 0 <= mu < B
    requires B * T' == T + x * b + mu * m
    ensures Progress(T', B * w, a + x * w, b, q', m)
  {
    q' := q + mu * w;
    MulMono(mu, B - 1, w, w);
    assert (B - 1) * w + w == B * w;
    assert T' * (B * w) == (B * T') * w;
    assert (T + x * b + mu * m) * w == T * w + (x * w) * b + (mu * w) * m;
    assert (a + x * w) * b == a * b + (x * w) * b && (q + mu * w) * m == q * m + (mu * w) * m;
  }

  /** The running total stays below b + m. */
  lemma TotalBound(T: int, w: int, a: int, b: int, q: int, m: int)
    requires 0 <= a < w && 0 <= b && 0 < m && Progress(T, w, a, b, q, m)
    ensures 0 <= T < b + m
  {
    MulMono(a, w - 1, b, b);
    MulMono(q, w - 1, m, m);
    assert (w - 1) * b + (w - 1) * m == (b + m) * w - (b + m);
    if T >= b + m {
      MulMono(b + m, T, w, w);
    }
    if T < 0 {
      MulAtLeast(T, w);
    }
  }

  /** The multiplier mu makes the low limb vanish. */
  lemma LowLimb(t0: int, m0: int, n0: int, B: int)
    requires B > 0 && (n0 * m0 + 1) % B == 0
    ensures (t0 + ((t0 * n0) % B) * m0) % B == 0
  {
    var mu := (t0 * n0) % B;
    ModIdem(t0 * n0, B);
    CongMul(mu, t0 * n0, m0, m0, B);
    CongAdd(t0, t0, mu * m0, t0 * n0 * m0, B);
    assert t0 + t0 * n0 * m0 == t0 * (n0 * m0 + 1);
    CongMul(t0, t0, n0 * m0 + 1, 0, B);
  }

  /** A round's rows fit the scratch. */
  lemma RoundRoom(T: int, a: seq<u16>, i: nat, b: int, q: int, m: int, w: int)
    requires i < |a| && 0 <= b < m < w && Progress(T, W(i), Num(a[..i]), b, q, m)
    ensures T + a[i] * b + 0xffff * m < 0x1_0000 * (2 * w)
  {
    NumBound(a[..i]);
    TotalBound(T, W(i), Num(a[..i]), b, q, m);
    MulMono(a[i], 0xffff, b, b);
  }

  /** One limb of a more. */
  lemma RoundDone(T: int, T1: int, a: seq<u16>, i: nat, b: int, q: int, m: int, mu: int) returns (q': int)
    requires i < |a| && Progress(T, W(i), Num(a[..i]), b, q, m) && 0 <= mu <= 0xffff
    requires 0x1_0000 * T1 == T + a[i] * b + mu * m
    ensures Progress(T1, W(i + 1), Num(a[..i + 1]), b, q', m)
  {
    NumSnoc(a, 0, i);
    assert a[0..i] == a[..i] && a[0..i + 1] == a[..i + 1];
    q' := ProgressStep(0x1_0000, T, T1, W(i), Num(a[..i]), b, q, m, a[i], mu);
  }

  class Context {
    var n: nat           // limbs
    var n0: u16          // -m^-1 mod 2^16
    var n0w: u32         // -m^-1 mod 2^32, for the 32-bit rows
    const m: array<u16>  // the modulus
    const rr: array<u16> // R^2 mod m
    const t: array<u16>  // the multiplier's scratch

    constructor ()
      ensures Arrays() && n == 0
      ensures fresh(m) && fresh(rr) && fresh(t)
    {
      m := new u16[256];
      rr := new u16[256];
      t := new u16[262];
      n := 0;
      n0 := 0;
      n0w := 0;
    }

    predicate Arrays()
    {
      m.Length == 256 && rr.Length == 256 && t.Length == 262 && m != rr && m != t && rr != t
    }

    /** The modulus. */
    ghost function M(): int
      requires Arrays()
      reads this, m
    {
      if n <= 256 then Num(m[..n]) else 0
    }

    /** A modulus of 1 to 256 limbs: all that adding, subtracting and comparing need. */
    ghost predicate HasModulus()
      reads this, m
    {
      Arrays() && 1 <= n <= 256 && 0 < M()
    }

    /** What the multipliers need: an odd modulus and the inverses of its low limb and low word. */
    ghost predicate ModOk()
      reads this, m
    {
      && Arrays()
      && 1 <= n <= 256
      && m[0] % 2 == 1
      && ((n0 as int) * (m[0] as int) + 1) % 0x1_0000 == 0
      && (n >= 2 ==> ((n0w as int) * ((m[0] as int) + 0x1_0000 * (m[1] as int)) + 1) % 0x1_0000_0000 == 0)
    }

    /** The whole context: rr is R^2 mod m besides. */
    ghost predicate Valid()
      reads this, m, rr
    {
      ModOk() && 0 < M() && Num(rr[..n]) < M() && Num(rr[..n]) % M() == (W(n) * W(n)) % M()
    }

    lemma ModulusOdd()
      requires ModOk()
      ensures 0 < M() < W(n) && M() % 2 == 1 && HasModulus()
    {
      NumOdd(m[..n]);
    }

    // ---- the 16-bit multiplier ----

    /** The row's multiplier, and the carry of its first step, whose limb is zero. */
    method Multiplier() returns (mu: u16, c0: u16)
      requires ModOk()
      ensures t[0] + mu * m[0] == 0x1_0000 * c0
    {
      MulMono(t[0], 0xffff, n0, 0xffff);
      var p: u32 := t[0] * n0;
      mu := p % 0x1_0000;
      LowLimb(t[0], m[0], n0, 0x1_0000);
      MulMono(mu, 0xffff, m[0], 0xffff);
      var acc: u32 := t[0] + mu * m[0];
      c0 := acc / 0x1_0000;
    }

    /** The reduction row: adds the multiple of m that clears the low limb, and shifts one limb down. */
    method ReduceRow() returns (ghost mu: int)
      requires ModOk()
      requires Total3(t[..], n) + 0xffff * M() < 0x1_0000 * (2 * W(n))
      modifies t
      ensures 0 <= mu <= 0xffff
      ensures 0x1_0000 * Total(t[..], n) == Total3(old(t[..]), n) + mu * M()
    {
      ghost var t0, ms := t[..], m[..n];
      var factor, c0 := Multiplier();
      var carry := MacRow(factor, t, 1, m, 1, 0, n - 1, c0);
      ghost var row := t[0..n - 1];
      assert t0[1..n] == old(t[1..1 + (n - 1)]) && ms[1..] == m[1..1 + (n - 1)];
      var acc: u32 := (t[n] as int) + (carry as int);
      ReduceValue(t0, n, ms, factor, c0, carry, row);
      t[n - 1] := acc % 0x1_0000;
      t[n] := t[n + 1] + acc / 0x1_0000;
      assert t[..][..n] == row + [acc % 0x1_0000];
      mu := factor;
    }

    /** The product row: the total grows by x b. */
    method ProductRow(x: u16, b: array<u16>, bo: nat)
      requires ModOk() && bo + n <= b.Length && b != t
      modifies t
      ensures Total3(t[..], n) == Total(old(t[..]), n) + x * Num(b[bo..bo + n])
    {
      ghost var t0 := t[..];
      var carry := MacRow(x, t, 0, b, bo, 0, n, 0);
      ghost var low := Num(t[..n]);
      assert t0[..n] == old(t[0..n]) && t[..n] == t[0..n];
      var acc: u32 := (t[n] as int) + (carry as int);
      t[n] := acc % 0x1_0000;
      t[n + 1] := acc / 0x1_0000;
      assert t[..][..n] == t[0..n];
      CarryValue(W(n), t0[n], carry, t[n], t[n + 1]);
    }

    /** Whether the total has reached the modulus. */
    method AtLeastM() returns (over: bool)
      requires HasModulus()
      ensures over <==> Total(t[..], n) >= M()
      ensures !over ==> Total(t[..], n) == Num(t[..n])
    {
      NumBound(m[..n]);
      assert t[0..n] == t[..][..n] == t[..n] && m[0..n] == m[..n];
      NumBound(t[0..n]);
      var c := CmpN(n, t, 0, m, 0);
      FinishCase(t[n], W(n), Num(t[0..n]), M());
      over := t[n] != 0 || c >= 0;
    }

    /** The final conditional subtraction: a total below 2m becomes its residue. */
    method Finish(r: array<u16>, ro: nat)
      requires HasModulus() && ro + n <= r.Length && r != t && r != m
      requires 0 <= Total(t[..], n) < 2 * M()
      modifies r
      ensures Num(r[ro..ro + n]) == Total(t[..], n) % M()
      ensures forall j :: 0 <= j < r.Length && !(ro <= j < ro + n) ==> r[j] == old(r[j])
    {
      var over := AtLeastM();
      assert t[0..n] == t[..][..n] == t[..n] && m[0..n] == m[..n];
      NumBound(m[..n]);
      if over {
        var borrow := SubN(n, r, ro, t, 0, m, 0);
        NumBound(t[..n]);
        NumBound(r[ro..ro + n]);
        FinishSub(t[n], W(n), Num(t[..n]), M(), Num(r[ro..ro + n]), borrow);
      } else {
        CopyN(n, r, ro, t, 0);
        ModSmall(Num(t[..n]), M());
      }
    }

    /** One round of the multiplication, for limb i of a. */
    method Round(x: u16, b: array<u16>, bo: nat, ghost a: seq<u16>, ghost i: nat, ghost q: int) returns (ghost q': int)
      requires ModOk() && bo + n <= b.Length && b != t && i < |a| && a[i] == x
      requires Num(b[bo..bo + n]) < M()
      requires Progress(Total(t[..], n), W(i), Num(a[..i]), Num(b[bo..bo + n]), q, M())
      modifies t
      ensures Progress(Total(t[..], n), W(i + 1), Num(a[..i + 1]), Num(b[bo..bo + n]), q', M())
    {
      ghost var T, Bv := Total(t[..], n), Num(b[bo..bo + n]);
      ModulusOdd();
      NumBound(b[bo..bo + n]);
      RoundRoom(T, a, i, Bv, q, M(), W(n));
      ProductRow(x, b, bo);
      ghost var mu := ReduceRow();
      q' := RoundDone(T, Total(t[..], n), a, i, Bv, q, M(), mu);
    }

    /** One round of the reduction alone. */
    method ReduceRound(ghost a: int, ghost i: nat, ghost q: int) returns (ghost q': int)
      requires ModOk() && t[n + 1] == 0
      requires 0 <= Total(t[..], n) < W(n)
      requires Progress(Total(t[..], n), W(i), a, 1, q, M())
      modifies t
      ensures t[n + 1] == 0
      ensures 0 <= Total(t[..], n) < W(n)
      ensures Progress(Total(t[..], n), W(i + 1), a, 1, q', M())
    {
      ghost var T := Total(t[..], n);
      ModulusOdd();
      ghost var mu := ReduceRow();
      ghost var t1 := t[..];
      t[n + 1] := 0;
      assert t[..][..n] == t1[..n];
      q' := ProgressStep(0x1_0000, T, Total(t[..], n), W(i), a, 1, q, M(), 0, mu);
      MulMono(mu, 0xffff, M(), W(n) - 1);
    }

    method ClearScratch()
      requires Arrays() && n <= 256
      modifies t
      ensures Total(t[..], n) == 0
    {
      var i := 0;
      while i < n + 2
        invariant 0 <= i <= n + 2
        invariant forall j :: 0 <= j < i ==> t[j] == 0
      {
        t[i] := 0;
        i := i + 1;
      }
      ValZeros(0x1_0000, t[..][..n]);
    }

    /** The rounds of the multiplication: the total is congruent to a b / R, and below m + b. */
    method MulRounds(a: array<u16>, ao: nat, b: array<u16>, bo: nat) returns (ghost q: int)
      requires ModOk() && ao + n <= a.Length && bo + n <= b.Length && a != t && b != t
      requires Num(b[bo..bo + n]) < M()
      modifies t
      ensures Progress(Total(t[..], n), W(n), Num(a[ao..ao + n]), Num(b[bo..bo + n]), q, M())
    {
      ghost var a0 := a[ao..ao + n];
      ClearScratch();
      q := 0;
      var i := 0;
      while i < n
        invariant 0 <= i <= n
        invariant Progress(Total(t[..], n), W(i), Num(a0[..i]), Num(b[bo..bo + n]), q, M())
      {
        q := Round(a[ao + i], b, bo, a0, i, q);
        i := i + 1;
      }
      assert a0[..n] == a0;
    }

    /** r = a b / R mod m.  r may be the same limbs as a or b, or overlap them: both are read before r is written. */
    method MontMul(r: array<u16>, ro: nat, a: array<u16>, ao: nat, b: array<u16>, bo: nat)
      requires ModOk() && ro + n <= r.Length && ao + n <= a.Length && bo + n <= b.Length
      requires r != t && r != m && a != t && b != t
      requires Num(b[bo..bo + n]) < M()
      modifies r, t
      ensures M() == old(M()) > 0
      ensures IsMontProduct(Num(r[ro..ro + n]), Num(old(a[ao..ao + n])), Num(old(b[bo..bo + n])), n, M())
      ensures forall j :: 0 <= j < r.Length && !(ro <= j < ro + n) ==> r[j] == old(r[j])
    {
      ghost var A, B := Num(a[ao..ao + n]), Num(b[bo..bo + n]);
      ModulusOdd();
      NumBound(a[ao..ao + n]);
      NumBound(b[bo..bo + n]);
      ghost var q := MulRounds(a, ao, b, bo);
      ghost var T := Total(t[..], n);
      TotalBound(T, W(n), A, B, q, M());
      Finish(r, ro);
      MontResult(T, Num(r[ro..ro + n]), A, B, q, n, M());
    }

    /** The rounds of the reduction alone. */
    method ReduceRounds(a: array<u16>, ao: nat) returns (ghost q: int)
      requires ModOk() && ao + n <= a.Length && a != t
      modifies t
      ensures Progress(Total(t[..], n), W(n), Num(a[ao..ao + n]), 1, q, M())
    {
      ghost var a0 := a[ao..ao + n];
      CopyN(n, t, 0, a, ao);
      t[n], t[n + 1] := 0, 0;
      assert t[..][..n] == a0;
      NumBound(a0);
      q := 0;
      var i := 0;
      while i < n
        invariant 0 <= i <= n && t[n + 1] == 0
        invariant 0 <= Total(t[..], n) < W(n)
        invariant Progress(Total(t[..], n), W(i), Num(a0), 1, q, M())
      {
        q := ReduceRound(Num(a0), i, q);
        i := i + 1;
      }
    }

    /** r = a / R mod m: the reduction rounds alone. */
    method FromMont(r: array<u16>, ro: nat, a: array<u16>, ao: nat)
      requires ModOk() && ro + n <= r.Length && ao + n <= a.Length
      requires r != t && r != m && a != t
      modifies r, t
      ensures M() == old(M()) > 0
      ensures IsMontProduct(Num(r[ro..ro + n]), Num(old(a[ao..ao + n])), 1, n, M())
      ensures forall j :: 0 <= j < r.Length && !(ro <= j < ro + n) ==> r[j] == old(r[j])
    {
      ghost var A := Num(a[ao..ao + n]);
      ModulusOdd();
      NumBound(a[ao..ao + n]);
      ghost var q := ReduceRounds(a, ao);
      ghost var T := Total(t[..], n);
      TotalBound(T, W(n), A, 1, q, M());
      Finish(r, ro);
      MontResult(T, Num(r[ro..ro + n]), A, 1, q, n, M());
    }
  }

  /** The scratch as one number: n limbs and a top one; and, in the middle of a round, one more. */
  ghost function Total(s: seq<u16>, n: nat): int
    requires n < |s|
  {
    Num(s[..n]) + s[n] * W(n)
  }

  ghost function Total3(s: seq<u16>, n: nat): int
    requires n + 1 < |s|
  {
    Num(s[..n]) + s[n] * W(n) + s[n + 1] * W(n + 1)
  }

  /** The integer content of the reduction row, and that its new top limb is a limb. */
  lemma ReduceValue(t0: seq<u16>, n: nat, ms: seq<u16>, mu: int, c0: int, c: int, row: seq<u16>)
    requires |ms| == n >= 1 && |t0| >= n + 2 && |row| == n - 1 && c >= 0 && 0 <= mu <= 0xffff
    requires t0[0] + mu * ms[0] == 0x1_0000 * c0
    requires Num(row) + c * W(n - 1) == Num(t0[1..n]) + mu * Num(ms[1..]) + c0
    requires Total3(t0, n) + 0xffff * Num(ms) < 0x1_0000 * (2 * W(n))
    ensures var acc := t0[n] + c;
      && t0[n + 1] + acc / 0x1_0000 <= 1
      && 0x1_0000 * (Num(row + [acc % 0x1_0000]) + (t0[n + 1] + acc / 0x1_0000) * W(n)) == Total3(t0, n) + mu * Num(ms)
  {
    var acc, w := t0[n] + c, W(n - 1);
    ValCons(0x1_0000, t0[..n]);
    assert t0[..n][1..] == t0[1..n];
    ValCons(0x1_0000, ms);
    ValSnoc(0x1_0000, row, acc % 0x1_0000);
    ReduceAlgebra(t0[0], Num(t0[1..n]), mu, ms[0], Num(ms[1..]), c0, c, w, Num(row), t0[n], t0[n + 1],
                  acc % 0x1_0000, acc / 0x1_0000, 0x1_0000);
    NumBound(ms);
    NumBound(row + [acc % 0x1_0000]);
    ReduceTop(Num(row + [acc % 0x1_0000]), t0[n + 1] + acc / 0x1_0000, W(n), Total3(t0, n), mu, Num(ms));
  }

  lemma ReduceAlgebra(low: int, high: int, mu: int, mlow: int, mhigh: int, c0: int, c: int, w: int,
                      row: int, tn: int, top: int, lo: int, hi: int, B: int)
    requires low + mu * mlow == B * c0
    requires row + c * w == high + mu * mhigh + c0
    requires tn + c == lo + B * hi
    ensures B * ((row + lo * w) + (top + hi) * (B * w))
            == (low + B * high) + tn * (B * w) + top * (B * (B * w)) + mu * (mlow + B * mhigh)
  {
    assert (tn + c) * (B * w) == (lo + B * hi) * (B * w);
    assert B * (row + c * w) == B * (high + mu * mhigh + c0);
    assert B * ((row + lo * w) + (top + hi) * (B * w)) == B * row + (lo + B * hi) * (B * w) + top * (B * (B * w));
    assert mu * (mlow + B * mhigh) == mu * mlow + B * (mu * mhigh);
  }

  /** The new top limb is a limb: at most 1. */
  lemma ReduceTop(low: int, top: int, w: int, T: int, mu: int, m: int)
    requires w > 0 && 0 <= mu <= 0xffff && low >= 0 && m >= 0
    requires 0x1_0000 * (low + top * w) == T + mu * m
    requires T + 0xffff * m < 0x1_0000 * (2 * w)
    ensures top <= 1
  {
    MulMono(mu, 0xffff, m, m);
    if top >= 2 {
      MulMono(2, top, w, w);
    }
  }

  lemma CarryValue(w: int, tn: int, c: int, lo: int, hi: int)
    requires tn + c == lo + 0x1_0000 * hi
    ensures (tn + c) * w == lo * w + hi * (0x1_0000 * w)
  {
  }

  /** Whether the total is below m shows in its top limb and the comparison. */
  lemma FinishCase(top: int, w: int, low: int, m: int)
    requires 0 < m < w && 0 <= low < w && top >= 0
    ensures top > 0 || low >= m <==> low + top * w >= m
    ensures top == 0 ==> low + top * w == low
  {
    if top > 0 {
      MulMono(1, top, w, w);
    }
  }

  lemma FinishSub(top: int, w: int, low: int, m: int, res: int, borrow: int)
    requires 0 < m < w && 0 <= low < w && 0 <= res < w && 0 <= borrow <= 1 && top >= 0
    requires m <= low + top * w < 2 * m
    requires res - borrow * w == low - m
    ensures res == (low + top * w) % m
  {
    assert (top - borrow) * w == top * w - borrow * w;
    SmallMultiple(top - borrow, w);
    CongIntro(low + top * w, res, 1, m);
    ModSmall(res, m);
  }

  /** After n rounds the residue of the total is the Montgomery product. */
  lemma MontResult(T: int, v: int, a: int, b: int, q: int, n: nat, m: int)
    requires m > 0 && Progress(T, W(n), a, b, q, m) && v == T % m
    ensures IsMontProduct(v, a, b, n, m)
  {
    ModIdem(T, m);
    CongMul(v, T, W(n), W(n), m);
    CongIntro(T * W(n), a * b, q, m);
  }
}
