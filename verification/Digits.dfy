/** The number a sequence of (possibly signed) digits stands for, least significant first. */
module Digits {
  import opened Modular

  ghost function Val(b: int, s: seq<int>): int
    decreases |s|
  {
    if s == [] then 0 else Val(b, s[..|s| - 1]) + s[|s| - 1] * Pow(b, |s| - 1)
  }

  ghost predicate InBase(b: int, s: seq<int>)
  {
    forall k :: 0 <= k < |s| ==> 0 <= s[k] < b
  }

  lemma ValSnoc(b: int, s: seq<int>, x: int)
    ensures Val(b, s + [x]) == Val(b, s) + x * Pow(b, |s|)
  {
    assert (s + [x])[..|s|] == s;
  }

  lemma ValOne(b: int, x: int)
    ensures Val(b, [x]) == x
  {
    assert [x][..0] == [];
  }

  lemma Distribute(p: int, v: int, x: int, q: int)
    ensures p * (v + x * q) == p * v + x * (p * q)
  {
  }

  lemma {:induction false} ValAppend(b: int, s: seq<int>, t: seq<int>)
    ensures Val(b, s + t) == Val(b, s) + Pow(b, |s|) * Val(b, t)
    decreases |t|
  {
    if t == [] {
      assert s + t == s;
    } else {
      var u, x := t[..|t| - 1], t[|t| - 1];
      assert (s + t)[..|s + t| - 1] == s + u;
      ValAppend(b, s, u);
      PowAdd(b, |s|, |u|);
      Distribute(Pow(b, |s|), Val(b, u), x, Pow(b, |u|));
    }
  }

  /** The same for a sequence cut in two. */
  lemma ValSplit(b: int, s: seq<int>, k: nat)
    requires k <= |s|
    ensures Val(b, s) == Val(b, s[..k]) + Pow(b, k) * Val(b, s[k..])
  {
    assert s == s[..k] + s[k..] && |s[..k]| == k;
    ValAppend(b, s[..k], s[k..]);
  }

  /** Splitting off the lowest digit. */
  lemma ValCons(b: int, s: seq<int>)
    requires |s| > 0
    ensures Val(b, s) == s[0] + b * Val(b, s[1..])
  {
    assert s == [s[0]] + s[1..];
    ValAppend(b, [s[0]], s[1..]);
    ValOne(b, s[0]);
    assert Pow(b, 1) == b * Pow(b, 0) == b;
  }

  lemma {:induction false} ValBound(b: int, s: seq<int>)
    requires b > 0 && InBase(b, s)
    ensures 0 <= Val(b, s) < Pow(b, |s|)
    decreases |s|
  {
    if s != [] {
      var u, x := s[..|s| - 1], s[|s| - 1];
      ValBound(b, u);
      var p := Pow(b, |u|);
      MulMono(x, b - 1, p, p);
      assert (b - 1) * p + p == b * p;
    }
  }

  lemma {:induction false} ValUpdate(b: int, s: seq<int>, i: nat, x: int)
    requires i < |s|
    ensures Val(b, s[i := x]) == Val(b, s) + (x - s[i]) * Pow(b, i)
    decreases |s|
  {
    var u, v := s[..|s| - 1], s[i := x];
    if i == |s| - 1 {
      assert v[..|v| - 1] == u;
      assert (x - s[i]) * Pow(b, i) == x * Pow(b, i) - s[i] * Pow(b, i);
    } else {
      assert v[..|v| - 1] == u[i := x];
      ValUpdate(b, u, i, x);
    }
  }

  /** The same as a change by d. */
  lemma ValAdd(b: int, s: seq<int>, i: nat, d: int)
    requires i < |s|
    ensures Val(b, s[i := s[i] + d]) == Val(b, s) + d * Pow(b, i)
  {
    ValUpdate(b, s, i, s[i] + d);
  }

  lemma {:induction false} ValZeros(b: int, s: seq<int>)
    requires forall k :: 0 <= k < |s| ==> s[k] == 0
    ensures Val(b, s) == 0
    decreases |s|
  {
    if s != [] {
      ValZeros(b, s[..|s| - 1]);
    }
  }

  lemma TopDigit(u: int, v: int, x: int, y: int, p: int)
    requires 0 <= u < p && 0 <= v < p
    ensures x < y ==> u + x * p < v + y * p
  {
    if x < y {
      MulAtLeast(y - x, p);
      assert y * p == x * p + (y - x) * p;
    }
  }

  /** Zero digits on top do not count. */
  lemma ValPadded(b: int, s: seq<int>, k: nat)
    requires k <= |s| && forall j :: k <= j < |s| ==> s[j] == 0
    ensures Val(b, s) == Val(b, s[..k])
  {
    ValZeros(b, s[k..]);
    ValSplit(b, s, k);
  }

  /** Digits in range are determined by the value. */
  lemma {:induction false} ValInjective(b: int, s: seq<int>, t: seq<int>)
    requires b > 0 && InBase(b, s) && InBase(b, t) && |s| == |t| && Val(b, s) == Val(b, t)
    ensures s == t
    decreases |s|
  {
    if s != [] {
      var n := |s| - 1;
      ValBound(b, s[..n]);
      ValBound(b, t[..n]);
      TopDigit(Val(b, s[..n]), Val(b, t[..n]), s[n], t[n], Pow(b, n));
      TopDigit(Val(b, t[..n]), Val(b, s[..n]), t[n], s[n], Pow(b, n));
      ValInjective(b, s[..n], t[..n]);
      assert s == s[..n] + [s[n]] && t == t[..n] + [t[n]];
    }
  }

  /** A number with a digit that is not zero is not zero. */
  lemma ValNotZero(b: int, s: seq<int>, i: nat)
    requires b > 0 && InBase(b, s) && i < |s| && s[i] != 0
    ensures Val(b, s) > 0
  {
    var z := seq(|s|, _ => 0);
    ValZeros(b, z);
    ValBound(b, s);
    if Val(b, s) == 0 {
      ValInjective(b, s, z);
    }
  }

  /** The number with the larger digit at the highest place where two numbers differ is the larger. */
  lemma ValLess(b: int, s: seq<int>, t: seq<int>, i: nat)
    requires b > 0 && InBase(b, s) && InBase(b, t) && |s| == |t| && i < |s|
    requires s[i + 1..] == t[i + 1..] && s[i] < t[i]
    ensures Val(b, s) < Val(b, t)
  {
    ValSplit(b, s, i + 1);
    ValSplit(b, t, i + 1);
    ValTop(b, s, t, i);
  }

  lemma ValTop(b: int, s: seq<int>, t: seq<int>, i: nat)
    requires b > 0 && InBase(b, s) && InBase(b, t) && |s| == |t| && i < |s| && s[i] < t[i]
    ensures Val(b, s[..i + 1]) < Val(b, t[..i + 1])
  {
    assert s[..i + 1][..i] == s[..i] && t[..i + 1][..i] == t[..i];
    ValBound(b, s[..i]);
    ValBound(b, t[..i]);
    TopDigit(Val(b, s[..i]), Val(b, t[..i]), s[i], t[i], Pow(b, i));
  }
}
