/** Numbers as bytes, the least significant first. */
module Base256 {
  import opened Modular
  import opened Digits

  ghost function W(k: nat): int
  {
    Pow(0x100, k)
  }

  ghost function Num(s: seq<int>): int
  {
    Val(0x100, s)
  }

  lemma NumSnoc(s: seq<int>, k: nat)
    requires k < |s|
    ensures Num(s[..k + 1]) == Num(s[..k]) + s[k] * W(k)
  {
    assert s[..k + 1] == s[..k] + [s[k]];
    ValSnoc(0x100, s[..k], s[k]);
  }

  lemma EightBytes(s: seq<int>)
    requires |s| == 8
    ensures Num(s) == s[0] + 0x100 * s[1] + 0x1_0000 * s[2] + 0x100_0000 * s[3] + 0x1_0000_0000 * s[4]
                      + 0x100_0000_0000 * s[5] + 0x1_0000_0000_0000 * s[6] + 0x100_0000_0000_0000 * s[7]
  {
    assert W(1) == 0x100 && W(2) == 0x1_0000 && W(3) == 0x100_0000 && W(4) == 0x1_0000_0000;
    assert W(5) == 0x100_0000_0000 && W(6) == 0x1_0000_0000_0000 && W(7) == 0x100_0000_0000_0000;
    NumSnoc(s, 0);
    NumSnoc(s, 1);
    NumSnoc(s, 2);
    NumSnoc(s, 3);
    NumSnoc(s, 4);
    NumSnoc(s, 5);
    NumSnoc(s, 6);
    NumSnoc(s, 7);
    assert s[..0] == [] && s[..8] == s;
  }
}
