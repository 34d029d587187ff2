/** The free map of a 1581 disk: for each track a count and forty bits, over two blocks
    (src/platform/m65_cbmdos.c). */
module Bam {
  import opened Words
  import opened Floppy
  import Bits

  const DIR_TRACK := 40

  datatype Bam = Bam(lo: seq<u8>, hi: seq<u8>)

  /** 1 << k. */
  function Two(k: nat): (p: nat)
    ensures p >= 1
  {
    if k == 0 then 1 else 2 * Two(k - 1)
  }

  predicate BitSet(x: nat, k: nat)
  {
    if k == 0 then x % 2 == 1 else BitSet(x / 2, k - 1)
  }

  /** A set bit taken away, or a clear one added, changes that bit alone. */
  lemma {:induction false} BitChange(x: nat, k: nat, j: nat)
    ensures BitSet(x, k) ==> x >= Two(k) && (BitSet(x - Two(k), j) <==> BitSet(x, j) && j != k)
    ensures !BitSet(x, k) ==> (BitSet(x + Two(k), j) <==> BitSet(x, j) || j == k)
    decreases k
  {
    if k == 0 {
      Halves(x, 1);
    } else {
      Halves(x, Two(k));
      BitChange(x / 2, k - 1, if j == 0 then 0 else j - 1);
    }
  }

  lemma Halves(x: nat, p: nat)
    ensures p % 2 == 0 && x >= p ==> (x - p) / 2 == x / 2 - p / 2 && (x - p) % 2 == x % 2
    ensures p % 2 == 0 ==> (x + p) / 2 == x / 2 + p / 2 && (x + p) % 2 == x % 2
  {
  }

  /** A byte stays one when a bit of it is set. */
  lemma {:induction false} BitFits(x: nat, k: nat, n: nat)
    requires k < n && x < Two(n) && !BitSet(x, k)
    ensures x + Two(k) < Two(n)
    decreases k
  {
    if k > 0 {
      HalfBelow(x, Two(n - 1));
      BitFits(x / 2, k - 1, n - 1);
      AddBelow(x, Two(k - 1), Two(n - 1));
    } else {
      AddBelow(x, 0, Two(n - 1));
    }
  }

  lemma HalfBelow(x: nat, p: nat)
    ensures x < 2 * p <==> x / 2 < p
  {
  }

  lemma AddBelow(x: nat, q: nat, p: nat)
    ensures x / 2 + q < p ==> x + 2 * q < 2 * p
    ensures x % 2 == 0 && x < 2 * p ==> x + 1 < 2 * p
  {
  }

  // ---- the map -------------------------------------------------------------------------------------------------

  /** Where a track's entry begins in its block. */
  function Base(t: nat): (e: nat)
    requires 1 <= t <= TRACKS
    ensures 16 <= e <= 250
  {
    16 + (if t <= 40 then t - 1 else t - 41) * 6
  }

  ghost predicate Shaped(m: Bam)
  {
    |m.lo| == BLOCK && |m.hi| == BLOCK
  }

  function Buf(m: Bam, t: nat): seq<u8>
  {
    if t <= 40 then m.lo else m.hi
  }

  function WithByte(m: Bam, t: nat, i: nat, x: u8): (r: Bam)
    requires Shaped(m) && i < BLOCK
    ensures Shaped(r)
  {
    if t <= 40 then m.(lo := m.lo[i := x]) else m.(hi := m.hi[i := x])
  }

  function Place(b: Blk): (i: nat)
    requires OnDisk(b)
    ensures i < BLOCK
  {
    Base(b.t) + 1 + b.s / 8
  }

  predicate IsFree(m: Bam, b: Blk)
    requires Shaped(m) && OnDisk(b)
  {
    BitSet(Buf(m, b.t)[Place(b)], b.s % 8)
  }

  function Count(m: Bam, t: nat): u8
    requires Shaped(m) && 1 <= t <= TRACKS
  {
    Buf(m, t)[Base(t)]
  }

  /** The layout of a 1581 disk: from byte 16 of the map's two blocks, for forty tracks each, a count and a bit for each
      of the forty blocks, eight to a byte, the lowest first. */
  lemma Layout(m: Bam, b: Blk)
    requires Shaped(m) && OnDisk(b)
    ensures var d, e := if b.t <= 40 then m.lo else m.hi, 16 + 6 * ((b.t - 1) % 40);
            Count(m, b.t) == d[e] && (IsFree(m, b) <==> Bits.BitOf(d[e + 1 + b.s / 8], b.s % 8))
  {
    BaseIs(b.t);
    BitRead(Buf(m, b.t)[Place(b)], b.s % 8);
  }

  lemma BaseIs(t: nat)
    requires 1 <= t <= TRACKS
    ensures Base(t) == 16 + 6 * ((t - 1) % 40)
  {
  }

  lemma {:induction false} BitRead(x: nat, k: nat)
    ensures BitSet(x, k) <==> Bits.BitOf(x, k)
    decreases k
  {
    if k > 0 {
      BitRead(x / 2, k - 1);
      Bits.BitUp(x, k - 1);
    } else {
      Bits.BitUp(x, 0);
    }
  }

  ghost predicate AllOnDisk(bs: seq<Blk>)
  {
    forall i :: 0 <= i < |bs| ==> OnDisk(bs[i])
  }

  /** How many of some blocks are free. */
  ghost function FreeIn(m: Bam, bs: seq<Blk>): (k: nat)
    requires Shaped(m) && AllOnDisk(bs)
    ensures k <= |bs|
  {
    if bs == [] then 0 else FreeIn(m, bs[..|bs| - 1]) + if IsFree(m, bs[|bs| - 1]) then 1 else 0
  }

  function Track(t: nat): (bs: seq<Blk>)
    requires 1 <= t <= TRACKS
    ensures |bs| == SECTORS && forall s :: 0 <= s < |bs| ==> bs[s] == Blk(t, s)
  {
    seq(SECTORS, s requires 0 <= s < SECTORS => Blk(t, s))
  }

  /** Every track's count is the number of set bits in its map. */
  ghost predicate Counted(m: Bam)
  {
    Shaped(m) && forall t :: 1 <= t <= TRACKS ==> Count(m, t) as nat == FreeIn(m, Track(t))
  }

  /** bam_alloc. */
  function Alloc(m: Bam, b: Blk): (r: Bam)
    requires Shaped(m) && OnDisk(b)
    ensures Shaped(r)
  {
    if !IsFree(m, b) then m
    else
      var x := Buf(m, b.t)[Place(b)];
      BitChange(x, b.s % 8, 0);
      var m1 := WithByte(m, b.t, Place(b), x - Two(b.s % 8));
      if Count(m1, b.t) > 0 then WithByte(m1, b.t, Base(b.t), Count(m1, b.t) - 1) else m1
  }

  /** bam_free. */
  function Free(m: Bam, b: Blk): (r: Bam)
    requires Shaped(m) && OnDisk(b)
    ensures Shaped(r)
  {
    if IsFree(m, b) then m
    else
      var x := Buf(m, b.t)[Place(b)];
      assert Two(8) == 0x100;
      BitFits(x, b.s % 8, 8);
      var m1 := WithByte(m, b.t, Place(b), x + Two(b.s % 8));
      WithByte(m1, b.t, Base(b.t), (Count(m1, b.t) as int + 1) % 0x100)
  }

  /** Different blocks have different bits. */
  lemma PlacesApart(a: Blk, b: Blk)
    requires OnDisk(a) && OnDisk(b) && a != b
    ensures (a.t <= 40) == (b.t <= 40) && Place(a) == Place(b) ==> a.t == b.t && a.s % 8 != b.s % 8
    ensures (a.t <= 40) == (b.t <= 40) ==> Place(a) != Base(b.t)
    ensures (a.t <= 40) == (b.t <= 40) && a.t != b.t ==> Base(a.t) != Base(b.t)
  {
  }

  lemma AllocBit(m: Bam, b: Blk, c: Blk)
    requires Shaped(m) && OnDisk(b) && OnDisk(c)
    ensures IsFree(Alloc(m, b), c) <==> IsFree(m, c) && c != b
  {
    if IsFree(m, b) {
      BitChange(Buf(m, b.t)[Place(b)], b.s % 8, c.s % 8);
      if b != c {
        PlacesApart(c, b);
      }
    }
  }

  lemma FreeBit(m: Bam, b: Blk, c: Blk)
    requires Shaped(m) && OnDisk(b) && OnDisk(c)
    ensures IsFree(Free(m, b), c) <==> IsFree(m, c) || c == b
  {
    if !IsFree(m, b) {
      BitChange(Buf(m, b.t)[Place(b)], b.s % 8, c.s % 8);
      if b != c {
        PlacesApart(c, b);
      }
    }
  }

  /** The free ones among some blocks when one block's bit changes. */
  lemma {:induction false} FreeInChange(m: Bam, r: Bam, b: Blk, bs: seq<Blk>)
    requires Shaped(m) && Shaped(r) && OnDisk(b) && AllOnDisk(bs) && Distinct(bs)
    requires forall c :: OnDisk(c) && c != b ==> (IsFree(r, c) <==> IsFree(m, c))
    ensures FreeIn(r, bs) - FreeIn(m, bs) ==
            if b in bs then (if IsFree(r, b) then 1 else 0) - (if IsFree(m, b) then 1 else 0) else 0
    decreases |bs|
  {
    if bs != [] {
      var rest := bs[..|bs| - 1];
      assert bs == rest + [bs[|bs| - 1]];
      FreeInChange(m, r, b, rest);
    }
  }

  /** None of some blocks is free if and only if none is counted. */
  lemma {:induction false} FreeInNone(m: Bam, bs: seq<Blk>)
    requires Shaped(m) && AllOnDisk(bs)
    ensures FreeIn(m, bs) == 0 <==> forall i :: 0 <= i < |bs| ==> !IsFree(m, bs[i])
    decreases |bs|
  {
    if bs != [] {
      FreeInNone(m, bs[..|bs| - 1]);
    }
  }

  lemma TrackHas(t: nat, b: Blk)
    requires 1 <= t <= TRACKS && OnDisk(b)
    ensures b in Track(t) <==> b.t == t
  {
    if b.t == t {
      assert Track(t)[b.s] == b;
    }
  }

  lemma AllocCounted(m: Bam, b: Blk)
    requires Counted(m) && OnDisk(b) && IsFree(m, b)
    ensures Counted(Alloc(m, b))
  {
    var r := Alloc(m, b);
    forall c | OnDisk(c) ensures IsFree(r, c) <==> IsFree(m, c) && c != b {
      AllocBit(m, b, c);
    }
    forall t | 1 <= t <= TRACKS ensures Count(r, t) as nat == FreeIn(r, Track(t)) {
      FreeInChange(m, r, b, Track(t));
      TrackHas(t, b);
      CountBounds(m, b);
      CountChange(m, b, t);
    }
  }

  /** A track with a free block counts one at least, and never more than its blocks. */
  lemma CountBounds(m: Bam, b: Blk)
    requires Counted(m) && OnDisk(b)
    ensures Count(m, b.t) <= 40 && (IsFree(m, b) ==> Count(m, b.t) > 0)
  {
    var bs := Track(b.t);
    assert Count(m, b.t) as nat == FreeIn(m, bs);
    FreeInNone(m, bs);
    assert bs[b.s] == b;
  }

  lemma CountChange(m: Bam, b: Blk, t: nat)
    requires Shaped(m) && OnDisk(b) && 1 <= t <= TRACKS && Count(m, b.t) <= 40 && (IsFree(m, b) ==> Count(m, b.t) > 0)
    ensures IsFree(m, b) ==> Count(Alloc(m, b), t) as int == Count(m, t) - if t == b.t then 1 else 0
    ensures !IsFree(m, b) ==> Count(Free(m, b), t) as int == Count(m, t) + if t == b.t then 1 else 0
  {
    PlaceNotCount(b, t);
    PlaceNotCount(b, b.t);
  }

  lemma PlaceNotCount(b: Blk, t: nat)
    requires OnDisk(b) && 1 <= t <= TRACKS
    ensures (b.t <= 40) == (t <= 40) ==> Place(b) != Base(t)
    ensures (b.t <= 40) == (t <= 40) && b.t != t ==> Base(b.t) != Base(t)
  {
  }

  lemma FreeCounted(m: Bam, b: Blk)
    requires Counted(m) && OnDisk(b) && !IsFree(m, b)
    ensures Counted(Free(m, b))
  {
    var r := Free(m, b);
    forall c | OnDisk(c) ensures IsFree(r, c) <==> IsFree(m, c) || c == b {
      FreeBit(m, b, c);
    }
    forall t | 1 <= t <= TRACKS ensures Count(r, t) as nat == FreeIn(r, Track(t)) {
      FreeInChange(m, r, b, Track(t));
      TrackHas(t, b);
      CountBounds(m, b);
      CountChange(m, b, t);
    }
  }

  /** bam_free undoes bam_alloc, count and all. */
  lemma FreeUndoesAlloc(m: Bam, b: Blk)
    requires Counted(m) && OnDisk(b) && IsFree(m, b)
    ensures Free(Alloc(m, b), b) == m
  {
    CountBounds(m, b);
    AllocIs(m, b);
    FreeIs(m, Alloc(m, b), b);
    UndoBytes(Buf(m, b.t), Place(b), Base(b.t), Buf(m, b.t)[Place(b)] - Two(b.s % 8), Count(m, b.t) - 1);
  }

  /** A track's block of the map replaced. */
  function WithBuf(m: Bam, t: nat, d: seq<u8>): Bam
  {
    if t <= 40 then m.(lo := d) else m.(hi := d)
  }

  lemma AllocIs(m: Bam, b: Blk)
    requires Shaped(m) && OnDisk(b) && IsFree(m, b) && Count(m, b.t) > 0
    ensures Buf(m, b.t)[Place(b)] >= Two(b.s % 8)
    ensures Alloc(m, b) ==
            WithBuf(m, b.t, Buf(m, b.t)[Place(b) := Buf(m, b.t)[Place(b)] - Two(b.s % 8)][Base(b.t) := Count(m, b.t) - 1])
  {
    BitChange(Buf(m, b.t)[Place(b)], b.s % 8, 0);
    PlaceNotCount(b, b.t);
  }

  lemma FreeIs(m: Bam, a: Bam, b: Blk)
    requires Shaped(m) && OnDisk(b) && IsFree(m, b) && 0 < Count(m, b.t) && a == Alloc(m, b)
    requires Buf(m, b.t)[Place(b)] >= Two(b.s % 8)
    requires a == WithBuf(m, b.t, Buf(m, b.t)[Place(b) := Buf(m, b.t)[Place(b)] - Two(b.s % 8)][Base(b.t) := Count(m, b.t) - 1])
    ensures Free(a, b) == WithBuf(a, b.t, Buf(a, b.t)[Place(b) := Buf(m, b.t)[Place(b)]][Base(b.t) := Count(m, b.t)])
  {
    AllocBit(m, b, b);
    PlaceNotCount(b, b.t);
  }

  lemma UndoBytes(s: seq<u8>, p: nat, q: nat, x: u8, y: u8)
    requires p < |s| && q < |s| && p != q
    ensures s[p := x][q := y][p := s[p]][q := s[q]] == s
  {
  }

  // ---- finding a free block ------------------------------------------------------------------------------------

  /** The blocks a file may have: all but the directory track's. */
  function DataBlocks(): (bs: seq<Blk>)
  {
    seq((TRACKS - 1) * SECTORS, i requires 0 <= i < (TRACKS - 1) * SECTORS => DataBlock(i))
  }

  function DataBlock(i: nat): Blk
  {
    Blk(if i < 39 * SECTORS then i / SECTORS + 1 else i / SECTORS + 2, i % SECTORS)
  }

  lemma DataBlockAt(b: Blk)
    requires OnDisk(b)
    ensures b in DataBlocks() <==> b.t != DIR_TRACK
  {
    if b.t != DIR_TRACK {
      var i := (if b.t < DIR_TRACK then b.t - 1 else b.t - 2) * SECTORS + b.s;
      assert DataBlock(i) == b;
      assert DataBlocks()[i] == b;
    }
  }

  lemma DataBlocksOk()
    ensures AllOnDisk(DataBlocks()) && Distinct(DataBlocks())
  {
    forall i, j | 0 <= i < j < |DataBlocks()| ensures DataBlocks()[i] != DataBlocks()[j] {
      DataBlocksApart(i, j);
    }
  }

  lemma DataBlocksApart(i: nat, j: nat)
    requires i < j
    ensures DataBlock(i) != DataBlock(j)
  {
  }

  /** How many blocks a file could still have. */
  ghost function Avail(m: Bam): nat
    requires Shaped(m)
  {
    DataBlocksOk();
    FreeIn(m, DataBlocks())
  }

  /** Taking a block leaves one fewer. */
  lemma AllocAvail(m: Bam, b: Blk)
    requires Shaped(m) && OnDisk(b) && IsFree(m, b)
    ensures Avail(Alloc(m, b)) == Avail(m) - if b.t == DIR_TRACK then 0 else 1
  {
    forall c | OnDisk(c) ensures IsFree(Alloc(m, b), c) <==> IsFree(m, c) && c != b {
      AllocBit(m, b, c);
    }
    DataBlocksOk();
    FreeInChange(m, Alloc(m, b), b, DataBlocks());
    DataBlockAt(b);
  }

  /** Giving one back leaves one more. */
  lemma FreeAvail(m: Bam, b: Blk)
    requires Shaped(m) && OnDisk(b) && !IsFree(m, b)
    ensures Avail(Free(m, b)) == Avail(m) + if b.t == DIR_TRACK then 0 else 1
  {
    forall c | OnDisk(c) ensures IsFree(Free(m, b), c) <==> IsFree(m, c) || c == b {
      FreeBit(m, b, c);
    }
    DataBlocksOk();
    FreeInChange(m, Free(m, b), b, DataBlocks());
    DataBlockAt(b);
  }

  ghost predicate NoneOn(m: Bam, t: nat)
    requires Shaped(m) && 1 <= t <= TRACKS
  {
    forall s :: 0 <= s < SECTORS ==> !IsFree(m, Blk(t, s))
  }

  lemma NoneCounted(m: Bam, t: nat)
    requires Counted(m) && 1 <= t <= TRACKS && Count(m, t) == 0
    ensures NoneOn(m, t)
  {
    assert Count(m, t) as nat == FreeIn(m, Track(t));
    FreeInNone(m, Track(t));
    assert forall s :: 0 <= s < SECTORS ==> Track(t)[s] == Blk(t, s);
  }

  lemma NoneAvail(m: Bam)
    requires Shaped(m)
    ensures Avail(m) == 0 <==> forall t :: 1 <= t <= TRACKS && t != DIR_TRACK ==> NoneOn(m, t)
  {
    DataBlocksOk();
    var d := DataBlocks();
    FreeInNone(m, d);
    if Avail(m) == 0 {
      forall t, s | 1 <= t <= TRACKS && t != DIR_TRACK && 0 <= s < SECTORS ensures !IsFree(m, Blk(t, s)) {
        DataBlockAt(Blk(t, s));
        var i :| 0 <= i < |d| && d[i] == Blk(t, s);
      }
    } else {
      var i :| 0 <= i < |d| && IsFree(m, d[i]);
      assert d[i] in d && d[i] == Blk(d[i].t, d[i].s);
      DataBlockAt(d[i]);
      assert !NoneOn(m, d[i].t);
    }
  }

  /** bam_scan: the first free sector of a track. */
  method Scan(m: Bam, t: nat) returns (s: Option<nat>)
    requires Counted(m) && 1 <= t <= TRACKS
    ensures s.None? <==> NoneOn(m, t)
    ensures s.Some? ==> s.value < SECTORS && IsFree(m, Blk(t, s.value))
                        && forall k :: 0 <= k < s.value ==> !IsFree(m, Blk(t, k))
  {
    if Buf(m, t)[Base(t)] == 0 {
      NoneCounted(m, t);
      return None;
    }
    var k := 0;
    while k < SECTORS
      invariant 0 <= k <= SECTORS && forall j :: 0 <= j < k ==> !IsFree(m, Blk(t, j))
    {
      if BitSet(Buf(m, t)[Base(t) + 1 + k / 8], k % 8) {
        assert IsFree(m, Blk(t, k));
        return Some(k);
      }
      assert !IsFree(m, Blk(t, k));
      k := k + 1;
    }
    s := None;
  }

  /** How soon a block is found: inward from the directory track, then outward on the other side. */
  function Order(b: Blk): int
  {
    if b.t < DIR_TRACK then (DIR_TRACK - 1 - b.t) * SECTORS + b.s else b.t * SECTORS + b.s
  }

  /** The nearest of the free blocks a file may have. */
  ghost predicate FirstFree(m: Bam, b: Blk)
    requires Shaped(m)
  {
    && OnDisk(b) && b.t != DIR_TRACK && IsFree(m, b)
    && forall c :: OnDisk(c) && c.t != DIR_TRACK && IsFree(m, c) ==> Order(b) <= Order(c)
  }

  lemma OneFirst(m: Bam, a: Blk, b: Blk)
    requires Shaped(m) && FirstFree(m, a) && FirstFree(m, b)
    ensures a == b
  {
    assert Order(a) == Order(b);
    assert a.t == b.t by {
      assert Order(a) / SECTORS == if a.t < DIR_TRACK then DIR_TRACK - 1 - a.t else a.t;
      assert Order(b) / SECTORS == if b.t < DIR_TRACK then DIR_TRACK - 1 - b.t else b.t;
    }
  }

  /** bam_find: the nearest free block, never on the directory track. */
  method Find(m: Bam) returns (b: Option<Blk>)
    requires Counted(m)
    ensures b.None? <==> Avail(m) == 0
    ensures b.Some? ==> FirstFree(m, b.value)
  {
    NoneAvail(m);
    var t := DIR_TRACK - 1;
    while t >= 1
      invariant 0 <= t < DIR_TRACK && forall u :: t < u < DIR_TRACK ==> NoneOn(m, u)
    {
      var s := Scan(m, t);
      if s.Some? {
        Nearest(m, Blk(t, s.value));
        return Some(Blk(t, s.value));
      }
      t := t - 1;
    }
    t := DIR_TRACK + 1;
    while t <= TRACKS
      invariant DIR_TRACK < t <= TRACKS + 1
      invariant forall u :: 1 <= u < t && u != DIR_TRACK ==> NoneOn(m, u)
    {
      var s := Scan(m, t);
      if s.Some? {
        Nearest(m, Blk(t, s.value));
        return Some(Blk(t, s.value));
      }
      t := t + 1;
    }
    b := None;
  }

  /** bam_find and bam_alloc. */
  method Take(m: Bam) returns (b: Option<Blk>, r: Bam)
    requires Counted(m)
    ensures b.None? <==> Avail(m) == 0
    ensures b.Some? ==> FirstFree(m, b.value) && r == Alloc(m, b.value)
  {
    b := Find(m);
    r := m;
    if b.Some? {
      r := Alloc(m, b.value);
    }
  }

  lemma Nearest(m: Bam, b: Blk)
    requires Shaped(m) && OnDisk(b) && b.t != DIR_TRACK && IsFree(m, b)
    requires forall k :: 0 <= k < b.s ==> !IsFree(m, Blk(b.t, k))
    requires forall u :: b.t < u < DIR_TRACK ==> NoneOn(m, u)
    requires b.t > DIR_TRACK ==> forall u :: 1 <= u < b.t && u != DIR_TRACK ==> NoneOn(m, u)
    ensures !NoneOn(m, b.t) && FirstFree(m, b)
  {
    forall c | OnDisk(c) && c.t != DIR_TRACK && IsFree(m, c) ensures Order(b) <= Order(c) {
      assert c == Blk(c.t, c.s) && !NoneOn(m, c.t);
    }
    assert b == Blk(b.t, b.s);
  }
}
