/** 256-byte blocks as halves of 512-byte sectors (src/platform/m65_f011.c). */
module Floppy {
  import opened Words

  const TRACKS := 80
  const SECTORS := 40           // blocks of a track
  const BLOCK := 256

  /** A block's address, as a link names it: track, then sector. */
  datatype Blk = Blk(t: nat, s: nat)

  predicate OnDisk(b: Blk)
  {
    1 <= b.t <= TRACKS && b.s < SECTORS
  }

  /** What a disk holds, block by block. */
  type Image = imap<Blk, seq<u8>>

  /** Which side of the track holds a block: an image and a real disk disagree. */
  function SideFor(isImage: bool, side: nat): nat
    requires side < 2
  {
    if isImage then side else 1 - side
  }

  /** The physical sector of a block: track, side, and one of ten. */
  function SectorOf(isImage: bool, b: Blk): (i: nat)
    requires OnDisk(b)
    ensures i < TRACKS * 20
  {
    (b.t - 1) * 20 + SideFor(isImage, b.s / 20) * 10 + b.s % 20 / 2
  }

  /** Two blocks share a sector only as its two halves. */
  lemma SectorApart(isImage: bool, a: Blk, b: Blk)
    requires OnDisk(a) && OnDisk(b) && a != b
    ensures SectorOf(isImage, a) == SectorOf(isImage, b) ==> a.s % 2 != b.s % 2
  {
    if SectorOf(isImage, a) == SectorOf(isImage, b) {
      Digits(a.t - 1, SideFor(isImage, a.s / 20), a.s % 20 / 2, b.t - 1, SideFor(isImage, b.s / 20), b.s % 20 / 2);
      PlaceInTrack(a.s);
      PlaceInTrack(b.s);
    }
  }

  lemma Digits(t: nat, d: nat, h: nat, t': nat, d': nat, h': nat)
    requires d < 2 && d' < 2 && h < 10 && h' < 10 && t * 20 + d * 10 + h == t' * 20 + d' * 10 + h'
    ensures t == t' && d == d' && h == h'
  {
  }

  lemma PlaceInTrack(s: nat)
    ensures s == s / 20 * 20 + s % 20 / 2 * 2 + s % 2
  {
    assert s % 20 % 2 == s % 2;
  }

  function Half(sector: seq<u8>, half: nat): (d: seq<u8>)
    requires |sector| == 2 * BLOCK && half < 2
    ensures |d| == BLOCK
  {
    sector[half * BLOCK..(half + 1) * BLOCK]
  }

  /** A sector with b's half replaced holds every other block as it was. */
  lemma OtherHalf(isImage: bool, sectors: seq<seq<u8>>, sector: seq<u8>, c: Blk, b: Blk)
    requires |sectors| == TRACKS * 20 && (forall i :: 0 <= i < |sectors| ==> |sectors[i]| == 2 * BLOCK)
    requires OnDisk(b) && OnDisk(c) && c != b && |sector| == 2 * BLOCK
    requires Half(sector, 1 - b.s % 2) == Half(sectors[SectorOf(isImage, b)], 1 - b.s % 2)
    ensures Half(sectors[SectorOf(isImage, b) := sector][SectorOf(isImage, c)], c.s % 2)
            == Half(sectors[SectorOf(isImage, c)], c.s % 2)
  {
    SectorApart(isImage, c, b);
  }

  // ---- the sectors end to end ----------------------------------------------------------------------------------

  /** Where a block begins in the disk's sectors laid end to end, sides within tracks: on an image the blocks are in
      order, forty to a track; on a real disk the two sides of every track, twenty blocks each, are exchanged. */
  function PlaceOf(isImage: bool, b: Blk): (p: nat)
    requires OnDisk(b)
    ensures p + BLOCK <= TRACKS * SECTORS * BLOCK
  {
    BLOCK * (SECTORS * (b.t - 1) + if isImage then b.s else (b.s + 20) % 40)
  }

  ghost predicate Formatted(sectors: seq<seq<u8>>)
  {
    |sectors| == TRACKS * 20 && forall i :: 0 <= i < |sectors| ==> |sectors[i]| == 2 * BLOCK
  }

  lemma {:induction false} FlatSector(sectors: seq<seq<u8>>, i: nat)
    requires (forall j :: 0 <= j < |sectors| ==> |sectors[j]| == 2 * BLOCK) && i < |sectors|
    ensures |Flatten(sectors)| == 2 * BLOCK * |sectors|
    ensures Flatten(sectors)[2 * BLOCK * i..2 * BLOCK * (i + 1)] == sectors[i]
    decreases |sectors|
  {
    var n := |sectors| - 1;
    if n > 0 {
      FlatSector(sectors[..n], if i < n then i else 0);
    }
  }

  /** So a block of a sector is there. */
  lemma BlockPlaced(isImage: bool, sectors: seq<seq<u8>>, b: Blk)
    requires Formatted(sectors) && OnDisk(b)
    ensures |Flatten(sectors)| == TRACKS * SECTORS * BLOCK
    ensures var p := PlaceOf(isImage, b);
            Half(sectors[SectorOf(isImage, b)], b.s % 2) == Flatten(sectors)[p..p + BLOCK]
  {
    var i, h := SectorOf(isImage, b), b.s % 2;
    FlatSector(sectors, i);
    PlaceInTrack(b.s);
    SidePlace(isImage, b.s);
    assert PlaceOf(isImage, b) == 2 * BLOCK * i + BLOCK * h;
    HalfOf(Flatten(sectors), sectors[i], 2 * BLOCK * i, h);
  }

  lemma SidePlace(isImage: bool, s: nat)
    requires s < SECTORS
    ensures (if isImage then s else (s + 20) % 40) == SideFor(isImage, s / 20) * 20 + s % 20
  {
  }

  lemma HalfOf(flat: seq<u8>, sector: seq<u8>, at: nat, h: nat)
    requires at + 2 * BLOCK <= |flat| && sector == flat[at..at + 2 * BLOCK] && h < 2
    ensures Half(sector, h) == flat[at + BLOCK * h..at + BLOCK * h + BLOCK]
  {
  }

  /** One sector replaced. */
  lemma {:induction false} FlatReplaced(sectors: seq<seq<u8>>, i: nat, sector: seq<u8>)
    requires (forall j :: 0 <= j < |sectors| ==> |sectors[j]| == 2 * BLOCK) && i < |sectors| && |sector| == 2 * BLOCK
    ensures |Flatten(sectors)| == 2 * BLOCK * |sectors|
    ensures Flatten(sectors[i := sector])
            == Flatten(sectors)[..2 * BLOCK * i] + sector + Flatten(sectors)[2 * BLOCK * (i + 1)..]
    decreases |sectors|
  {
    var n := |sectors| - 1;
    var init := sectors[..n];
    FlatSector(sectors, i);
    if i == n {
      assert sectors[i := sector][..n] == init;
      assert Flatten(sectors)[..2 * BLOCK * i] == Flatten(init);
    } else {
      FlatReplaced(init, i, sector);
      assert sectors[i := sector][..n] == init[i := sector];
    }
  }

  /** And one block: nothing else on the disk changes. */
  lemma BlockReplaced(isImage: bool, sectors: seq<seq<u8>>, b: Blk, sector: seq<u8>)
    requires Formatted(sectors) && OnDisk(b) && |sector| == 2 * BLOCK
    requires Half(sector, 1 - b.s % 2) == Half(sectors[SectorOf(isImage, b)], 1 - b.s % 2)
    ensures |Flatten(sectors)| == TRACKS * SECTORS * BLOCK
    ensures var p, flat := PlaceOf(isImage, b), Flatten(sectors);
            Flatten(sectors[SectorOf(isImage, b) := sector]) == flat[..p] + Half(sector, b.s % 2) + flat[p + BLOCK..]
  {
    var i, h := SectorOf(isImage, b), b.s % 2;
    FlatSector(sectors, i);
    FlatReplaced(sectors, i, sector);
    PlaceInTrack(b.s);
    SidePlace(isImage, b.s);
    assert PlaceOf(isImage, b) == 2 * BLOCK * i + BLOCK * h;
    HalfReplaced(Flatten(sectors), sectors[i], sector, 2 * BLOCK * i, h);
  }

  lemma HalfReplaced(flat: seq<u8>, was: seq<u8>, sector: seq<u8>, at: nat, h: nat)
    requires at + 2 * BLOCK <= |flat| && was == flat[at..at + 2 * BLOCK] && h < 2 && |sector| == 2 * BLOCK
    requires Half(sector, 1 - h) == Half(was, 1 - h)
    ensures flat[..at] + sector + flat[at + 2 * BLOCK..]
            == flat[..at + BLOCK * h] + Half(sector, h) + flat[at + BLOCK * h + BLOCK..]
  {
    assert sector == Half(sector, 0) + Half(sector, 1);
    assert was == Half(was, 0) + Half(was, 1);
    HalfOf(flat, was, at, 1 - h);
  }

  class Floppy {
    const isImage: bool
    const sectors: array<seq<u8>>
    const buf: array<u8>           // the sector buffer

    ghost predicate Valid()
      reads this, sectors
    {
      sectors.Length == TRACKS * 20 && buf.Length == 2 * BLOCK
      && forall i :: 0 <= i < sectors.Length ==> |sectors[i]| == 2 * BLOCK
    }

    /** What the disk holds, block by block. */
    ghost function BlockAt(b: Blk): (d: seq<u8>)
      requires Valid() && OnDisk(b)
      reads this, sectors
      ensures |d| == BLOCK
    {
      Half(sectors[SectorOf(isImage, b)], b.s % 2)
    }

    /** What the disk holds, n steps of unfolding away: its users need not see sectors. */
    ghost function HeldAt(n: nat): (h: Image)
      requires Valid()
      reads this, sectors
      ensures forall b :: OnDisk(b) ==> b in h && |h[b]| == BLOCK
      decreases n
    {
      if n > 0 then HeldAt(n - 1) else imap b | OnDisk(b) :: BlockAt(b)
    }

    ghost function Held(): (h: Image)
      requires Valid()
      reads this, sectors
      ensures forall b :: OnDisk(b) ==> b in h && |h[b]| == BLOCK
    {
      HeldAt(sectors.Length)
    }

    lemma {:induction false} HeldIs(n: nat)
      requires Valid()
      ensures HeldAt(n) == imap b | OnDisk(b) :: BlockAt(b)
      decreases n
    {
      if n > 0 {
        HeldIs(n - 1);
      }
    }

    constructor (isImage: bool, sectors: array<seq<u8>>)
      requires sectors.Length == TRACKS * 20 && forall i :: 0 <= i < sectors.Length ==> |sectors[i]| == 2 * BLOCK
      ensures Valid() && this.sectors == sectors && this.isImage == isImage && fresh(buf)
    {
      this.isImage, this.sectors := isImage, sectors;
      buf := new u8[2 * BLOCK];
    }

    /** f011_read_sector, into the buffer. */
    method ReadSector(i: nat)
      requires Valid() && i < sectors.Length
      modifies buf
      ensures buf[..] == sectors[i]
    {
      var k := 0;
      var sector := sectors[i];
      while k < 2 * BLOCK
        invariant 0 <= k <= 2 * BLOCK && buf[..k] == sector[..k]
      {
        buf[k] := sector[k];
        k := k + 1;
      }
    }

    /** f011_read_block; only a block on the disk is found. */
    method ReadBlock(t: u8, s: u8) returns (ok: bool, data: seq<u8>)
      requires Valid()
      modifies buf
      ensures ok <==> OnDisk(Blk(t, s))
      ensures ok ==> data == Held()[Blk(t, s)] && |data| == BLOCK
      ensures ok ==> var p, flat := PlaceOf(isImage, Blk(t, s)), Flatten(sectors[..]);
                     |flat| == TRACKS * SECTORS * BLOCK && data == flat[p..p + BLOCK]
    {
      if t == 0 || t > TRACKS || s >= SECTORS {
        return false, [];
      }
      ReadSector(SectorOf(isImage, Blk(t, s)));
      HeldIs(sectors.Length);
      BlockPlaced(isImage, sectors[..], Blk(t, s));
      var off := s % 2 * BLOCK;
      ok, data := true, buf[off..off + BLOCK];
    }

    /** f011_write_block: the sector is read, half of it replaced, and written back. */
    method WriteBlock(t: u8, s: u8, src: seq<u8>) returns (ok: bool)
      requires Valid() && |src| == BLOCK
      modifies buf, sectors
      ensures Valid() && (ok <==> OnDisk(Blk(t, s)))
      ensures Held() == if ok then old(Held())[Blk(t, s) := src] else old(Held())
      ensures !ok ==> sectors[..] == old(sectors[..])
      ensures ok ==> var p, was := PlaceOf(isImage, Blk(t, s)), Flatten(old(sectors[..]));
                     |was| == TRACKS * SECTORS * BLOCK && Flatten(sectors[..]) == was[..p] + src + was[p + BLOCK..]
    {
      if t == 0 || t > TRACKS || s >= SECTORS {
        return false;
      }
      ghost var held := Held();
      HeldIs(sectors.Length);
      PutHalf(Blk(t, s), src);
      HeldIs(sectors.Length);
      assert Held() == held[Blk(t, s) := src];
      ok := true;
    }

    method PutHalf(b: Blk, src: seq<u8>)
      requires Valid() && |src| == BLOCK && OnDisk(b)
      modifies buf, sectors
      ensures Valid() && BlockAt(b) == src
      ensures forall c :: OnDisk(c) && c != b ==> BlockAt(c) == old(BlockAt(c))
      ensures var p, was := PlaceOf(isImage, b), Flatten(old(sectors[..]));
              |was| == TRACKS * SECTORS * BLOCK && Flatten(sectors[..]) == was[..p] + src + was[p + BLOCK..]
    {
      var i := SectorOf(isImage, b);
      ReadSector(i);
      ghost var was := sectors[..];
      Overlay(b.s % 2, src);
      sectors[i] := buf[..];
      BlockReplaced(isImage, was, b, buf[..]);
      assert sectors[..] == was[i := buf[..]];
      forall c | OnDisk(c) && c != b ensures BlockAt(c) == old(BlockAt(c)) {
        OtherHalf(isImage, was, buf[..], c, b);
      }
    }

    method Overlay(half: nat, src: seq<u8>)
      requires buf.Length == 2 * BLOCK && half < 2 && |src| == BLOCK
      modifies buf
      ensures Half(buf[..], half) == src && Half(buf[..], 1 - half) == old(Half(buf[..], 1 - half))
    {
      var k := 0;
      var off := half * BLOCK;
      ghost var was := buf[..];
      while k < BLOCK
        invariant 0 <= k <= BLOCK
        invariant forall j :: 0 <= j < 2 * BLOCK ==> buf[j] == if off <= j < off + k then src[j - off] else was[j]
      {
        buf[off + k] := src[k];
        k := k + 1;
      }
    }
  }
}
