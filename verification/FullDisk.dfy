/** A disk that is full but for its bookmarks file of one block, as a disk on which rewriting that file loses it
    (src/m65/marks.c, write_file). */
module FullDisk {
  import opened Words
  import opened Floppy
  import opened Bam
  import opened Files
  import D = CbmDos
  import M = Marks

  const BLOCKS := 3160           // all but the directory track's
  const OTHER: seq<u8> := [0x42, 0x49, 0x47, 0xa0, 0xa0, 0xa0, 0xa0, 0xa0, 0xa0, 0xa0, 0xa0, 0xa0, 0xa0, 0xa0, 0xa0, 0xa0]
  const KIND: u8 := 0x81

  function Nothing(n: nat): seq<u8>
  {
    seq<u8>(n, _ => 0)
  }

  /** Everything taken but the directory track's blocks from the fourth. */
  function FullMap(): (m: Bam)
    ensures Shaped(m)
  {
    Bam(Nothing(250) + [36, 0xf0, 0xff, 0xff, 0xff, 0xff], Nothing(BLOCK))
  }

  lemma Bits(k: nat)
    requires k < 8
    ensures !BitSet(0, k) && BitSet(0xff, k) && (BitSet(0xf0, k) <==> k >= 4)
  {
    assert BitSet(0, 0) == BitSet(0, 1) == BitSet(0, 2) == BitSet(0, 3) == false;
    assert BitSet(0, 4) == BitSet(0, 5) == BitSet(0, 6) == BitSet(0, 7) == false;
    assert BitSet(0xff, 0) && BitSet(0xff, 1) && BitSet(0xff, 2) && BitSet(0xff, 3);
    assert BitSet(0xff, 4) && BitSet(0xff, 5) && BitSet(0xff, 6) && BitSet(0xff, 7);
    assert !BitSet(0xf0, 0) && !BitSet(0xf0, 1) && !BitSet(0xf0, 2) && !BitSet(0xf0, 3);
    assert BitSet(0xf0, 4) && BitSet(0xf0, 5) && BitSet(0xf0, 6) && BitSet(0xf0, 7);
  }

  lemma FreeOnMap(b: Blk)
    requires OnDisk(b)
    ensures IsFree(FullMap(), b) <==> b.t == DIR_TRACK && b.s >= 4
  {
    Bits(b.s % 8);
  }

  lemma {:induction false} DirTrackCount(n: nat)
    requires n <= SECTORS
    ensures FreeIn(FullMap(), Track(DIR_TRACK)[..n]) == if n <= 4 then 0 else n - 4
  {
    if n > 0 {
      DirTrackCount(n - 1);
      var bs := Track(DIR_TRACK)[..n];
      assert bs[..n - 1] == Track(DIR_TRACK)[..n - 1];
      FreeOnMap(bs[n - 1]);
    }
  }

  lemma MapCounted()
    ensures Counted(FullMap()) && Avail(FullMap()) == 0
  {
    forall t | 1 <= t <= TRACKS ensures Count(FullMap(), t) as nat == FreeIn(FullMap(), Track(t)) {
      if t == DIR_TRACK {
        DirTrackCount(SECTORS);
        assert Track(t)[..SECTORS] == Track(t);
      } else {
        forall s | 0 <= s < SECTORS ensures !IsFree(FullMap(), Track(t)[s]) {
          FreeOnMap(Blk(t, s));
        }
        FreeInNone(FullMap(), Track(t));
      }
    }
    forall t | 1 <= t <= TRACKS && t != DIR_TRACK ensures NoneOn(FullMap(), t) {
      forall s | 0 <= s < SECTORS ensures !IsFree(FullMap(), Blk(t, s)) {
        FreeOnMap(Blk(t, s));
      }
    }
    NoneAvail(FullMap());
  }

  /** Which data block a block is. */
  function Index(b: Blk): (i: nat)
    requires OnDisk(b) && b.t != DIR_TRACK
    ensures i < BLOCKS && DataBlock(i) == b
  {
    (if b.t < DIR_TRACK then b.t - 1 else b.t - 2) * SECTORS + b.s
  }

  lemma IndexOf(i: nat)
    requires i < BLOCKS
    ensures OnDisk(DataBlock(i)) && DataBlock(i).t != DIR_TRACK && Index(DataBlock(i)) == i
  {
  }

  // ---- the files -----------------------------------------------------------------------------------------------

  /** The file that fills the disk. */
  function Big(): File
  {
    File(OTHER, KIND, DataBlocks()[..BLOCKS - 1], Nothing(DATA * (BLOCKS - 2)))
  }

  function Bookmarks(text: seq<u8>): File
  {
    File(D.NameOf(M.FILE), KIND, [DataBlock(BLOCKS - 1)], text)
  }

  function DirBlock(): D.Buffer
  {
    D.WithEntry(D.WithEntry(D.EmptyBlock(), 0, KIND, DataBlock(0), OTHER, BLOCKS - 1),
                1, KIND, DataBlock(BLOCKS - 1), D.NameOf(M.FILE), 1)
  }

  function Content(text: seq<u8>, b: Blk): (d: seq<u8>)
    requires |text| <= DATA && OnDisk(b)
    ensures |d| == BLOCK
  {
    if b == BAM1 then FullMap().lo
    else if b == BAM2 then FullMap().hi
    else if b == DIR_FIRST then DirBlock()
    else if b.t == DIR_TRACK then Nothing(BLOCK)
    else if Index(b) < BLOCKS - 2 then
      IndexOf(Index(b) + 1);
      [DataBlock(Index(b) + 1).t, DataBlock(Index(b) + 1).s] + Nothing(DATA)
    else if Index(b) == BLOCKS - 2 then [0, 1] + Nothing(DATA)
    else [0, |text| + 1] + text + Nothing(DATA - |text|)
  }

  ghost function Disk(text: seq<u8>): Image
    requires |text| <= DATA
  {
    imap b | OnDisk(b) :: Content(text, b)
  }

  function Slots(text: seq<u8>): (s: seq<Option<File>>)
    ensures |s| == 8
  {
    EIGHT[0 := Some(Big())][1 := Some(Bookmarks(text))]
  }

  /** A directory of one block, and no files. */
  function NoFiles(): Fs
  {
    Fs([DIR_FIRST], EIGHT, map[HEADER := System, BAM1 := System, BAM2 := System, DIR_FIRST := Directory])
  }

  function Holding(text: seq<u8>): Fs
  {
    WithFile(WithFile(NoFiles(), 0, Big()), 1, Bookmarks(text))
  }

  lemma BigOn(text: seq<u8>)
    requires |text| <= DATA
    ensures FileOn(Disk(text), Big())
  {
    var f, img := Big(), Disk(text);
    DataBlocksOk();
    forall i | 0 <= i < |f.chain| ensures OnDisk(f.chain[i]) && f.chain[i].t != DIR_TRACK && Holds(img, f, i) {
      BigBlock(text, i);
    }
  }

  lemma BigBlock(text: seq<u8>, i: nat)
    requires |text| <= DATA && i < BLOCKS - 1
    ensures var f := Big();
      f.chain[i] == DataBlock(i) && OnDisk(f.chain[i]) && f.chain[i].t != DIR_TRACK && Holds(Disk(text), f, i)
  {
    var f, img := Big(), Disk(text);
    IndexOf(i);
    assert f.chain[i] == DataBlocks()[i] == DataBlock(i);
    var d := img[f.chain[i]];
    assert d == Content(text, DataBlock(i));
    if i < BLOCKS - 2 {
      IndexOf(i + 1);
      assert f.chain[i + 1] == DataBlock(i + 1);
      assert d[2..] == Nothing(DATA) == f.data[DATA * i..DATA * (i + 1)];
    } else {
      assert f.data[DATA * i..] == [];
      assert d[2..2] == [];
    }
  }

  lemma BookmarksOn(text: seq<u8>)
    requires |text| <= DATA
    ensures FileOn(Disk(text), Bookmarks(text))
  {
    var f, img := Bookmarks(text), Disk(text);
    IndexOf(BLOCKS - 1);
    var d := img[f.chain[0]];
    assert d == Content(text, DataBlock(BLOCKS - 1));
    assert d[2..2 + |text|] == text == text[0..];
    assert Holds(img, f, 0);
  }

  lemma DirEntries(text: seq<u8>)
    ensures EntriesAre(DirBlock(), Slots(text)) && DirBlock()[0] == 0
  {
    var d1 := D.WithEntry(D.EmptyBlock(), 0, KIND, DataBlock(0), OTHER, BLOCKS - 1);
    IndexOf(0);
    IndexOf(BLOCKS - 1);
    assert Big().chain[0] == DataBlocks()[0] == DataBlock(0);
    assert EntriesAre(D.EmptyBlock(), EIGHT);
    D.EntryMade(D.EmptyBlock(), 0, Big());
    EntriesSet(D.EmptyBlock(), d1, EIGHT, 0, Some(Big()));
    D.EntryMade(d1, 1, Bookmarks(text));
    EntriesSet(d1, DirBlock(), EIGHT[0 := Some(Big())], 1, Some(Bookmarks(text)));
    assert d1[0] == d1[..2][0] && DirBlock()[0] == DirBlock()[..2][0];
  }

  /** The data blocks are the big file's, and one. */
  lemma InBig(b: Blk)
    ensures b in Big().chain <==> OnDisk(b) && b.t != DIR_TRACK && Index(b) < BLOCKS - 1
  {
    var c := Big().chain;
    if b in c {
      var i :| 0 <= i < |c| && c[i] == b;
      assert c[i] == DataBlocks()[i] == DataBlock(i);
      IndexOf(i);
    }
    if OnDisk(b) && b.t != DIR_TRACK && Index(b) < BLOCKS - 1 {
      assert c[Index(b)] == DataBlocks()[Index(b)] == b;
    }
  }

  lemma NoneOwned()
    ensures Owned(NoFiles())
  {
  }

  lemma BigOwned()
    ensures Owned(WithFile(NoFiles(), 0, Big()))
  {
    forall b | b in Big().chain ensures b !in NoFiles().owner && OnDisk(b) {
      InBig(b);
    }
    NoneOwned();
    OwnedAdd(NoFiles(), 0, Big());
  }

  lemma AllOwned(text: seq<u8>)
    ensures Owned(Holding(text))
  {
    BigOwned();
    IndexOf(BLOCKS - 1);
    InBig(DataBlock(BLOCKS - 1));
    OwnedAdd(WithFile(NoFiles(), 0, Big()), 1, Bookmarks(text));
  }

  lemma TakenBlocks(text: seq<u8>, b: Blk)
    requires OnDisk(b)
    ensures b in Holding(text).owner <==> b.t != DIR_TRACK || b.s < 4
  {
    InBig(b);
    IndexOf(BLOCKS - 1);
    assert b.t == DIR_TRACK && b.s < 4 ==> b == HEADER || b == BAM1 || b == BAM2 || b == DIR_FIRST;
    assert b.t != DIR_TRACK && Index(b) == BLOCKS - 1 ==> b == DataBlock(BLOCKS - 1);
  }

  lemma MapIs(text: seq<u8>)
    ensures Maps(FullMap(), Holding(text).owner, [])
  {
    MapCounted();
    forall b | OnDisk(b) ensures IsFree(FullMap(), b) <==> b !in Holding(text).owner {
      FreeOnMap(b);
      TakenBlocks(text, b);
    }
  }

  lemma DiskLaid(text: seq<u8>)
    requires |text| <= DATA
    ensures var img := Disk(text); Whole(img) && DirOn(img, [DIR_FIRST]) && SlotsOn(img, [DIR_FIRST], Slots(text))
  {
    var img := Disk(text);
    BigOn(text);
    BookmarksOn(text);
    DirEntries(text);
    assert img[DIR_FIRST] == DirBlock();
    assert Slots(text)[0..8] == Slots(text);
  }

  lemma NamesApart(text: seq<u8>)
    ensures Unique(Slots(text))
  {
    OtherName();
  }

  /** The disk is well-formed. */
  lemma DiskWellFormed(text: seq<u8>)
    requires |text| <= DATA
    ensures WellFormed(Disk(text), Holding(text)) && BamOf(Disk(text)) == FullMap()
  {
    DiskLaid(text);
    NamesApart(text);
    AllOwned(text);
    MapIs(text);
    assert BamOf(Disk(text)) == FullMap();
    assert Holding(text).slots == Slots(text) && Holding(text).dir == [DIR_FIRST];
  }

  lemma OtherName()
    ensures OTHER != D.NameOf(M.FILE)
  {
    assert OTHER[0] != D.NameOf(M.FILE)[0];
  }

  /** It holds the bookmarks; and it has room for others only while they fit that one block.  With a longer text,
      Marks.Bookmarks.WriteOut fails, and leaves no bookmarks at all. */
  lemma Full(text: seq<u8>, n: nat)
    requires |text| <= DATA
    ensures WellFormed(Disk(text), Holding(text)) && M.OnFile(Holding(text), text)
    ensures M.Room(Disk(text), Holding(text), n) <==> n < DATA
  {
    var img, fs := Disk(text), Holding(text);
    DiskWellFormed(text);
    MapCounted();
    Open(img, fs, Idle);
    assert M.FileIs(fs, 1, text);
    assert M.HasFile(fs, 1);
    M.RoomWith(img, fs, 1, n);
  }
}
