/** Files, directory and free map on a 1581 disk: what a well-formed disk is, and what each change to it keeps
    (src/platform/m65_cbmdos.c). */
module Files {
  import opened Words
  import opened Floppy
  import opened Bam

  const DATA := 254               // bytes of a file in a block, after the link
  const NAME := 16
  const PAD: u8 := 0xa0

  const HEADER := Blk(40, 0)
  const BAM1 := Blk(40, 1)
  const BAM2 := Blk(40, 2)
  const DIR_FIRST := Blk(40, 3)

  datatype File = File(name: seq<u8>, kind: u8, chain: seq<Blk>, data: seq<u8>)

  datatype Owner = System | Directory | FileAt(slot: nat)

  /** The directory's blocks, its slots in order, and whose each allocated block is. */
  datatype Fs = Fs(dir: seq<Blk>, slots: seq<Option<File>>, owner: map<Blk, Owner>)

  ghost predicate Whole(img: Image)
  {
    forall b :: OnDisk(b) ==> b in img && |img[b]| == BLOCK
  }

  /** A block's first two bytes: the next block, or track 0. */
  ghost predicate LinksTo(d: seq<u8>, b: Blk)
    requires |d| == BLOCK
  {
    d[0] == b.t && d[1] == b.s
  }

  /** Block i of a file: a link and 254 bytes, or in the last block the place of its last byte. */
  ghost predicate BlockOf(d: seq<u8>, f: File, i: nat)
    requires |d| == BLOCK && i < |f.chain|
  {
    if i + 1 < |f.chain| then
      LinksTo(d, f.chain[i + 1]) && DATA * (i + 1) <= |f.data| && d[2..] == f.data[DATA * i..DATA * (i + 1)]
    else
      && DATA * i <= |f.data| <= DATA * (i + 1)
      && d[0] == 0 && d[1] as int == |f.data| - DATA * i + 1 && d[2..2 + |f.data| - DATA * i] == f.data[DATA * i..]
  }

  ghost predicate FileOn(img: Image, f: File)
    requires Whole(img)
  {
    && |f.chain| >= 1 && Distinct(f.chain) && |f.name| == NAME && f.kind != 0
    && (forall i :: 0 <= i < |f.chain| ==> OnDisk(f.chain[i]) && f.chain[i].t != DIR_TRACK)
    && (forall i :: 0 <= i < |f.chain| ==> Holds(img, f, i))
  }

  ghost predicate Holds(img: Image, f: File, i: nat)
    requires Whole(img) && i < |f.chain|
  {
    OnDisk(f.chain[i]) && BlockOf(img[f.chain[i]], f, i)
  }

  /** A slot's 32 bytes: empty, or a file's type, first block, name and length in blocks. */
  ghost predicate EntryIs(d: seq<u8>, e: nat, slot: Option<File>)
    requires |d| == BLOCK && e < 8
  {
    match slot
    case None => d[e * 32 + 2] == 0
    case Some(f) =>
      && |f.chain| >= 1 && |f.name| == NAME && f.kind != 0
      && d[e * 32 + 2] == f.kind && d[e * 32 + 3] == f.chain[0].t && d[e * 32 + 4] == f.chain[0].s
      && d[e * 32 + 5..e * 32 + 21] == f.name
      && d[e * 32 + 30] as int + 256 * d[e * 32 + 31] as int == |f.chain|
  }

  ghost predicate EntriesAre(d: seq<u8>, eight: seq<Option<File>>)
    requires |d| == BLOCK && |eight| == 8
  {
    forall e :: 0 <= e < 8 ==> EntryIs(d, e, eight[e])
  }

  ghost predicate DirOn(img: Image, dir: seq<Blk>)
    requires Whole(img)
  {
    && |dir| >= 1 && dir[0] == DIR_FIRST && Distinct(dir)
    && (forall i :: 0 <= i < |dir| ==> OnDisk(dir[i]) && dir[i].t == DIR_TRACK)
    && (forall i :: 0 <= i < |dir| - 1 ==> Linked(img, dir, i))
    && img[dir[|dir| - 1]][0] == 0
  }

  ghost predicate Linked(img: Image, chain: seq<Blk>, i: nat)
    requires Whole(img) && i + 1 < |chain|
  {
    OnDisk(chain[i]) && LinksTo(img[chain[i]], chain[i + 1])
  }

  ghost predicate SlotsOn(img: Image, dir: seq<Blk>, slots: seq<Option<File>>)
    requires Whole(img) && DirOn(img, dir)
  {
    && |slots| == 8 * |dir|
    && (forall i :: 0 <= i < |dir| ==> EntriesAre(img[dir[i]], slots[8 * i..8 * i + 8]))
    && (forall k :: 0 <= k < |slots| && slots[k].Some? ==> FileOn(img, slots[k].value))
  }

  ghost predicate Unique(slots: seq<Option<File>>)
  {
    forall j, k :: 0 <= j < k < |slots| && slots[j].Some? && slots[k].Some? ==> slots[j].value.name != slots[k].value.name
  }

  /** The owner of each allocated block, and no other block has one: no block is in two chains. */
  ghost predicate Owned(fs: Fs)
  {
    && HEADER in fs.owner && fs.owner[HEADER] == System
    && BAM1 in fs.owner && fs.owner[BAM1] == System
    && BAM2 in fs.owner && fs.owner[BAM2] == System
    && (forall b :: b in fs.dir ==> b in fs.owner && fs.owner[b] == Directory)
    && (forall k, b :: 0 <= k < |fs.slots| && fs.slots[k].Some? && b in fs.slots[k].value.chain ==>
          b in fs.owner && fs.owner[b] == FileAt(k))
    && (forall b :: b in fs.owner ==> OwnerHas(fs, b))
  }

  ghost predicate OwnerHas(fs: Fs, b: Blk)
    requires b in fs.owner
  {
    OnDisk(b) &&
    match fs.owner[b]
    case System => b == HEADER || b == BAM1 || b == BAM2
    case Directory => b in fs.dir
    case FileAt(k) => k < |fs.slots| && fs.slots[k].Some? && b in fs.slots[k].value.chain
  }

  /** Everything but the free map. */
  ghost predicate Laid(img: Image, fs: Fs)
  {
    && Whole(img) && DirOn(img, fs.dir) && SlotsOn(img, fs.dir, fs.slots) && Unique(fs.slots) && Owned(fs)
  }

  /** A free map says free exactly of the blocks that have no owner and are not pending. */
  ghost predicate Maps(m: Bam, owner: map<Blk, Owner>, pending: seq<Blk>)
  {
    Counted(m) && forall b :: OnDisk(b) ==> (IsFree(m, b) <==> b !in owner && b !in pending)
  }

  function BamOf(img: Image): Bam
    requires BAM1 in img && BAM2 in img
  {
    Bam(img[BAM1], img[BAM2])
  }

  /** A well-formed disk. */
  ghost predicate WellFormed(img: Image, fs: Fs)
  {
    Laid(img, fs) && Maps(BamOf(img), fs.owner, [])
  }

  const EIGHT: seq<Option<File>> := [None, None, None, None, None, None, None, None]

  // ---- what changes keep ---------------------------------------------------------------------------------------

  lemma FileFrame(img: Image, f: File, b: Blk, d: seq<u8>)
    requires Whole(img) && FileOn(img, f) && OnDisk(b) && b !in f.chain && |d| == BLOCK
    ensures FileOn(img[b := d], f)
  {
    var out := img[b := d];
    forall i | 0 <= i < |f.chain| ensures Holds(out, f, i) {
      assert f.chain[i] in f.chain && Holds(img, f, i);
    }
  }

  lemma DirFrame(img: Image, dir: seq<Blk>, b: Blk, d: seq<u8>)
    requires Whole(img) && DirOn(img, dir) && OnDisk(b) && b !in dir && |d| == BLOCK
    ensures DirOn(img[b := d], dir)
    ensures forall i :: 0 <= i < |dir| ==> img[b := d][dir[i]] == img[dir[i]]
  {
    assert forall i :: 0 <= i < |dir| ==> dir[i] in dir && dir[i] != b;
    var out := img[b := d];
    forall i | 0 <= i < |dir| - 1 ensures Linked(out, dir, i) {
      assert Linked(img, dir, i);
    }
  }

  /** Writing a block outside every file and the directory, such as one that nobody owns or one of the free map's,
      changes neither. */
  lemma WriteOutside(img: Image, fs: Fs, b: Blk, d: seq<u8>)
    requires Laid(img, fs) && OnDisk(b) && |d| == BLOCK
    requires b !in fs.owner || fs.owner[b] == System
    ensures Laid(img[b := d], fs)
  {
    DirFrame(img, fs.dir, b, d);
    forall k | 0 <= k < |fs.slots| && fs.slots[k].Some? ensures FileOn(img[b := d], fs.slots[k].value) {
      FileFrame(img, fs.slots[k].value, b, d);
    }
  }

  // ---- directory entries ---------------------------------------------------------------------------------------

  /** A directory block with one entry changed. */
  ghost predicate EntrySet(d: seq<u8>, r: seq<u8>, e: nat, slot: Option<File>)
    requires |d| == BLOCK && |r| == BLOCK && e < 8
  {
    && r[..2] == d[..2] && EntryIs(r, e, slot)
    && forall i :: 2 <= i < BLOCK && i / 32 != e ==> r[i] == d[i]
  }

  lemma EntryKept(d: seq<u8>, r: seq<u8>, e: nat, slot: Option<File>)
    requires |d| == BLOCK && |r| == BLOCK && e < 8 && EntryIs(d, e, slot)
    requires forall i :: 2 <= i < BLOCK && i / 32 == e ==> r[i] == d[i]
    ensures EntryIs(r, e, slot)
  {
    assert forall i :: e * 32 <= i < e * 32 + 32 ==> i / 32 == e;
    assert r[e * 32 + 5..e * 32 + 21] == d[e * 32 + 5..e * 32 + 21];
  }

  lemma EntriesSet(d: seq<u8>, r: seq<u8>, eight: seq<Option<File>>, e: nat, slot: Option<File>)
    requires |d| == BLOCK && |r| == BLOCK && |eight| == 8 && e < 8 && EntriesAre(d, eight) && EntrySet(d, r, e, slot)
    ensures EntriesAre(r, eight[e := slot])
  {
    var now := eight[e := slot];
    forall j | 0 <= j < 8 ensures EntryIs(r, j, now[j]) {
      if j != e {
        EntryKept(d, r, j, eight[j]);
      }
    }
  }

  lemma EightSet(slots: seq<Option<File>>, k: nat, slot: Option<File>, i: nat)
    requires k < |slots| && 8 * i + 8 <= |slots|
    ensures slots[k := slot][8 * i..8 * i + 8] ==
            if i == k / 8 then slots[8 * i..8 * i + 8][k % 8 := slot] else slots[8 * i..8 * i + 8]
  {
  }

  /** The directory with one entry changed holds the changed slots. */
  lemma SlotsSet(img: Image, fs: Fs, k: nat, slot: Option<File>, r: seq<u8>)
    requires Laid(img, fs) && k < |fs.slots| && |r| == BLOCK
    requires EntrySet(img[fs.dir[k / 8]], r, k % 8, slot)
    requires slot.Some? ==> FileOn(img, slot.value)
    ensures var out := img[fs.dir[k / 8] := r];
            Whole(out) && DirOn(out, fs.dir) && SlotsOn(out, fs.dir, fs.slots[k := slot])
  {
    var out, slots := img[fs.dir[k / 8] := r], fs.slots[k := slot];
    DirSet(img, fs.dir, k / 8, r);
    forall i | 0 <= i < |fs.dir| ensures EntriesAre(out[fs.dir[i]], slots[8 * i..8 * i + 8]) {
      EntriesOfBlock(img, fs, k, slot, r, i);
    }
    forall j | 0 <= j < |slots| && slots[j].Some? ensures FileOn(out, slots[j].value) {
      assert fs.dir[k / 8] in fs.dir;
      NotInFile(img, slots[j].value, fs.dir[k / 8]);
      FileFrame(img, slots[j].value, fs.dir[k / 8], r);
    }
  }

  lemma DirSet(img: Image, dir: seq<Blk>, i: nat, r: seq<u8>)
    requires Whole(img) && DirOn(img, dir) && i < |dir| && |r| == BLOCK && r[..2] == img[dir[i]][..2]
    ensures Whole(img[dir[i] := r]) && DirOn(img[dir[i] := r], dir)
  {
    assert r[0] == r[..2][0] && r[1] == r[..2][1];
    var out := img[dir[i] := r];
    forall j | 0 <= j < |dir| - 1 ensures Linked(out, dir, j) {
      assert Linked(img, dir, j);
    }
  }

  lemma EntriesOfBlock(img: Image, fs: Fs, k: nat, slot: Option<File>, r: seq<u8>, i: nat)
    requires Whole(img) && DirOn(img, fs.dir) && SlotsOn(img, fs.dir, fs.slots) && k < |fs.slots| && i < |fs.dir|
    requires |r| == BLOCK && EntrySet(img[fs.dir[k / 8]], r, k % 8, slot)
    ensures EntriesAre(img[fs.dir[k / 8] := r][fs.dir[i]], fs.slots[k := slot][8 * i..8 * i + 8])
  {
    EightSet(fs.slots, k, slot, i);
    if i == k / 8 {
      EntriesSet(img[fs.dir[i]], r, fs.slots[8 * i..8 * i + 8], k % 8, slot);
    } else {
      assert fs.dir[i] != fs.dir[k / 8];
    }
  }

  /** A directory block is in no file. */
  lemma NotInFile(img: Image, f: File, b: Blk)
    requires Whole(img) && FileOn(img, f) && b.t == DIR_TRACK
    ensures b !in f.chain
  {
  }

  function Owning(chain: seq<Blk>, k: nat): map<Blk, Owner>
  {
    map b | b in chain :: FileAt(k)
  }

  function WithFile(fs: Fs, k: nat, f: File): Fs
    requires k < |fs.slots|
  {
    fs.(slots := fs.slots[k := Some(f)], owner := fs.owner + Owning(f.chain, k))
  }

  ghost predicate NewName(slots: seq<Option<File>>, name: seq<u8>)
  {
    forall j :: 0 <= j < |slots| && slots[j].Some? ==> slots[j].value.name != name
  }

  lemma OwnedAdd(fs: Fs, k: nat, f: File)
    requires Owned(fs) && k < |fs.slots| && fs.slots[k].None? && forall b :: b in f.chain ==> b !in fs.owner && OnDisk(b)
    ensures Owned(WithFile(fs, k, f))
  {
    var out := WithFile(fs, k, f);
    forall j, b | 0 <= j < |out.slots| && out.slots[j].Some? && b in out.slots[j].value.chain
      ensures b in out.owner && out.owner[b] == FileAt(j)
    {
      if j != k {
        assert b in fs.slots[j].value.chain;
        assert fs.owner[b] == FileAt(j) && b !in f.chain;
      }
    }
    forall b | b in out.owner ensures OwnerHas(out, b) {
      if b !in f.chain {
        assert OwnerHas(fs, b);
      }
    }
  }

  lemma ChainOnDisk(img: Image, f: File)
    requires Whole(img) && FileOn(img, f)
    ensures forall b :: b in f.chain ==> OnDisk(b) && b.t != DIR_TRACK
  {
  }

  /** A file in an empty slot: its blocks were nobody's, its name is new, and the entry says what it should. */
  lemma AddFile(img: Image, fs: Fs, k: nat, f: File, r: seq<u8>)
    requires Laid(img, fs) && k < |fs.slots| && fs.slots[k].None? && FileOn(img, f) && NewName(fs.slots, f.name)
    requires forall b :: b in f.chain ==> b !in fs.owner
    requires |r| == BLOCK && EntrySet(img[fs.dir[k / 8]], r, k % 8, Some(f))
    ensures Laid(img[fs.dir[k / 8] := r], WithFile(fs, k, f))
  {
    ChainOnDisk(img, f);
    SlotsSet(img, fs, k, Some(f), r);
    OwnedAdd(fs, k, f);
  }

  function WithoutFile(fs: Fs, k: nat): Fs
    requires k < |fs.slots|
  {
    fs.(slots := fs.slots[k := None], owner := map b | b in fs.owner && fs.owner[b] != FileAt(k) :: fs.owner[b])
  }

  lemma OwnedRemove(fs: Fs, k: nat)
    requires Owned(fs) && k < |fs.slots|
    ensures Owned(WithoutFile(fs, k))
  {
    var out := WithoutFile(fs, k);
    forall j, b | 0 <= j < |out.slots| && out.slots[j].Some? && b in out.slots[j].value.chain
      ensures b in out.owner && out.owner[b] == FileAt(j)
    {
      assert b in fs.slots[j].value.chain && fs.owner[b] == FileAt(j);
    }
    forall b | b in out.owner ensures OwnerHas(out, b) {
      OwnerStays(fs, k, b);
    }
  }

  lemma OwnerStays(fs: Fs, k: nat, b: Blk)
    requires Owned(fs) && k < |fs.slots| && b in WithoutFile(fs, k).owner
    ensures OwnerHas(WithoutFile(fs, k), b)
  {
    assert OwnerHas(fs, b);
  }

  /** A slot emptied: its file's blocks, and no others, are nobody's. */
  lemma RemoveFile(img: Image, fs: Fs, k: nat, r: seq<u8>)
    requires Laid(img, fs) && k < |fs.slots|
    requires |r| == BLOCK && EntrySet(img[fs.dir[k / 8]], r, k % 8, None)
    ensures Laid(img[fs.dir[k / 8] := r], WithoutFile(fs, k))
  {
    SlotsSet(img, fs, k, None, r);
    OwnedRemove(fs, k);
  }

  /** An empty directory block. */
  ghost predicate EmptyDir(d: seq<u8>)
  {
    |d| == BLOCK && d[0] == 0 && forall e :: 0 <= e < 8 ==> d[e * 32 + 2] == 0
  }

  function WithDir(fs: Fs, b: Blk): Fs
  {
    fs.(dir := fs.dir + [b], slots := fs.slots + EIGHT,
        owner := fs.owner[b := Directory])
  }

  lemma OwnedDir(fs: Fs, b: Blk)
    requires Owned(fs) && OnDisk(b) && b !in fs.owner
    ensures Owned(WithDir(fs, b))
  {
    var out := WithDir(fs, b);
    forall j, c | 0 <= j < |out.slots| && out.slots[j].Some? && c in out.slots[j].value.chain
      ensures c in out.owner && out.owner[c] == FileAt(j)
    {
      assert c in fs.slots[j].value.chain;
    }
    forall c | c in out.owner ensures OwnerHas(out, c) {
      if c == b {
        assert out.dir[|fs.dir|] == b;
      } else {
        assert OwnerHas(fs, c);
      }
    }
  }

  lemma DirGrown(img: Image, dir: seq<Blk>, b: Blk, last: seq<u8>, d: seq<u8>)
    requires Whole(img) && DirOn(img, dir) && OnDisk(b) && b.t == DIR_TRACK && b !in dir
    requires |last| == BLOCK && LinksTo(last, b) && EmptyDir(d)
    ensures var out := img[dir[|dir| - 1] := last][b := d]; Whole(out) && DirOn(out, dir + [b])
  {
    assert forall i :: 0 <= i < |dir| ==> dir[i] in dir && dir[i] != b;
    var out, now := img[dir[|dir| - 1] := last][b := d], dir + [b];
    forall i | 0 <= i < |now| - 1 ensures Linked(out, now, i) {
      assert i < |dir| - 1 ==> Linked(img, dir, i);
    }
  }

  /** The directory grown by a block: the last one links to it, and it has eight empty slots. */
  lemma AddDir(img: Image, fs: Fs, b: Blk, last: seq<u8>, d: seq<u8>)
    requires Laid(img, fs) && OnDisk(b) && b.t == DIR_TRACK && b !in fs.owner
    requires |last| == BLOCK && LinksTo(last, b) && last[2..] == img[fs.dir[|fs.dir| - 1]][2..] && EmptyDir(d)
    ensures Laid(img[fs.dir[|fs.dir| - 1] := last][b := d], WithDir(fs, b))
  {
    DirGrown(img, fs.dir, b, last, d);
    OwnedDir(fs, b);
    SlotsGrown(img, fs, b, last, d);
  }

  lemma SlotsGrown(img: Image, fs: Fs, b: Blk, last: seq<u8>, d: seq<u8>)
    requires Laid(img, fs) && OnDisk(b) && b.t == DIR_TRACK && b !in fs.owner
    requires |last| == BLOCK && LinksTo(last, b) && last[2..] == img[fs.dir[|fs.dir| - 1]][2..] && EmptyDir(d)
    requires var out := img[fs.dir[|fs.dir| - 1] := last][b := d]; Whole(out) && DirOn(out, fs.dir + [b])
    ensures SlotsOn(img[fs.dir[|fs.dir| - 1] := last][b := d], fs.dir + [b], WithDir(fs, b).slots)
  {
    var z := fs.dir[|fs.dir| - 1];
    var mid := img[z := last];
    var out, nfs := mid[b := d], WithDir(fs, b);
    forall i | 0 <= i < |nfs.dir| ensures EntriesAre(out[nfs.dir[i]], nfs.slots[8 * i..8 * i + 8]) {
      DirEntries(img, fs, i, b, last, d);
    }
    forall j | 0 <= j < |nfs.slots| && nfs.slots[j].Some? ensures FileOn(out, nfs.slots[j].value) {
      var f := nfs.slots[j].value;
      assert f == fs.slots[j].value;
      NotInFile(img, f, z);
      FileFrame(img, f, z, last);
      NotInFile(mid, f, b);
      FileFrame(mid, f, b, d);
    }
  }

  lemma DirEntries(img: Image, fs: Fs, i: nat, b: Blk, last: seq<u8>, d: seq<u8>)
    requires Laid(img, fs) && i <= |fs.dir| && b !in fs.dir
    requires |last| == BLOCK && last[2..] == img[fs.dir[|fs.dir| - 1]][2..] && EmptyDir(d)
    ensures EntriesAre(img[fs.dir[|fs.dir| - 1] := last][b := d][(fs.dir + [b])[i]], WithDir(fs, b).slots[8 * i..8 * i + 8])
  {
    var eight := WithDir(fs, b).slots[8 * i..8 * i + 8];
    if i == |fs.dir| {
      assert forall e :: 0 <= e < 8 ==> eight[e] == None;
    } else {
      assert eight == fs.slots[8 * i..8 * i + 8];
      var c := fs.dir[i];
      assert c in fs.dir && c != b;
      if i == |fs.dir| - 1 {
        var was := img[c];
        assert forall j :: 2 <= j < BLOCK ==> last[j] == last[2..][j - 2] == was[j];
        forall e | 0 <= e < 8 ensures EntryIs(last, e, eight[e]) {
          EntryKept(was, last, e, eight[e]);
        }
      }
    }
  }

  // ---- a file being written ------------------------------------------------------------------------------------

  /** The 254 bytes of block i. */
  function Chunk(data: seq<u8>, i: nat): (c: seq<u8>)
    requires DATA * (i + 1) <= |data|
    ensures |c| == DATA
  {
    data[DATA * i..DATA * (i + 1)]
  }

  /** All blocks but the last are on the disk. */
  ghost predicate Partly(img: Image, chain: seq<Blk>, data: seq<u8>)
    requires Whole(img)
  {
    && |chain| >= 1 && Distinct(chain) && DATA * (|chain| - 1) <= |data|
    && (forall i :: 0 <= i < |chain| ==> OnDisk(chain[i]) && chain[i].t != DIR_TRACK)
    && (forall i :: 0 <= i < |chain| - 1 ==> Linked(img, chain, i) && img[chain[i]][2..] == Chunk(data, i))
  }

  ghost predicate Unowned(fs: Fs, chain: seq<Blk>)
  {
    forall i :: 0 <= i < |chain| ==> chain[i] !in fs.owner
  }

  ghost predicate OffDir(bs: seq<Blk>)
  {
    forall i :: 0 <= i < |bs| ==> OnDisk(bs[i]) && bs[i].t != DIR_TRACK
  }

  /** A block a file could still have. */
  ghost predicate Nobodys(fs: Fs, b: Blk)
  {
    OnDisk(b) && b.t != DIR_TRACK && b !in fs.owner
  }

  /** Blocks each linked to the next, up to the current one. */
  ghost predicate Strung(img: Image, taken: seq<Blk>, cur: Blk)
    requires Whole(img)
  {
    && OffDir(taken) && Distinct(taken) && (forall i :: 0 <= i < |taken| - 1 ==> Linked(img, taken, i))
    && (taken != [] ==> cur == taken[|taken| - 1])
  }

  /** Where an operation is: with nothing pending; with a file being written, its blocks taken in the map in memory
      and free in the disk's own; with one more block reserved for it; with all its blocks written; with a file being
      freed; with only the free map still to be saved; with some blocks taken in memory, whatever for; with a file being
      written after the map in memory was loaded again, so that only the blocks it has had since are taken. */
  datatype Stage =
    | Idle
    | Pending(bam: Bam, chain: seq<Blk>, data: seq<u8>)
    | Reserved(bam: Bam, chain: seq<Blk>, data: seq<u8>, next: Blk)
    | Written(bam: Bam, f: File)
    | Freeing(bam: Bam, slot: nat, done: nat)
    | Saving(bam: Bam)
    | Loose(bam: Bam, taken: seq<Blk>)
    | Stray(bam: Bam, taken: seq<Blk>, first: Blk, cur: Blk, blocks: nat)

  ghost predicate At(img: Image, fs: Fs, st: Stage)
  {
    Laid(img, fs) && (st.Written? || st.Saving? || st.Loose? || Maps(BamOf(img), fs.owner, [])) &&
    match st
    case Idle => true
    case Pending(bam, chain, data) =>
      && Maps(bam, fs.owner, chain) && Partly(img, chain, data) && Unowned(fs, chain)
      && Avail(bam) + |chain| == Avail(BamOf(img))
    case Reserved(bam, chain, data, next) =>
      && Maps(bam, fs.owner, chain + [next]) && Partly(img, chain, data) && Unowned(fs, chain + [next])
      && Distinct(chain + [next]) && OnDisk(next) && next.t != DIR_TRACK
      && Avail(bam) + |chain| + 1 == Avail(BamOf(img))
    case Written(bam, f) => Maps(bam, fs.owner, f.chain) && FileOn(img, f) && Unowned(fs, f.chain)
    case Saving(bam) => Maps(bam, fs.owner, [])
    case Freeing(bam, k, done) =>
      && k < |fs.slots| && fs.slots[k].Some? && done <= |fs.slots[k].value.chain|
      && Counted(bam) && Avail(bam) == Avail(BamOf(img)) + done
      && forall b :: OnDisk(b) ==> (IsFree(bam, b) <==> b !in fs.owner || b in fs.slots[k].value.chain[..done])
    case Loose(bam, taken) => Maps(bam, fs.owner, taken) && OffDir(taken)
    case Stray(bam, taken, first, cur, blocks) =>
      && Maps(bam, fs.owner, taken) && Unowned(fs, taken) && Strung(img, taken, cur)
      && Nobodys(fs, first) && Nobodys(fs, cur) && |taken| < blocks
  }

  predicate VeilIn(k: nat)
  {
    true
  }

  /** The same behind a veil: the operations need no more than the lemmas below give. */
  ghost predicate In(img: Image, fs: Fs, st: Stage)
  {
    forall k :: VeilIn(k) ==> At(img, fs, st)
  }

  lemma Open(img: Image, fs: Fs, st: Stage)
    ensures In(img, fs, st) <==> At(img, fs, st)
  {
    assert VeilIn(0);
  }

  lemma Settled(img: Image, fs: Fs, st: Stage)
    requires In(img, fs, st) && !st.Written? && !st.Saving? && !st.Loose?
    ensures In(img, fs, Idle)
  {
    Open(img, fs, st);
    Open(img, fs, Idle);
  }

  /** A free block taken: in memory it is now pending. */
  lemma TakeBlock(m: Bam, owner: map<Blk, Owner>, pending: seq<Blk>, b: Blk)
    requires Maps(m, owner, pending) && OnDisk(b) && IsFree(m, b)
    ensures Maps(Alloc(m, b), owner, pending + [b]) && b !in owner && b !in pending
  {
    AllocCounted(m, b);
    forall c | OnDisk(c) ensures IsFree(Alloc(m, b), c) <==> c !in owner && c !in pending + [b] {
      AllocBit(m, b, c);
    }
  }

  /** A first block taken for a file ... */
  lemma FirstTaken(img: Image, fs: Fs, b: Blk)
    requires Whole(img) && In(img, fs, Idle) && FirstFree(BamOf(img), b)
    ensures In(img, fs, Pending(Alloc(BamOf(img), b), [b], []))
  {
    Open(img, fs, Idle);
    TakeBlock(BamOf(img), fs.owner, [], b);
    AllocAvail(BamOf(img), b);
    assert [] + [b] == [b];
    Open(img, fs, Pending(Alloc(BamOf(img), b), [b], []));
  }

  /** ... and the next. */
  lemma NextTaken(img: Image, fs: Fs, m: Bam, chain: seq<Blk>, data: seq<u8>, b: Blk)
    requires Whole(img) && In(img, fs, Pending(m, chain, data)) && Shaped(m) && FirstFree(m, b)
    ensures In(img, fs, Reserved(Alloc(m, b), chain, data, b))
  {
    Open(img, fs, Pending(m, chain, data));
    ReservedAt(img, fs, m, chain, data, b);
    Open(img, fs, Reserved(Alloc(m, b), chain, data, b));
  }

  /** The blocks of a file being written are the ones fewer the map in memory has free. */
  lemma PendingMap(img: Image, fs: Fs, m: Bam, chain: seq<Blk>, data: seq<u8>)
    requires Whole(img) && In(img, fs, Pending(m, chain, data))
    ensures Counted(m) && Avail(m) + |chain| == Avail(BamOf(img))
  {
    Open(img, fs, Pending(m, chain, data));
  }

  lemma ReservedAt(img: Image, fs: Fs, m: Bam, chain: seq<Blk>, data: seq<u8>, b: Blk)
    requires At(img, fs, Pending(m, chain, data)) && OnDisk(b) && b.t != DIR_TRACK && IsFree(m, b)
    ensures At(img, fs, Reserved(Alloc(m, b), chain, data, b))
  {
    TakeBlock(m, fs.owner, chain, b);
    AllocAvail(m, b);
  }

  lemma LastOutside(img: Image, fs: Fs, chain: seq<Blk>, d: seq<u8>)
    requires WellFormed(img, fs) && |chain| >= 1 && Unowned(fs, chain) && |d| == BLOCK
    requires OnDisk(chain[|chain| - 1]) && chain[|chain| - 1].t != DIR_TRACK
    ensures var out := img[chain[|chain| - 1] := d];
            WellFormed(out, fs) && Whole(out) && BamOf(out) == BamOf(img)
  {
    WriteOutside(img, fs, chain[|chain| - 1], d);
  }

  lemma PartlyMore(img: Image, chain: seq<Blk>, data: seq<u8>, next: Blk, d: seq<u8>)
    requires Whole(img) && Partly(img, chain, data) && |data| == DATA * |chain| && |d| == BLOCK
    requires Distinct(chain + [next]) && OnDisk(next) && next.t != DIR_TRACK
    requires LinksTo(d, next) && d[2..] == Chunk(data, |chain| - 1)
    ensures var out := img[chain[|chain| - 1] := d]; Whole(out) && Partly(out, chain + [next], data)
  {
    var n := |chain|;
    var out, now := img[chain[n - 1] := d], chain + [next];
    forall i | 0 <= i < n ensures Linked(out, now, i) && out[now[i]][2..] == Chunk(data, i) {
      if i < n - 1 {
        assert Linked(img, chain, i) && now[i] != now[n - 1];
      }
    }
  }

  /** The full block of a pending file written, linked to the one reserved for it. */
  lemma Flushed(img: Image, fs: Fs, m: Bam, chain: seq<Blk>, data: seq<u8>, next: Blk, d: seq<u8>)
    requires Whole(img) && In(img, fs, Reserved(m, chain, data, next)) && |data| == DATA * |chain| && |chain| >= 1
    requires |d| == BLOCK && LinksTo(d, next) && d[2..] == Chunk(data, |chain| - 1)
    ensures var out := img[chain[|chain| - 1] := d];
            Whole(out) && BamOf(out) == BamOf(img) && In(out, fs, Pending(m, chain + [next], data))
  {
    Open(img, fs, Reserved(m, chain, data, next));
    FlushedAt(img, fs, m, chain, data, next, d);
    Open(img[chain[|chain| - 1] := d], fs, Pending(m, chain + [next], data));
  }

  lemma FlushedAt(img: Image, fs: Fs, m: Bam, chain: seq<Blk>, data: seq<u8>, next: Blk, d: seq<u8>)
    requires At(img, fs, Reserved(m, chain, data, next)) && |data| == DATA * |chain| && |chain| >= 1
    requires |d| == BLOCK && LinksTo(d, next) && d[2..] == Chunk(data, |chain| - 1)
    ensures var out := img[chain[|chain| - 1] := d];
            Whole(out) && BamOf(out) == BamOf(img) && At(out, fs, Pending(m, chain + [next], data))
  {
    assert forall i :: 0 <= i < |chain| ==> (chain + [next])[i] == chain[i];
    LastOutside(img, fs, chain, d);
    PartlyMore(img, chain, data, next, d);
  }

  lemma FileWhole(img: Image, f: File, d: seq<u8>)
    requires Whole(img) && Partly(img, f.chain, f.data) && |f.name| == NAME && f.kind != 0
    requires |d| == BLOCK && BlockOf(d, f, |f.chain| - 1)
    ensures var out := img[f.chain[|f.chain| - 1] := d]; Whole(out) && FileOn(out, f)
  {
    var n := |f.chain|;
    var out := img[f.chain[n - 1] := d];
    forall i | 0 <= i < n ensures Holds(out, f, i) {
      if i < n - 1 {
        assert Linked(img, f.chain, i) && f.chain[i] != f.chain[n - 1];
      }
    }
  }

  /** The last block written: the file is whole, and still nothing of it is on the directory or the disk's map. */
  lemma AllWritten(img: Image, fs: Fs, m: Bam, f: File, d: seq<u8>)
    requires Whole(img) && In(img, fs, Pending(m, f.chain, f.data)) && |f.chain| >= 1
    requires |f.name| == NAME && f.kind != 0 && |d| == BLOCK && BlockOf(d, f, |f.chain| - 1)
    ensures var out := img[f.chain[|f.chain| - 1] := d];
            Whole(out) && BamOf(out) == BamOf(img) && In(out, fs, Written(m, f)) && In(out, fs, Idle)
  {
    Open(img, fs, Pending(m, f.chain, f.data));
    var out := img[f.chain[|f.chain| - 1] := d];
    LastOutside(img, fs, f.chain, d);
    FileWhole(img, f, d);
    Open(out, fs, Written(m, f));
    Open(out, fs, Idle);
  }

  /** The directory grown by a block of its track, taken in memory. */
  method GrowMap(m: Bam, s: nat, ghost img: Image, ghost fs: Fs, ghost taken: seq<Blk>, ghost last: seq<u8>,
                 ghost d: seq<u8>)
    returns (r: Bam)
    requires Whole(img) && In(img, fs, Loose(m, taken)) && |fs.dir| >= 1 && OnDisk(fs.dir[|fs.dir| - 1]) && Shaped(m)
    requires s < SECTORS && IsFree(m, Blk(DIR_TRACK, s))
    requires |last| == BLOCK && LinksTo(last, Blk(DIR_TRACK, s)) && last[2..] == img[fs.dir[|fs.dir| - 1]][2..] && EmptyDir(d)
    ensures In(img[fs.dir[|fs.dir| - 1] := last][Blk(DIR_TRACK, s) := d], WithDir(fs, Blk(DIR_TRACK, s)), Loose(r, taken))
  {
    ghost var b := Blk(DIR_TRACK, s);
    ghost var z := fs.dir[|fs.dir| - 1];
    Open(img, fs, Loose(m, taken));
    r := Alloc(m, Blk(DIR_TRACK, s));
    AddDir(img, fs, b, last, d);
    MapsDir(m, fs, taken, b);
    Open(img[z := last][b := d], WithDir(fs, b), Loose(r, taken));
  }

  lemma MapsDir(m: Bam, fs: Fs, pending: seq<Blk>, b: Blk)
    requires Maps(m, fs.owner, pending) && OnDisk(b) && IsFree(m, b)
    ensures Maps(Alloc(m, b), WithDir(fs, b).owner, pending)
  {
    TakeBlock(m, fs.owner, pending, b);
  }

  lemma WrittenLoose(img: Image, fs: Fs, m: Bam, f: File)
    requires In(img, fs, Written(m, f))
    ensures In(img, fs, Loose(m, f.chain))
  {
    Open(img, fs, Written(m, f));
    ChainOnDisk(img, f);
    Open(img, fs, Loose(m, f.chain));
  }

  /** Nothing off the directory track has changed. */
  ghost predicate SameData(img: Image, out: Image)
    requires Whole(img) && Whole(out)
  {
    forall b :: OnDisk(b) && b.t != DIR_TRACK ==> out[b] == img[b]
  }

  ghost predicate SameOwners(fs: Fs, out: Fs)
  {
    forall b :: OnDisk(b) && b.t != DIR_TRACK ==> (b in out.owner <==> b in fs.owner)
  }

  lemma StillWritten(img: Image, fs: Fs, m: Bam, out: Image, nfs: Fs, r: Bam, f: File)
    requires Whole(img) && In(img, fs, Written(m, f)) && Whole(out) && In(out, nfs, Loose(r, f.chain))
    requires SameData(img, out) && SameOwners(fs, nfs)
    ensures In(out, nfs, Written(r, f))
  {
    Open(img, fs, Written(m, f));
    Open(out, nfs, Loose(r, f.chain));
    FileStays(img, out, f);
    StillUnowned(fs, nfs, f.chain);
    Open(out, nfs, Written(r, f));
  }

  lemma FileStays(img: Image, out: Image, f: File)
    requires Whole(img) && Whole(out) && FileOn(img, f) && SameData(img, out)
    ensures FileOn(out, f)
  {
    forall i | 0 <= i < |f.chain| ensures Holds(out, f, i) {
      assert Holds(img, f, i);
    }
  }

  lemma StillUnowned(fs: Fs, nfs: Fs, chain: seq<Blk>)
    requires Unowned(fs, chain) && OffDir(chain) && SameOwners(fs, nfs)
    ensures Unowned(nfs, chain)
  {
  }

  /** The entry made: the file is the disk's, all but its free map. */
  lemma Entered(img: Image, fs: Fs, m: Bam, f: File, k: nat, r: seq<u8>)
    requires Whole(img) && In(img, fs, Written(m, f)) && k < |fs.slots| && fs.slots[k].None? && k / 8 < |fs.dir|
    requires NewName(fs.slots, f.name)
    requires OnDisk(fs.dir[k / 8]) && |r| == BLOCK && EntrySet(img[fs.dir[k / 8]], r, k % 8, Some(f))
    ensures In(img[fs.dir[k / 8] := r], WithFile(fs, k, f), Saving(m))
  {
    Open(img, fs, Written(m, f));
    AddFile(img, fs, k, f, r);
    AddedMap(m, fs, k, f);
    SavingIs(img[fs.dir[k / 8] := r], WithFile(fs, k, f), m);
  }

  lemma AddedMap(m: Bam, fs: Fs, k: nat, f: File)
    requires Maps(m, fs.owner, f.chain) && k < |fs.slots|
    ensures Maps(m, WithFile(fs, k, f).owner, [])
  {
  }

  lemma SavingIs(img: Image, fs: Fs, m: Bam)
    requires Laid(img, fs) && Maps(m, fs.owner, [])
    ensures In(img, fs, Saving(m))
  {
    Open(img, fs, Saving(m));
  }

  /** bam_save: the disk is well-formed again. */
  lemma Saved(img: Image, fs: Fs, m: Bam)
    requires Whole(img) && In(img, fs, Saving(m))
    ensures |m.lo| == BLOCK && |m.hi| == BLOCK && In(img[BAM1 := m.lo][BAM2 := m.hi], fs, Idle)
  {
    Open(img, fs, Saving(m));
    WriteOutside(img, fs, BAM1, m.lo);
    WriteOutside(img[BAM1 := m.lo], fs, BAM2, m.hi);
    Open(img[BAM1 := m.lo][BAM2 := m.hi], fs, Idle);
  }

  // ---- a file being deleted ------------------------------------------------------------------------------------

  lemma FreeBegins(img: Image, fs: Fs, k: nat)
    requires Whole(img) && In(img, fs, Idle) && k < |fs.slots| && fs.slots[k].Some?
    ensures In(img, fs, Freeing(BamOf(img), k, 0))
  {
    Open(img, fs, Idle);
    Open(img, fs, Freeing(BamOf(img), k, 0));
  }

  /** bam_free, of the next block of the chain. */
  method FreeNext(m: Bam, b: Blk, ghost img: Image, ghost fs: Fs, ghost k: nat, ghost i: nat) returns (r: Bam)
    requires Whole(img) && In(img, fs, Freeing(m, k, i)) && k < |fs.slots| && fs.slots[k].Some?
    requires i < |fs.slots[k].value.chain| && b == fs.slots[k].value.chain[i] && OnDisk(b)
    requires Shaped(m)
    ensures In(img, fs, Freeing(r, k, i + 1)) && Shaped(r)
  {
    Open(img, fs, Freeing(m, k, i));
    FreeStep(img, fs, m, k, i);
    r := Free(m, b);
    Open(img, fs, Freeing(r, k, i + 1));
  }

  lemma FreeStep(img: Image, fs: Fs, m: Bam, k: nat, i: nat)
    requires At(img, fs, Freeing(m, k, i)) && i < |fs.slots[k].value.chain| && OnDisk(fs.slots[k].value.chain[i])
    ensures At(img, fs, Freeing(Free(m, fs.slots[k].value.chain[i]), k, i + 1))
  {
    var chain := fs.slots[k].value.chain;
    assert FileOn(img, fs.slots[k].value) && chain[i] in chain;
    assert chain[i] in fs.owner && chain[i].t != DIR_TRACK;
    FreeOne(m, fs.owner, chain, i);
    FreeAvail(m, chain[i]);
  }

  lemma FreeOne(m: Bam, owner: map<Blk, Owner>, chain: seq<Blk>, i: nat)
    requires Counted(m) && i < |chain| && Distinct(chain) && OnDisk(chain[i]) && chain[i] in owner
    requires forall b :: OnDisk(b) ==> (IsFree(m, b) <==> b !in owner || b in chain[..i])
    ensures Counted(Free(m, chain[i])) && !IsFree(m, chain[i])
    ensures forall b :: OnDisk(b) ==> (IsFree(Free(m, chain[i]), b) <==> b !in owner || b in chain[..i + 1])
  {
    var b := chain[i];
    assert b !in chain[..i];
    FreeCounted(m, b);
    assert chain[..i + 1] == chain[..i] + [b];
    forall c | OnDisk(c) ensures IsFree(Free(m, b), c) <==> c !in owner || c in chain[..i + 1] {
      FreeBit(m, b, c);
    }
  }

  /** Each block given back is one more for other files. */
  lemma FreeingMap(img: Image, fs: Fs, m: Bam, k: nat, i: nat)
    requires Whole(img) && In(img, fs, Freeing(m, k, i))
    ensures Shaped(m) && Avail(m) == Avail(BamOf(img)) + i
  {
    Open(img, fs, Freeing(m, k, i));
  }

  /** The whole chain freed and the entry cleared: exactly the file's blocks are free again. */
  lemma Freed(img: Image, fs: Fs, m: Bam, k: nat, r: seq<u8>)
    requires Whole(img) && k < |fs.slots| && fs.slots[k].Some?
    requires In(img, fs, Freeing(m, k, |fs.slots[k].value.chain|))
    requires k / 8 < |fs.dir| && OnDisk(fs.dir[k / 8]) && |r| == BLOCK && EntrySet(img[fs.dir[k / 8]], r, k % 8, None)
    ensures In(img[fs.dir[k / 8] := r], WithoutFile(fs, k), Saving(m))
  {
    var f := fs.slots[k].value;
    Open(img, fs, Freeing(m, k, |f.chain|));
    RemoveFile(img, fs, k, r);
    assert f.chain[..|f.chain|] == f.chain;
    FreedMap(m, fs, k);
    SavingIs(img[fs.dir[k / 8] := r], WithoutFile(fs, k), m);
  }

  lemma FreedMap(m: Bam, fs: Fs, k: nat)
    requires Owned(fs) && k < |fs.slots| && fs.slots[k].Some? && Counted(m)
    requires forall b :: OnDisk(b) ==> (IsFree(m, b) <==> b !in fs.owner || b in fs.slots[k].value.chain)
    ensures Maps(m, WithoutFile(fs, k).owner, [])
  {
    forall b | OnDisk(b) ensures IsFree(m, b) <==> b !in WithoutFile(fs, k).owner {
      if b in fs.owner {
        assert OwnerHas(fs, b);
      }
    }
  }

  // ---- what the operations read --------------------------------------------------------------------------------

  /** The directory, in any stage. */
  lemma DirShape(img: Image, fs: Fs, st: Stage)
    requires Whole(img) && In(img, fs, st)
    ensures |fs.dir| >= 1 && fs.dir[0] == DIR_FIRST && |fs.slots| == 8 * |fs.dir|
    ensures forall i :: 0 <= i < |fs.dir| ==> OnDisk(fs.dir[i]) && fs.dir[i].t == DIR_TRACK
  {
    Open(img, fs, st);
  }

  /** A block of it: its entries, and whether another follows. */
  lemma DirBlock(img: Image, fs: Fs, st: Stage, i: nat)
    requires Whole(img) && In(img, fs, st) && i < |fs.dir| && OnDisk(fs.dir[i]) && 8 * i + 8 <= |fs.slots|
    ensures EntriesAre(img[fs.dir[i]], fs.slots[8 * i..8 * i + 8])
    ensures img[fs.dir[i]][0] == 0 <==> i == |fs.dir| - 1
    ensures i < |fs.dir| - 1 ==> LinksTo(img[fs.dir[i]], fs.dir[i + 1])
  {
    Open(img, fs, st);
    assert i < |fs.dir| - 1 ==> Linked(img, fs.dir, i);
  }

  /** A file of a settled disk: its blocks hold its data. */
  lemma FileAtSlot(img: Image, fs: Fs, st: Stage, k: nat)
    requires Whole(img) && In(img, fs, st) && k < |fs.slots| && fs.slots[k].Some?
    ensures FileOn(img, fs.slots[k].value)
  {
    Open(img, fs, st);
  }

  lemma FileBlock(img: Image, f: File, i: nat)
    requires Whole(img) && FileOn(img, f) && i < |f.chain|
    ensures OnDisk(f.chain[i]) && BlockOf(img[f.chain[i]], f, i)
    ensures i + 1 < |f.chain| ==> OnDisk(f.chain[i + 1])
  {
    assert Holds(img, f, i);
  }

  lemma AtIdle(img: Image, fs: Fs)
    requires Whole(img) && In(img, fs, Idle)
    ensures Counted(BamOf(img))
  {
    Open(img, fs, Idle);
  }

  /** Distinct blocks of the disk are at most as many as the disk has. */
  lemma {:induction false} ChainShort(s: seq<Blk>, n: nat)
    requires Distinct(s) && forall i :: 0 <= i < |s| ==> OnDisk(s[i]) && Number(s[i]) < n
    ensures |s| <= n
    decreases n
  {
    assert |s| > 0 ==> Number(s[0]) < n;
    if n > 0 {
      if i :| 0 <= i < |s| && Number(s[i]) == n - 1 {
        var t := s[..i] + s[i + 1..];
        forall j | 0 <= j < |t| ensures OnDisk(t[j]) && Number(t[j]) < n - 1 {
          var o := if j < i then j else j + 1;
          assert t[j] == s[o];
          if Number(s[o]) == n - 1 {
            NumberApart(s[o], s[i]);
          }
        }
        ChainShort(t, n - 1);
      } else {
        ChainShort(s, n - 1);
      }
    }
  }

  function Number(b: Blk): (i: nat)
    requires OnDisk(b)
    ensures i < TRACKS * SECTORS
  {
    (b.t - 1) * SECTORS + b.s
  }

  lemma NumberApart(a: Blk, b: Blk)
    requires OnDisk(a) && OnDisk(b) && Number(a) == Number(b)
    ensures a == b
  {
  }

  /** Whether another file can be entered: a slot is empty, or the directory can grow. */
  ghost predicate HasRoom(fs: Fs)
  {
    || (exists k :: 0 <= k < |fs.slots| && fs.slots[k].None?)
    || (exists s :: 0 <= s < SECTORS && Blk(DIR_TRACK, s) !in fs.owner)
  }

  lemma DirTrackFree(img: Image, fs: Fs, m: Bam, taken: seq<Blk>)
    requires Whole(img) && In(img, fs, Loose(m, taken))
    ensures Counted(m) && forall s :: 0 <= s < SECTORS ==> (IsFree(m, Blk(DIR_TRACK, s)) <==> Blk(DIR_TRACK, s) !in fs.owner)
  {
    Open(img, fs, Loose(m, taken));
  }

  /** The bytes of a pending file that are still in the buffer may become others. */
  lemma DataChanged(img: Image, fs: Fs, m: Bam, chain: seq<Blk>, data: seq<u8>, more: seq<u8>)
    requires Whole(img) && In(img, fs, Pending(m, chain, data)) && |chain| >= 1
    requires DATA * (|chain| - 1) <= |data| && data[..DATA * (|chain| - 1)] <= more
    ensures In(img, fs, Pending(m, chain, more))
  {
    Open(img, fs, Pending(m, chain, data));
    PartlyChanged(img, chain, data, more);
    Open(img, fs, Pending(m, chain, more));
  }

  lemma PartlyChanged(img: Image, chain: seq<Blk>, data: seq<u8>, more: seq<u8>)
    requires Whole(img) && Partly(img, chain, data) && data[..DATA * (|chain| - 1)] <= more
    ensures Partly(img, chain, more)
  {
    forall i | 0 <= i < |chain| - 1 ensures img[chain[i]][2..] == Chunk(more, i) {
      assert Linked(img, chain, i);
      assert Chunk(data, i) == data[..DATA * (|chain| - 1)][DATA * i..DATA * (i + 1)];
    }
  }

  /** Block i of the file in a slot. */
  lemma SlotBlock(img: Image, fs: Fs, st: Stage, k: nat, i: nat)
    requires Whole(img) && In(img, fs, st) && k < |fs.slots| && fs.slots[k].Some? && i <= |fs.slots[k].value.chain|
    ensures var f := fs.slots[k].value;
            && |f.chain| >= 1 && |f.chain| <= 3200
            && (i < |f.chain| ==> OnDisk(f.chain[i]) && BlockOf(img[f.chain[i]], f, i))
            && (i + 1 < |f.chain| ==> OnDisk(f.chain[i + 1]))
  {
    FileAtSlot(img, fs, st, k);
    var f := fs.slots[k].value;
    ChainShort(f.chain, 3200);
    if i < |f.chain| {
      FileBlock(img, f, i);
    }
  }
}
