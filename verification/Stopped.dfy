/** What a close or a delete leaves that stops at one of its writes, the rest having failed: the other files still load,
    and between the first write to the directory and the free map the disk is not well-formed
    (src/platform/m65_cbmdos.c). */
module Stopped {
  import opened Words
  import opened Floppy
  import opened Bam
  import opened Files
  import opened Stray

  datatype Write = Write(b: Blk, d: seq<u8>)

  /** The disk after some writes. */
  function After(img: Image, ws: seq<Write>): Image
  {
    if ws == [] then img else After(img, ws[..|ws| - 1])[ws[|ws| - 1].b := ws[|ws| - 1].d]
  }

  lemma AfterNext(img: Image, ws: seq<Write>, n: nat)
    requires n < |ws|
    ensures After(img, ws[..n + 1]) == After(img, ws[..n])[ws[n].b := ws[n].d]
  {
    assert ws[..n + 1][..n] == ws[..n];
  }

  /** An entry of a name. */
  ghost predicate Named(d: seq<u8>, e: nat, name: seq<u8>)
    requires |d| == BLOCK && e < 8
  {
    d[e * 32 + 2] != 0 && d[e * 32 + 5..e * 32 + 21] == name
  }

  /** What dir_find_name and a load need of a file: the directory leads to its entry, none before it has the name, and
      its blocks hold its bytes. */
  ghost predicate Loads(img: Image, dir: seq<Blk>, k: nat, f: File)
    requires Whole(img)
  {
    && k < 8 * |dir| && dir[0] == DIR_FIRST
    && (forall i :: 0 <= i <= k / 8 ==> OnDisk(dir[i]))
    && (forall i :: 0 <= i < k / 8 ==> Linked(img, dir, i))
    && EntryIs(img[dir[k / 8]], k % 8, Some(f)) && FileOn(img, f)
    && (forall j :: 0 <= j < k ==> NotNamed(img, dir, j, f.name))
  }

  ghost predicate NotNamed(img: Image, dir: seq<Blk>, j: nat, name: seq<u8>)
    requires Whole(img) && j < 8 * |dir|
  {
    OnDisk(dir[j / 8]) && !Named(img[dir[j / 8]], j % 8, name)
  }

  /** Every file still loads. */
  ghost predicate Keeps(img: Image, fs: Fs)
    requires Whole(img)
  {
    forall k :: 0 <= k < |fs.slots| && fs.slots[k].Some? ==> Loads(img, fs.dir, k, fs.slots[k].value)
  }

  lemma LaidKeeps(img: Image, fs: Fs)
    requires Laid(img, fs)
    ensures Keeps(img, fs)
  {
    forall k | 0 <= k < |fs.slots| && fs.slots[k].Some? ensures Loads(img, fs.dir, k, fs.slots[k].value) {
      EntryOf(img, fs.dir, fs.slots, k);
      forall j | 0 <= j < k ensures NotNamed(img, fs.dir, j, fs.slots[k].value.name) {
        EntryOf(img, fs.dir, fs.slots, j);
      }
    }
  }

  /** The files of fs are among those of g. */
  ghost predicate Within(fs: Fs, g: Fs)
  {
    && |fs.slots| == 8 * |fs.dir| && |fs.dir| <= |g.dir| && |fs.slots| <= |g.slots|
    && (forall i :: 0 <= i < |fs.dir| ==> fs.dir[i] == g.dir[i])
    && (forall k :: 0 <= k < |fs.slots| && fs.slots[k].Some? ==> g.slots[k] == fs.slots[k])
  }

  lemma WithinKeeps(img: Image, fs: Fs, g: Fs)
    requires Laid(img, g) && Within(fs, g)
    ensures Keeps(img, fs)
  {
    LaidKeeps(img, g);
    forall k | 0 <= k < |fs.slots| && fs.slots[k].Some? ensures Loads(img, fs.dir, k, fs.slots[k].value) {
      assert Loads(img, g.dir, k, g.slots[k].value);
      forall i | 0 <= i < k / 8 ensures Linked(img, fs.dir, i) {
        assert Linked(img, g.dir, i);
      }
      forall j | 0 <= j < k ensures NotNamed(img, fs.dir, j, fs.slots[k].value.name) {
        assert NotNamed(img, g.dir, j, g.slots[k].value.name);
      }
    }
  }

  // ---- the map decides -----------------------------------------------------------------------------------------

  lemma {:induction false} SameChainUpTo(img: Image, f: File, h: File, n: nat)
    requires Whole(img) && FileOn(img, f) && FileOn(img, h) && f.chain[0] == h.chain[0]
    requires 1 <= n <= |f.chain|
    ensures n <= |h.chain| && f.chain[n - 1] == h.chain[n - 1]
  {
    if n > 1 {
      SameChainUpTo(img, f, h, n - 1);
      FileBlock(img, f, n - 2);
      FileBlock(img, h, n - 2);
    }
  }

  /** A file's chain is read off its first block. */
  lemma SameChain(img: Image, f: File, h: File)
    requires Whole(img) && FileOn(img, f) && FileOn(img, h) && f.chain[0] == h.chain[0]
    ensures f.chain == h.chain
  {
    SameChainUpTo(img, f, h, |f.chain|);
    SameChainUpTo(img, h, f, |h.chain|);
    forall n | 0 <= n < |f.chain| ensures f.chain[n] == h.chain[n] {
      SameChainUpTo(img, f, h, n + 1);
    }
  }

  lemma SameSlot(img: Image, fs: Fs, g: Fs, k: nat)
    requires Laid(img, fs) && Laid(img, g) && k < |fs.slots| && fs.slots[k].Some?
    ensures fs.dir == g.dir && k < |g.slots| && g.slots[k].Some? && g.slots[k].value.chain == fs.slots[k].value.chain
  {
    SameDir(img, fs.dir, g.dir);
    EntryOf(img, fs.dir, fs.slots, k);
    EntryOf(img, g.dir, g.slots, k);
    SameChain(img, fs.slots[k].value, g.slots[k].value);
  }

  lemma OwnedToo(img: Image, fs: Fs, g: Fs, b: Blk)
    requires Laid(img, fs) && Laid(img, g) && b in fs.owner
    ensures b in g.owner
  {
    SameDir(img, fs.dir, g.dir);
    assert OwnerHas(fs, b);
    match fs.owner[b]
    case FileAt(k) => SameSlot(img, fs, g, k);
    case _ =>
  }

  /** Whatever files one takes the disk to hold, the blocks they own are the same: so it is well-formed if and only if
      its free map has exactly the others. */
  lemma MapDecides(img: Image, fs: Fs)
    requires Laid(img, fs)
    ensures Spoilt(img) <==> !Maps(BamOf(img), fs.owner, [])
  {
    if Maps(BamOf(img), fs.owner, []) {
      assert WellFormed(img, fs);
    } else {
      forall g: Fs ensures !WellFormed(img, g) {
        if WellFormed(img, g) {
          forall b | OnDisk(b) ensures IsFree(BamOf(img), b) <==> b !in fs.owner {
            if b in fs.owner {
              OwnedToo(img, fs, g, b);
            } else if b in g.owner {
              OwnedToo(img, g, fs, b);
            }
          }
          assert Maps(BamOf(img), fs.owner, []);
          assert false;
        }
      }
    }
  }

  // ---- half of the map saved -----------------------------------------------------------------------------------

  lemma {:induction false} FreeInSame(m: Bam, r: Bam, bs: seq<Blk>)
    requires Shaped(m) && Shaped(r) && AllOnDisk(bs) && forall i :: 0 <= i < |bs| ==> (IsFree(m, bs[i]) <==> IsFree(r, bs[i]))
    ensures FreeIn(m, bs) == FreeIn(r, bs)
    decreases |bs|
  {
    if bs != [] {
      FreeInSame(m, r, bs[..|bs| - 1]);
    }
  }

  lemma HalfSaved(m: Bam, was: Bam)
    requires Counted(m) && Counted(was)
    ensures var r := Bam(m.lo, was.hi);
            Counted(r) && forall b :: OnDisk(b) ==> (IsFree(r, b) <==> if b.t <= 40 then IsFree(m, b) else IsFree(was, b))
  {
    var r := Bam(m.lo, was.hi);
    forall t | 1 <= t <= TRACKS ensures Count(r, t) as nat == FreeIn(r, Track(t)) {
      FreeInSame(if t <= 40 then m else was, r, Track(t));
    }
  }

  /** A map and the owners disagree about a block. */
  ghost predicate Off(m: Bam, owner: map<Blk, Owner>, b: Blk)
    requires Shaped(m)
  {
    OnDisk(b) && (IsFree(m, b) <==> b in owner)
  }

  /** A map that is behind by a file's chain, and perhaps by blocks of the directory. */
  ghost predicate Behind(m: Bam, owner: map<Blk, Owner>, chain: seq<Blk>)
  {
    && Counted(m) && |chain| >= 1 && Off(m, owner, chain[0])
    && (forall i :: 0 <= i < |chain| ==> OnDisk(chain[i]))
    && forall b :: OnDisk(b) && b.t > 40 ==> (Off(m, owner, b) <==> b in chain)
  }

  ghost predicate Above(chain: seq<Blk>)
  {
    exists i :: 0 <= i < |chain| && chain[i].t > 40
  }

  lemma HalfMaps(m: Bam, was: Bam, owner: map<Blk, Owner>, chain: seq<Blk>)
    requires Maps(m, owner, []) && Behind(was, owner, chain)
    ensures !Maps(was, owner, [])
    ensures Maps(Bam(m.lo, was.hi), owner, []) <==> !Above(chain)
  {
    HalfSaved(m, was);
    if i :| 0 <= i < |chain| && chain[i].t > 40 {
      assert Off(was, owner, chain[i]);
    } else {
      forall b | OnDisk(b) && b.t > 40 ensures IsFree(was, b) <==> b !in owner {
        assert Off(was, owner, b) <==> b in chain;
      }
    }
  }

  lemma HalfOrWhole(img: Image, fs: Fs, m: Bam, chain: seq<Blk>)
    requires Laid(img, fs) && Maps(m, fs.owner, []) && Behind(BamOf(img), fs.owner, chain)
    ensures var half := img[BAM1 := m.lo];
            && Spoilt(img) && Laid(half, fs) && (Spoilt(half) <==> Above(chain))
            && Laid(half[BAM2 := m.hi], fs) && !Spoilt(half[BAM2 := m.hi])
  {
    var half := img[BAM1 := m.lo];
    WriteOutside(img, fs, BAM1, m.lo);
    WriteOutside(half, fs, BAM2, m.hi);
    MapDecides(img, fs);
    MapDecides(half, fs);
    MapDecides(half[BAM2 := m.hi], fs);
    HalfMaps(m, BamOf(img), fs.owner, chain);
    assert BamOf(half) == Bam(m.lo, BamOf(img).hi);
  }

  function MapWrites(m: Bam): seq<Write>
  {
    [Write(BAM1, m.lo), Write(BAM2, m.hi)]
  }

  /** The two writes of bam_save, stopped before either, between them, or not at all. */
  lemma SaveStopped(img: Image, fs: Fs, m: Bam, chain: seq<Blk>, n: nat)
    requires Laid(img, fs) && Maps(m, fs.owner, []) && Behind(BamOf(img), fs.owner, chain) && n <= 2
    ensures var out := After(img, MapWrites(m)[..n]);
            Laid(out, fs) && (Spoilt(out) <==> n == 0 || (n == 1 && Above(chain)))
  {
    SaveOrder(img, m, n);
    HalfOrWhole(img, fs, m, chain);
  }

  lemma SaveOrder(img: Image, m: Bam, n: nat)
    requires n <= 2
    ensures After(img, MapWrites(m)[..n]) ==
            if n == 0 then img else if n == 1 then img[BAM1 := m.lo] else img[BAM1 := m.lo][BAM2 := m.hi]
  {
    AfterNext(img, MapWrites(m), 0);
    AfterNext(img, MapWrites(m), 1);
  }

  // ---- a close -------------------------------------------------------------------------------------------------

  /** The map on the disk is that of the files, but for blocks of the directory that were just added. */
  ghost predicate MapOf(img: Image, fs: Fs, added: seq<Blk>)
    requires Whole(img)
  {
    && Counted(BamOf(img)) && (forall b :: b in added ==> b in fs.dir)
    && forall b :: OnDisk(b) ==> (IsFree(BamOf(img), b) <==> b !in fs.owner || b in added)
  }

  lemma AddedSpoils(img: Image, fs: Fs, added: seq<Blk>)
    requires Laid(img, fs) && MapOf(img, fs, added)
    ensures Spoilt(img) <==> added != []
  {
    MapDecides(img, fs);
    if added != [] {
      assert added[0] in added && added[0] in fs.dir;
    }
  }

  /** What a directory that grows writes. */
  function GrowWrites(z: Blk, last: seq<u8>, b: Blk, d: seq<u8>): seq<Write>
  {
    [Write(z, last), Write(b, d)]
  }

  lemma GrowOrder(img: Image, z: Blk, last: seq<u8>, b: Blk, d: seq<u8>, n: nat)
    requires n <= 2
    ensures After(img, GrowWrites(z, last, b, d)[..n]) == if n == 0 then img else if n == 1 then img[z := last] else img[z := last][b := d]
    ensures GrowWrites(z, last, b, d)[..2] == GrowWrites(z, last, b, d)
  {
    AfterNext(img, GrowWrites(z, last, b, d), 0);
    AfterNext(img, GrowWrites(z, last, b, d), 1);
  }

  /** The directory grown by block b, and stopped: once its last block is linked to b the disk is not well-formed. */
  lemma GrowStopped(img: Image, fs: Fs, b: Blk, last: seq<u8>, d: seq<u8>, n: nat)
    requires WellFormed(img, fs) && OnDisk(b) && b.t == DIR_TRACK && b !in fs.owner && n <= 2
    requires |last| == BLOCK && LinksTo(last, b) && last[2..] == img[fs.dir[|fs.dir| - 1]][2..] && EmptyDir(d)
    ensures var out := After(img, GrowWrites(fs.dir[|fs.dir| - 1], last, b, d)[..n]);
            Whole(out) && Keeps(out, fs) && (Spoilt(out) <==> n > 0)
  {
    var z := fs.dir[|fs.dir| - 1];
    GrowOrder(img, z, last, b, d, n);
    assert z in fs.dir && z != BAM1 && z != BAM2;
    if n == 0 {
      LaidKeeps(img, fs);
    } else if n == 1 {
      LinkedKeeps(img, fs, b, last);
      LinkedSpoils(img, fs, b, last);
    } else {
      GrownKeeps(img, fs, b, last, d);
    }
  }

  /** With the new block empty, all there is to a disk of the larger directory but its map. */
  lemma GrownKeeps(img: Image, fs: Fs, b: Blk, last: seq<u8>, d: seq<u8>)
    requires WellFormed(img, fs) && OnDisk(b) && b.t == DIR_TRACK && b !in fs.owner
    requires |last| == BLOCK && LinksTo(last, b) && last[2..] == img[fs.dir[|fs.dir| - 1]][2..] && EmptyDir(d)
    ensures var out, nfs := img[fs.dir[|fs.dir| - 1] := last][b := d], WithDir(fs, b);
            Laid(out, nfs) && MapOf(out, nfs, [b]) && Keeps(out, fs) && Spoilt(out)
  {
    var z := fs.dir[|fs.dir| - 1];
    var out, nfs := img[z := last][b := d], WithDir(fs, b);
    assert z in fs.dir && z != BAM1 && z != BAM2 && b != BAM1 && b != BAM2;
    AddDir(img, fs, b, last, d);
    WithinKeeps(out, fs, nfs);
    assert BamOf(out) == BamOf(img) && nfs.dir[|fs.dir|] == b;
    AddedSpoils(out, nfs, [b]);
  }

  lemma LinkedKeeps(img: Image, fs: Fs, b: Blk, last: seq<u8>)
    requires Laid(img, fs) && |last| == BLOCK && last[2..] == img[fs.dir[|fs.dir| - 1]][2..]
    ensures var out := img[fs.dir[|fs.dir| - 1] := last]; Whole(out) && Keeps(out, fs)
  {
    var z := fs.dir[|fs.dir| - 1];
    var out := img[z := last];
    LaidKeeps(img, fs);
    forall k | 0 <= k < |fs.slots| && fs.slots[k].Some? ensures Loads(out, fs.dir, k, fs.slots[k].value) {
      var f := fs.slots[k].value;
      assert Loads(img, fs.dir, k, f);
      NotInFile(img, f, z);
      FileFrame(img, f, z, last);
      SameEntry(img, fs, last, k);
      forall i | 0 <= i < k / 8 ensures Linked(out, fs.dir, i) {
        assert Linked(img, fs.dir, i) && fs.dir[i] != z;
      }
      forall j | 0 <= j < k ensures NotNamed(out, fs.dir, j, f.name) {
        assert NotNamed(img, fs.dir, j, f.name);
        SameEntry(img, fs, last, j);
      }
    }
  }

  lemma SameEntry(img: Image, fs: Fs, last: seq<u8>, j: nat)
    requires Laid(img, fs) && |last| == BLOCK && last[2..] == img[fs.dir[|fs.dir| - 1]][2..] && j < |fs.slots|
    ensures img[fs.dir[|fs.dir| - 1] := last][fs.dir[j / 8]][2..] == img[fs.dir[j / 8]][2..]
  {
  }

  lemma {:induction false} LeadsOn(out: Image, dir: seq<Blk>, b: Blk, g: seq<Blk>, n: nat)
    requires Whole(out) && |dir| >= 1 && dir[0] == DIR_FIRST && OnDisk(b) && DirOn(out, g) && n <= |dir|
    requires forall i :: 0 <= i < |dir| ==> OnDisk(dir[i]) && Linked(out, dir + [b], i)
    ensures n < |g| && g[n] == (dir + [b])[n]
  {
    if n > 0 {
      LeadsOn(out, dir, b, g, n - 1);
      assert Linked(out, dir + [b], n - 1) && OnDisk((dir + [b])[n]);
      assert out[g[n - 1]][0] != 0;
      assert n < |g| ==> Linked(out, g, n - 1);
    }
  }

  lemma LinkedSpoils(img: Image, fs: Fs, b: Blk, last: seq<u8>)
    requires WellFormed(img, fs) && OnDisk(b) && b !in fs.owner && |last| == BLOCK && LinksTo(last, b)
    ensures Spoilt(img[fs.dir[|fs.dir| - 1] := last])
  {
    var dir, z := fs.dir, fs.dir[|fs.dir| - 1];
    var out := img[z := last];
    assert z in fs.dir && z != BAM1 && z != BAM2 && BamOf(out) == BamOf(img);
    forall i | 0 <= i < |dir| ensures Linked(out, dir + [b], i) {
      assert i < |dir| - 1 ==> Linked(img, dir, i) && dir[i] != z;
    }
    forall g: Fs ensures !WellFormed(out, g) {
      if WellFormed(out, g) {
        LeadsOn(out, dir, b, g.dir, |dir|);
        assert false;
      }
    }
  }

  /** What a close writes once its last block is there and the directory has a slot, and a delete once the chain is
      freed: the entry and the map. */
  function EntryWrites(at: Blk, r: seq<u8>, m: Bam): seq<Write>
  {
    [Write(at, r)] + MapWrites(m)
  }

  lemma EntryOrder(img: Image, at: Blk, r: seq<u8>, m: Bam, n: nat)
    requires n <= 3
    ensures After(img, EntryWrites(at, r, m)[..n]) ==
            if n == 0 then img else After(img[at := r], MapWrites(m)[..n - 1])
  {
    var ws, rest := EntryWrites(at, r, m), MapWrites(m);
    AfterNext(img, ws, 0);
    AfterNext(img, ws, 1);
    AfterNext(img, ws, 2);
    AfterNext(img[at := r], rest, 0);
    AfterNext(img[at := r], rest, 1);
  }

  lemma EntryAll(img: Image, at: Blk, r: seq<u8>, m: Bam)
    ensures After(img, EntryWrites(at, r, m)) == img[at := r][BAM1 := m.lo][BAM2 := m.hi]
  {
    EntryOrder(img, at, r, m, 3);
    SaveOrder(img[at := r], m, 2);
    assert EntryWrites(at, r, m)[..3] == EntryWrites(at, r, m);
  }

  lemma EntryBehind(img: Image, fs: Fs, f: File, added: seq<Blk>, k: nat, r: seq<u8>)
    requires Laid(img, fs) && MapOf(img, fs, added) && k < |fs.slots| && |r| == BLOCK && FileOn(img, f)
    requires Unowned(fs, f.chain)
    ensures Whole(img[fs.dir[k / 8] := r]) && Behind(BamOf(img[fs.dir[k / 8] := r]), WithFile(fs, k, f).owner, f.chain)
  {
    var at, owner := fs.dir[k / 8], WithFile(fs, k, f).owner;
    assert at in fs.dir && at != BAM1 && at != BAM2;
    var m := BamOf(img[at := r]);
    assert m == BamOf(img) && f.chain[0] in f.chain;
    forall b | OnDisk(b) && b.t > 40 ensures Off(m, owner, b) <==> b in f.chain {
      assert b !in added;
    }
  }

  lemma EntryMade(img: Image, fs: Fs, m: Bam, f: File, added: seq<Blk>, k: nat, r: seq<u8>)
    requires Whole(img) && In(img, fs, Written(m, f)) && k < |fs.slots| && fs.slots[k].None? && NewName(fs.slots, f.name)
    requires k / 8 < |fs.dir| && OnDisk(fs.dir[k / 8])
    requires |r| == BLOCK && EntrySet(img[fs.dir[k / 8]], r, k % 8, Some(f)) && MapOf(img, fs, added)
    ensures Within(fs, WithFile(fs, k, f))
    ensures var mid, nfs := img[fs.dir[k / 8] := r], WithFile(fs, k, f);
            Laid(mid, nfs) && Maps(m, nfs.owner, []) && Behind(BamOf(mid), nfs.owner, f.chain)
  {
    Open(img, fs, Written(m, f));
    WithinFile(fs, k, f);
    AddFile(img, fs, k, f, r);
    AddedMap(m, fs, k, f);
    EntryBehind(img, fs, f, added, k, r);
  }

  /** A close that stops there: well-formed again when the part of the map that has the file's blocks is saved.  The
      map on the disk may be older than a directory block that was just added. */
  lemma EnterStopped(img: Image, fs: Fs, m: Bam, f: File, added: seq<Blk>, k: nat, r: seq<u8>, n: nat)
    requires Whole(img) && In(img, fs, Written(m, f)) && k < |fs.slots| && fs.slots[k].None? && NewName(fs.slots, f.name)
    requires k / 8 < |fs.dir| && OnDisk(fs.dir[k / 8]) && n <= 3
    requires |r| == BLOCK && EntrySet(img[fs.dir[k / 8]], r, k % 8, Some(f)) && MapOf(img, fs, added)
    ensures var out := After(img, EntryWrites(fs.dir[k / 8], r, m)[..n]);
            && Whole(out) && Keeps(out, fs)
            && (Spoilt(out) <==> if n == 0 then added != [] else n == 1 || (n == 2 && Above(f.chain)))
  {
    if n == 0 {
      Open(img, fs, Written(m, f));
      NotEntered(img, fs, added, EntryWrites(fs.dir[k / 8], r, m));
    } else {
      EntryMade(img, fs, m, f, added, k, r);
      ThenMap(img, fs.dir[k / 8], r, fs, WithFile(fs, k, f), m, f.chain, n);
    }
  }

  lemma NotEntered(img: Image, fs: Fs, added: seq<Blk>, ws: seq<Write>)
    requires Laid(img, fs) && MapOf(img, fs, added)
    ensures After(img, ws[..0]) == img && Keeps(img, fs) && (Spoilt(img) <==> added != [])
  {
    LaidKeeps(img, fs);
    AddedSpoils(img, fs, added);
  }

  lemma WithinFile(fs: Fs, k: nat, f: File)
    requires |fs.slots| == 8 * |fs.dir| && k < |fs.slots|
    ensures fs.slots[k].None? ==> Within(fs, WithFile(fs, k, f))
    ensures Within(WithoutFile(fs, k), fs) && Within(WithoutFile(fs, k), WithoutFile(fs, k))
  {
  }

  lemma ThenMap(img: Image, at: Blk, r: seq<u8>, fs: Fs, nfs: Fs, m: Bam, chain: seq<Blk>, n: nat)
    requires var mid := img[at := r]; Laid(mid, nfs) && Maps(m, nfs.owner, []) && Behind(BamOf(mid), nfs.owner, chain)
    requires 1 <= n <= 3 && Within(fs, nfs)
    ensures var out := After(img, EntryWrites(at, r, m)[..n]);
            Whole(out) && Keeps(out, fs) && (Spoilt(out) <==> n == 1 || (n == 2 && Above(chain)))
  {
    EntryOrder(img, at, r, m, n);
    SaveStopped(img[at := r], nfs, m, chain, n - 1);
    WithinKeeps(After(img, EntryWrites(at, r, m)[..n]), fs, nfs);
  }

  // ---- a delete ------------------------------------------------------------------------------------------------

  /** A delete that stops at one of its writes. */
  lemma DeleteStopped(img: Image, fs: Fs, k: nat, m: Bam, r: seq<u8>, n: nat)
    requires Whole(img) && k < |fs.slots| && fs.slots[k].Some? && n <= 3
    requires In(img, fs, Freeing(m, k, |fs.slots[k].value.chain|)) && k / 8 < |fs.dir| && OnDisk(fs.dir[k / 8])
    requires |r| == BLOCK && EntrySet(img[fs.dir[k / 8]], r, k % 8, None)
    ensures var out := After(img, EntryWrites(fs.dir[k / 8], r, m)[..n]);
            && Whole(out) && Keeps(out, WithoutFile(fs, k))
            && (Spoilt(out) <==> n == 1 || (n == 2 && Above(fs.slots[k].value.chain)))
  {
    EntryGone(img, fs, k, m, r);
    if n > 0 {
      ThenMap(img, fs.dir[k / 8], r, WithoutFile(fs, k), WithoutFile(fs, k), m, fs.slots[k].value.chain, n);
    } else {
      assert After(img, EntryWrites(fs.dir[k / 8], r, m)[..0]) == img;
    }
  }

  lemma EntryGone(img: Image, fs: Fs, k: nat, m: Bam, r: seq<u8>)
    requires Whole(img) && k < |fs.slots| && fs.slots[k].Some?
    requires In(img, fs, Freeing(m, k, |fs.slots[k].value.chain|)) && k / 8 < |fs.dir| && OnDisk(fs.dir[k / 8])
    requires |r| == BLOCK && EntrySet(img[fs.dir[k / 8]], r, k % 8, None)
    ensures Within(WithoutFile(fs, k), WithoutFile(fs, k)) && Keeps(img, WithoutFile(fs, k)) && !Spoilt(img)
    ensures var mid, nfs := img[fs.dir[k / 8] := r], WithoutFile(fs, k);
            Laid(mid, nfs) && Maps(m, nfs.owner, []) && Behind(BamOf(mid), nfs.owner, fs.slots[k].value.chain)
  {
    var f := fs.slots[k].value;
    Open(img, fs, Freeing(m, k, |f.chain|));
    WithinFile(fs, k, f);
    WithinKeeps(img, WithoutFile(fs, k), fs);
    MapDecides(img, fs);
    assert f.chain[..|f.chain|] == f.chain;
    EntryCleared(img, fs, k, m, r);
  }

  lemma EntryCleared(img: Image, fs: Fs, k: nat, m: Bam, r: seq<u8>)
    requires WellFormed(img, fs) && k < |fs.slots| && fs.slots[k].Some? && Counted(m)
    requires forall b :: OnDisk(b) ==> (IsFree(m, b) <==> b !in fs.owner || b in fs.slots[k].value.chain)
    requires |r| == BLOCK && EntrySet(img[fs.dir[k / 8]], r, k % 8, None)
    ensures var mid, nfs := img[fs.dir[k / 8] := r], WithoutFile(fs, k);
            Laid(mid, nfs) && Maps(m, nfs.owner, []) && Behind(BamOf(mid), nfs.owner, fs.slots[k].value.chain)
  {
    RemoveFile(img, fs, k, r);
    FreedMap(m, fs, k);
    ClearedBehind(img, fs, k, r);
  }

  lemma ClearedBehind(img: Image, fs: Fs, k: nat, r: seq<u8>)
    requires WellFormed(img, fs) && k < |fs.slots| && fs.slots[k].Some? && |r| == BLOCK
    ensures Whole(img[fs.dir[k / 8] := r])
    ensures Behind(BamOf(img[fs.dir[k / 8] := r]), WithoutFile(fs, k).owner, fs.slots[k].value.chain)
  {
    var at, chain, owner := fs.dir[k / 8], fs.slots[k].value.chain, WithoutFile(fs, k).owner;
    assert at in fs.dir && at != BAM1 && at != BAM2;
    var m := BamOf(img[at := r]);
    assert m == BamOf(img) && chain[0] in chain;
    forall b | OnDisk(b) ensures Off(m, owner, b) <==> b in chain {
      if b in fs.owner {
        assert OwnerHas(fs, b);
      }
    }
  }
}
