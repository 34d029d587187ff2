/** A file being written when its free map was loaded again under it, or its name taken: what is then written, and why
    the disk is not well-formed once the file is closed (src/platform/m65_cbmdos.c). */
module Stray {
  import opened Words
  import opened Floppy
  import opened Bam
  import opened Files

  // ---- the writer goes on --------------------------------------------------------------------------------------

  /** The free map loaded while a file is being written: none of its blocks is taken in memory any more. */
  lemma StrayBegins(img: Image, fs: Fs, m: Bam, chain: seq<Blk>, data: seq<u8>)
    requires Whole(img) && In(img, fs, Pending(m, chain, data)) && |chain| >= 1
    ensures In(img, fs, Stray(BamOf(img), [], chain[0], chain[|chain| - 1], |chain|))
  {
    Open(img, fs, Pending(m, chain, data));
    Settled(img, fs, Pending(m, chain, data));
    StrayFrom(img, fs, chain[0], chain[|chain| - 1], |chain|);
  }

  lemma StrayAgain(img: Image, fs: Fs, m: Bam, taken: seq<Blk>, first: Blk, cur: Blk, blocks: nat)
    requires Whole(img) && In(img, fs, Stray(m, taken, first, cur, blocks))
    ensures In(img, fs, Stray(BamOf(img), [], first, cur, blocks))
  {
    Open(img, fs, Stray(m, taken, first, cur, blocks));
    Settled(img, fs, Stray(m, taken, first, cur, blocks));
    StrayFrom(img, fs, first, cur, blocks);
  }

  /** A file is deleted meanwhile. */
  lemma StrayKept(img: Image, fs: Fs, m: Bam, first: Blk, cur: Blk, blocks: nat, out: Image, k: nat)
    requires Whole(img) && In(img, fs, Stray(m, [], first, cur, blocks)) && k < |fs.slots|
    requires Whole(out) && In(out, WithoutFile(fs, k), Idle)
    ensures In(out, WithoutFile(fs, k), Stray(BamOf(out), [], first, cur, blocks))
  {
    Open(img, fs, Stray(m, [], first, cur, blocks));
    var nfs := WithoutFile(fs, k);
    assert Nobodys(nfs, first) && Nobodys(nfs, cur);
    StrayFrom(out, nfs, first, cur, blocks);
  }

  lemma StrayFrom(img: Image, fs: Fs, first: Blk, cur: Blk, blocks: nat)
    requires Whole(img) && In(img, fs, Idle) && Nobodys(fs, first) && Nobodys(fs, cur) && blocks > 0
    ensures In(img, fs, Stray(BamOf(img), [], first, cur, blocks))
  {
    Open(img, fs, Idle);
    Open(img, fs, Stray(BamOf(img), [], first, cur, blocks));
  }

  lemma StrayShape(img: Image, fs: Fs, m: Bam, taken: seq<Blk>, first: Blk, cur: Blk, blocks: nat)
    requires Whole(img) && In(img, fs, Stray(m, taken, first, cur, blocks))
    ensures OnDisk(first) && OnDisk(cur) && Counted(m) && In(img, fs, Loose(m, taken))
  {
    Open(img, fs, Stray(m, taken, first, cur, blocks));
    Open(img, fs, Loose(m, taken));
  }

  /** The buffer written where such a writer is. */
  lemma StrayWrites(img: Image, fs: Fs, m: Bam, taken: seq<Blk>, first: Blk, cur: Blk, blocks: nat, d: seq<u8>)
    requires Whole(img) && In(img, fs, Stray(m, taken, first, cur, blocks)) && |d| == BLOCK
    ensures Whole(img[cur := d]) && BamOf(img[cur := d]) == BamOf(img)
    ensures In(img[cur := d], fs, Stray(m, taken, first, cur, blocks)) && In(img[cur := d], fs, Idle)
  {
    Open(img, fs, Stray(m, taken, first, cur, blocks));
    var out := img[cur := d];
    WriteOutside(img, fs, cur, d);
    forall i | 0 <= i < |taken| - 1 ensures Linked(out, taken, i) {
      assert Linked(img, taken, i) && taken[i] != taken[|taken| - 1];
    }
    Open(out, fs, Stray(m, taken, first, cur, blocks));
    Open(out, fs, Idle);
  }

  /** And when that links it to the next block. */
  lemma StrayLinks(img: Image, fs: Fs, m: Bam, taken: seq<Blk>, first: Blk, cur: Blk, blocks: nat, b: Blk)
    requires Whole(img) && In(img, fs, Stray(m, taken, first, cur, blocks)) && Shaped(m) && FirstFree(m, b)
    requires OnDisk(cur) && LinksTo(img[cur], b)
    ensures In(img, fs, Stray(Alloc(m, b), taken + [b], first, b, blocks + 1))
  {
    Open(img, fs, Stray(m, taken, first, cur, blocks));
    StrayTakes(fs, m, taken, b);
    TrailGrows(img, taken, cur, b);
    Open(img, fs, Stray(Alloc(m, b), taken + [b], first, b, blocks + 1));
  }

  lemma StrayTakes(fs: Fs, m: Bam, taken: seq<Blk>, b: Blk)
    requires Maps(m, fs.owner, taken) && Unowned(fs, taken) && FirstFree(m, b)
    ensures Maps(Alloc(m, b), fs.owner, taken + [b]) && Unowned(fs, taken + [b]) && Nobodys(fs, b) && b !in taken
  {
    TakeBlock(m, fs.owner, taken, b);
  }

  lemma TrailGrows(img: Image, taken: seq<Blk>, cur: Blk, b: Blk)
    requires Whole(img) && Strung(img, taken, cur) && OnDisk(cur) && LinksTo(img[cur], b)
    requires OnDisk(b) && b.t != DIR_TRACK && b !in taken
    ensures Strung(img, taken + [b], b)
  {
    var now := taken + [b];
    forall i | 0 <= i < |now| - 1 ensures Linked(img, now, i) {
      assert i < |taken| - 1 ==> Linked(img, taken, i);
    }
  }

  // ---- what it leaves ------------------------------------------------------------------------------------------

  /** The disk is not well-formed, whatever files one takes it to hold. */
  ghost predicate Spoilt(img: Image)
  {
    forall g: Fs :: !WellFormed(img, g)
  }

  /** The directory's chain is the image's. */
  lemma {:induction false} SameDirUpTo(img: Image, a: seq<Blk>, b: seq<Blk>, n: nat)
    requires Whole(img) && DirOn(img, a) && DirOn(img, b) && n <= |a| && n <= |b|
    ensures a[..n] == b[..n]
  {
    if n > 0 {
      SameDirUpTo(img, a, b, n - 1);
      if n > 1 {
        assert a[n - 2] == a[..n - 1][n - 2] == b[..n - 1][n - 2] == b[n - 2];
        assert Linked(img, a, n - 2) && Linked(img, b, n - 2);
      }
      assert a[..n] == a[..n - 1] + [a[n - 1]] && b[..n] == b[..n - 1] + [b[n - 1]];
    }
  }

  lemma DirGoesOn(img: Image, dir: seq<Blk>, i: nat)
    requires Whole(img) && DirOn(img, dir) && i + 1 < |dir|
    ensures img[dir[i]][0] != 0
  {
    assert Linked(img, dir, i);
  }

  lemma NotLonger(img: Image, a: seq<Blk>, b: seq<Blk>)
    requires Whole(img) && DirOn(img, a) && DirOn(img, b)
    ensures |b| <= |a|
  {
    if |a| < |b| {
      var n := |a|;
      SameDirUpTo(img, a, b, n);
      assert a[n - 1] == a[..n][n - 1] == b[..n][n - 1] == b[n - 1];
      DirGoesOn(img, b, n - 1);
    }
  }

  lemma SameDir(img: Image, a: seq<Blk>, b: seq<Blk>)
    requires Whole(img) && DirOn(img, a) && DirOn(img, b)
    ensures a == b
  {
    NotLonger(img, a, b);
    NotLonger(img, b, a);
    SameDirUpTo(img, a, b, |a|);
    assert a[..|a|] == a && b[..|b|] == b;
  }

  /** Entry k of the directory is not empty. */
  ghost predicate Used(img: Image, dir: seq<Blk>, k: nat)
    requires Whole(img) && DirOn(img, dir)
  {
    k < 8 * |dir| && img[dir[k / 8]][k % 8 * 32 + 2] != 0
  }

  lemma EntryOf(img: Image, dir: seq<Blk>, slots: seq<Option<File>>, k: nat)
    requires Whole(img) && DirOn(img, dir) && SlotsOn(img, dir, slots) && k < |slots|
    ensures EntryIs(img[dir[k / 8]], k % 8, slots[k])
  {
    var i, e := k / 8, k % 8;
    var eight := slots[8 * i..8 * i + 8];
    assert EntriesAre(img[dir[i]], eight);
    assert EntryIs(img[dir[i]], e, eight[e]) && eight[e] == slots[k];
  }

  /** So whatever the files are, the image has this one. */
  lemma ForcedSlot(img: Image, dir: seq<Blk>, g: Fs, k: nat)
    requires WellFormed(img, g) && DirOn(img, dir) && Used(img, dir, k)
    ensures g.dir == dir && k < |g.slots| && g.slots[k].Some? && EntryIs(img[dir[k / 8]], k % 8, g.slots[k])
  {
    SameDir(img, g.dir, dir);
    EntryOf(img, g.dir, g.slots, k);
  }

  /** Two entries of one name. */
  lemma TwiceSpoils(img: Image, dir: seq<Blk>, j: nat, k: nat, a: File, b: File)
    requires Whole(img) && DirOn(img, dir) && j < 8 * |dir| && k < 8 * |dir| && j != k && a.name == b.name
    requires EntryIs(img[dir[j / 8]], j % 8, Some(a)) && EntryIs(img[dir[k / 8]], k % 8, Some(b))
    ensures Spoilt(img)
  {
    forall g: Fs ensures !WellFormed(img, g) {
      if WellFormed(img, g) {
        ForcedName(img, dir, g, j, a);
        ForcedName(img, dir, g, k, b);
        assert false;
      }
    }
  }

  lemma ForcedName(img: Image, dir: seq<Blk>, g: Fs, k: nat, f: File)
    requires WellFormed(img, g) && DirOn(img, dir) && k < 8 * |dir| && EntryIs(img[dir[k / 8]], k % 8, Some(f))
    ensures k < |g.slots| && g.slots[k].Some? && g.slots[k].value.name == f.name
  {
    ForcedSlot(img, dir, g, k);
  }

  /** The blocks a stray writer has had since, and the end of the last. */
  ghost predicate Trail(img: Image, taken: seq<Blk>)
    requires Whole(img)
  {
    && OffDir(taken) && (forall i :: 0 <= i < |taken| - 1 ==> Linked(img, taken, i))
    && (taken != [] ==> img[taken[|taken| - 1]][0] == 0)
  }

  /** A trail whose last block's link is written as track 0. */
  lemma StrayTrail(img: Image, fs: Fs, m: Bam, taken: seq<Blk>, first: Blk, cur: Blk, blocks: nat)
    requires Whole(img) && In(img, fs, Stray(m, taken, first, cur, blocks)) && OnDisk(cur) && img[cur][0] == 0
    ensures Trail(img, taken) && Nobodys(fs, first) && |taken| < blocks
  {
    Open(img, fs, Stray(m, taken, first, cur, blocks));
  }

  lemma TrailKept(img: Image, out: Image, taken: seq<Blk>)
    requires Whole(img) && Whole(out) && Trail(img, taken) && SameData(img, out)
    ensures Trail(out, taken)
  {
    forall i | 0 <= i < |taken| - 1 ensures Linked(out, taken, i) {
      assert Linked(img, taken, i);
    }
  }

  /** A file that begins on the trail follows it. */
  lemma {:induction false} Follows(img: Image, f: File, taken: seq<Blk>, i: nat, n: nat)
    requires Whole(img) && FileOn(img, f) && Trail(img, taken) && i < |taken| && f.chain[0] == taken[i]
    requires n < |f.chain|
    ensures i + n < |taken| && f.chain[n] == taken[i + n]
  {
    if n > 0 {
      Follows(img, f, taken, i, n - 1);
      assert Holds(img, f, n - 1) && OnDisk(f.chain[n]);
      assert i + n < |taken| ==> Linked(img, taken, i + n - 1);
    }
  }

  lemma FollowsToEnd(img: Image, f: File, taken: seq<Blk>, i: nat)
    requires Whole(img) && FileOn(img, f) && Trail(img, taken) && i < |taken| && f.chain[0] == taken[i]
    ensures |f.chain| <= |taken|
  {
    Follows(img, f, taken, i, |f.chain| - 1);
  }

  /** The entry of a stray file: its first block is free in the map, or it has fewer blocks than the entry says. */
  lemma StraySpoils(img: Image, dir: seq<Blk>, k: nat, first: Blk, blocks: nat, taken: seq<Blk>, owner: map<Blk, Owner>)
    requires Whole(img) && DirOn(img, dir) && Used(img, dir, k) && Trail(img, taken) && |taken| < blocks
    requires OnDisk(first) && first !in owner && Maps(BamOf(img), owner, taken)
    requires var d, e := img[dir[k / 8]], k % 8 * 32;
             d[e + 3] == first.t && d[e + 4] == first.s && d[e + 30] as int + 256 * d[e + 31] as int == blocks
    ensures Spoilt(img)
  {
    forall g: Fs ensures !WellFormed(img, g) {
      if WellFormed(img, g) {
        ForcedSlot(img, dir, g, k);
        var f := g.slots[k].value;
        assert f.chain[0] == first && first in f.chain;
        assert first in g.owner && !IsFree(BamOf(img), first);
        var i :| 0 <= i < |taken| && taken[i] == first;
        FollowsToEnd(img, f, taken, i);
        assert false;
      }
    }
  }

  // ---- the images a close writes -------------------------------------------------------------------------------

  /** A directory block written with its link as it was, and the free map after it: the directory is the same. */
  lemma DirKept(img: Image, fs: Fs, i: nat, r: seq<u8>, m: Bam)
    requires Laid(img, fs) && i < |fs.dir| && |r| == BLOCK && r[..2] == img[fs.dir[i]][..2] && Shaped(m)
    ensures var out := img[fs.dir[i] := r][BAM1 := m.lo][BAM2 := m.hi];
      && Whole(out) && DirOn(out, fs.dir) && BamOf(out) == m
      && (forall j :: 0 <= j < |fs.dir| ==> out[fs.dir[j]] == if j == i then r else img[fs.dir[j]])
      && forall b :: OnDisk(b) && b.t != DIR_TRACK ==> out[b] == img[b]
  {
    var mid := img[fs.dir[i] := r];
    assert forall j :: 0 <= j < |fs.dir| ==> fs.dir[j] in fs.dir;
    DirSet(img, fs.dir, i, r);
    DirFrame(mid, fs.dir, BAM1, m.lo);
    DirFrame(mid[BAM1 := m.lo], fs.dir, BAM2, m.hi);
  }

  /** An entry is as it was when another is set. */
  lemma OtherEntry(img: Image, fs: Fs, m: Bam, k: nat, j: nat, r: seq<u8>, slot: Option<File>)
    requires Laid(img, fs) && k < |fs.slots| && j < |fs.slots| && j != k && Shaped(m)
    requires |r| == BLOCK && EntrySet(img[fs.dir[k / 8]], r, k % 8, slot)
    ensures var out := img[fs.dir[k / 8] := r][BAM1 := m.lo][BAM2 := m.hi];
            Whole(out) && EntryIs(out[fs.dir[j / 8]], j % 8, fs.slots[j])
  {
    DirKept(img, fs, k / 8, r, m);
    EntryOf(img, fs.dir, fs.slots, j);
    if j / 8 == k / 8 {
      EntryKept(img[fs.dir[j / 8]], r, j % 8, fs.slots[j]);
    }
  }

  /** The entry of a file whose name another has. */
  lemma TwiceClosed(img: Image, fs: Fs, m: Bam, k: nat, j: nat, r: seq<u8>, f: File)
    requires Whole(img) && In(img, fs, Loose(m, f.chain)) && k < |fs.slots| && fs.slots[k].None? && k / 8 < |fs.dir|
    requires j < |fs.slots| && fs.slots[j].Some? && fs.slots[j].value.name == f.name
    requires OnDisk(fs.dir[k / 8]) && |r| == BLOCK && EntrySet(img[fs.dir[k / 8]], r, k % 8, Some(f)) && Shaped(m)
    ensures Spoilt(img[fs.dir[k / 8] := r][BAM1 := m.lo][BAM2 := m.hi])
  {
    Open(img, fs, Loose(m, f.chain));
    TwiceAt(img, fs, m, k, j, r, f);
  }

  lemma TwiceAt(img: Image, fs: Fs, m: Bam, k: nat, j: nat, r: seq<u8>, f: File)
    requires Laid(img, fs) && k < |fs.slots| && fs.slots[k].None? && Shaped(m)
    requires j < |fs.slots| && fs.slots[j].Some? && fs.slots[j].value.name == f.name
    requires |r| == BLOCK && EntrySet(img[fs.dir[k / 8]], r, k % 8, Some(f))
    ensures Spoilt(img[fs.dir[k / 8] := r][BAM1 := m.lo][BAM2 := m.hi])
  {
    var out := img[fs.dir[k / 8] := r][BAM1 := m.lo][BAM2 := m.hi];
    DirKept(img, fs, k / 8, r, m);
    OtherEntry(img, fs, m, k, j, r, Some(f));
    TwiceSpoils(out, fs.dir, j, k, fs.slots[j].value, f);
  }

  /** The entry of a stray file. */
  lemma StrayClosed(img: Image, fs: Fs, m: Bam, taken: seq<Blk>, first: Blk, blocks: nat, k: nat, r: seq<u8>)
    requires Whole(img) && In(img, fs, Loose(m, taken)) && Nobodys(fs, first) && Trail(img, taken) && |taken| < blocks
    requires k < |fs.slots| && k / 8 < |fs.dir| && OnDisk(fs.dir[k / 8]) && |r| == BLOCK && Shaped(m)
    requires r[..2] == img[fs.dir[k / 8]][..2] && var e := k % 8 * 32;
             && r[e + 2] != 0 && r[e + 3] == first.t && r[e + 4] == first.s
             && r[e + 30] as int + 256 * r[e + 31] as int == blocks
    ensures Spoilt(img[fs.dir[k / 8] := r][BAM1 := m.lo][BAM2 := m.hi])
  {
    Open(img, fs, Loose(m, taken));
    var out := img[fs.dir[k / 8] := r][BAM1 := m.lo][BAM2 := m.hi];
    DirKept(img, fs, k / 8, r, m);
    forall i | 0 <= i < |taken| - 1 ensures Linked(out, taken, i) {
      assert Linked(img, taken, i);
    }
    StraySpoils(out, fs.dir, k, first, blocks, taken, fs.owner);
  }
}
