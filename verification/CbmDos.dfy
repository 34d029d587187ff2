/** The disk filesystem (src/platform/m65_cbmdos.c): a streaming writer and reader, lookup, delete and load, over the
    sector store of Floppy.  The sector operations of this model do not fail on blocks of the disk: what is left when
    one does is in Stopped. */
module CbmDos {
  import opened Words
  import opened Floppy
  import opened Bam
  import opened Files
  import opened Stray
  import Stopped

  datatype Error = Ok | Io | Full | DirFull | NotOpen | Exists | NotFound

  /** A C string's characters. */
  ghost predicate Text(s: seq<u8>)
  {
    forall i :: 0 <= i < |s| ==> s[i] != 0
  }

  function Fold(c: u8): u8
  {
    if 0x61 <= c <= 0x7a then c - 32 else c
  }

  function Cut(s: seq<u8>): (r: seq<u8>)
    ensures |r| <= NAME
  {
    if |s| < NAME then s else s[..NAME]
  }

  /** A name as create writes it: cut, and in upper case. */
  function Upper(s: seq<u8>): (r: seq<u8>)
    ensures |r| == |Cut(s)|
  {
    seq<u8>(|Cut(s)|, i requires 0 <= i < |Cut(s)| => Fold(Cut(s)[i]))
  }

  /** A name as it is in the directory. */
  function NameOf(s: seq<u8>): (n: seq<u8>)
    ensures |n| == NAME
  {
    Cut(s) + seq<u8>(NAME - |Cut(s)|, _ => PAD)
  }

  type Buffer = s: seq<u8> | |s| == BLOCK witness seq<u8>(BLOCK, _ => 0)

  /** What the buffer holds of a file being written. */
  ghost predicate Buffered(blk: Buffer, pos: nat, chain: seq<Blk>, data: seq<u8>)
  {
    && |chain| >= 1 && 2 <= pos <= BLOCK && |data| == DATA * (|chain| - 1) + pos - 2
    && blk[2..pos] == data[DATA * (|chain| - 1)..]
  }

  /** The directory entry of a new file. */
  function EntryBytes(kind: u8, t: u8, s: u8, name: seq<u8>, blocks: nat): (e: seq<u8>)
    requires |name| == NAME
    ensures |e| == 30
  {
    [kind, t, s] + name + seq<u8>(9, _ => 0) + [blocks % 0x100, blocks / 0x100 % 0x100]
  }

  /** The writer's place: the block being filled, the first one, where in the buffer, and how many blocks. */
  datatype Writer = Writer(cur: Blk, first: Blk, pos: nat, blocks: nat)

  /** What is being written: a file, its blocks and bytes so far; or, once the free map has been loaded again under it,
      whatever ends up in the blocks taken since. */
  datatype Job = Filling(chain: seq<Blk>, data: seq<u8>) | Adrift(taken: seq<Blk>)

  ghost predicate Ends(w: Writer, chain: seq<Blk>)
  {
    |chain| >= 1 && w.cur == chain[|chain| - 1] && w.first == chain[0] && w.blocks == |chain|
  }

  ghost predicate JobAt(img: Image, fs: Fs, bam: Bam, blk: Buffer, w: Writer, job: Job)
    requires Whole(img)
  {
    match job
    case Filling(chain, data) =>
      In(img, fs, Pending(bam, chain, data)) && Buffered(blk, w.pos, chain, data) && Ends(w, chain)
    case Adrift(taken) => In(img, fs, Stray(bam, taken, w.first, w.cur, w.blocks))
  }

  predicate VeilJob(k: nat)
  {
    true
  }

  /** All that holds while a file is open for writing; the job behind a veil. */
  ghost predicate Working(img: Image, fs: Fs, bam: Bam, blk: Buffer, w: Writer, job: Job)
    requires Whole(img)
  {
    && 2 <= w.pos <= BLOCK && OnDisk(w.cur) && OnDisk(w.first) && Shaped(bam)
    && forall k :: VeilJob(k) ==> JobAt(img, fs, bam, blk, w, job)
  }

  lemma WorkBegins(img: Image, fs: Fs, b: Blk, blk: Buffer)
    requires Whole(img) && In(img, fs, Idle) && FirstFree(BamOf(img), b)
    ensures Working(img, fs, Alloc(BamOf(img), b), blk, Writer(b, b, 2, 1), Filling([b], []))
  {
    assert VeilJob(0);
    FirstTaken(img, fs, b);
    assert blk[2..2] == [];
  }

  lemma WorkMap(img: Image, fs: Fs, bam: Bam, blk: Buffer, w: Writer, job: Job)
    requires Whole(img) && Working(img, fs, bam, blk, w, job)
    ensures Counted(bam)
    ensures job.Filling? ==> Avail(bam) + |job.chain| == Avail(BamOf(img)) && Buffered(blk, w.pos, job.chain, job.data)
  {
    assert VeilJob(0);
    if job.Filling? {
      PendingMap(img, fs, bam, job.chain, job.data);
    } else {
      StrayShape(img, fs, bam, job.taken, w.first, w.cur, w.blocks);
    }
  }

  function More(job: Job, b: u8): Job
  {
    if job.Filling? then job.(data := job.data + [b]) else job
  }

  lemma WorkByte(img: Image, fs: Fs, bam: Bam, blk: Buffer, w: Writer, job: Job, b: u8)
    requires Whole(img) && Working(img, fs, bam, blk, w, job) && w.pos < BLOCK
    ensures Working(img, fs, bam, blk[w.pos := b], w.(pos := w.pos + 1), More(job, b))
  {
    assert VeilJob(0);
    if job.Filling? {
      DataChanged(img, fs, bam, job.chain, job.data, job.data + [b]);
      BufferNext(blk, w.pos, job.chain, job.data, b);
    }
  }

  function Onward(job: Job, b: Blk): Job
  {
    if job.Filling? then job.(chain := job.chain + [b]) else Adrift(job.taken + [b])
  }

  /** A directory block with nothing in it, the last. */
  function EmptyBlock(): Buffer
  {
    seq<u8>(BLOCK, k => if k == 1 then 0xff else 0)
  }

  function LinkTo(blk: Buffer, b: Blk): (d: Buffer)
    requires OnDisk(b)
    ensures LinksTo(d, b) && d[2..] == blk[2..]
  {
    blk[0 := b.t][1 := b.s]
  }

  /** A full block, linked to the next and written. */
  lemma WorkLinks(img: Image, fs: Fs, bam: Bam, blk: Buffer, w: Writer, job: Job, b: Blk)
    requires Whole(img) && Working(img, fs, bam, blk, w, job) && w.pos == BLOCK && FirstFree(bam, b)
    ensures var d := LinkTo(blk, b);
            var out := img[w.cur := d];
            && Whole(out) && BamOf(out) == BamOf(img) && In(out, fs, Idle)
            && Working(out, fs, Alloc(bam, b), d, Writer(b, w.first, 2, w.blocks + 1), Onward(job, b))
  {
    assert VeilJob(0);
    if job.Filling? {
      FillLinks(img, fs, bam, blk, w, job.chain, job.data, b);
      FillPlace(blk, w, job.chain, job.data, b);
    } else {
      StrayWrites(img, fs, bam, job.taken, w.first, w.cur, w.blocks, LinkTo(blk, b));
      StrayLinks(img[w.cur := LinkTo(blk, b)], fs, bam, job.taken, w.first, w.cur, w.blocks, b);
    }
  }

  lemma FillLinks(img: Image, fs: Fs, bam: Bam, blk: Buffer, w: Writer, chain: seq<Blk>, data: seq<u8>, b: Blk)
    requires Whole(img) && In(img, fs, Pending(bam, chain, data)) && Buffered(blk, BLOCK, chain, data) && Ends(w, chain)
    requires Shaped(bam) && FirstFree(bam, b)
    ensures var out := img[w.cur := LinkTo(blk, b)];
            && Whole(out) && BamOf(out) == BamOf(img) && In(out, fs, Idle)
            && In(out, fs, Pending(Alloc(bam, b), chain + [b], data))
  {
    var d := LinkTo(blk, b);
    NextTaken(img, fs, bam, chain, data, b);
    assert d[2..] == blk[2..BLOCK];
    Flushed(img, fs, Alloc(bam, b), chain, data, b, d);
    Settled(img[w.cur := d], fs, Pending(Alloc(bam, b), chain + [b], data));
  }

  lemma FillPlace(blk: Buffer, w: Writer, chain: seq<Blk>, data: seq<u8>, b: Blk)
    requires Buffered(blk, BLOCK, chain, data) && Ends(w, chain) && OnDisk(b)
    ensures Buffered(LinkTo(blk, b), 2, chain + [b], data) && Ends(Writer(b, w.first, 2, w.blocks + 1), chain + [b])
  {
    assert LinkTo(blk, b)[2..2] == [];
  }

  /** A file being written whose buffer has been used for something else: what it held of the file is other bytes. */
  function Jogged(job: Job, blk: Buffer, pos: nat): Job
    requires 2 <= pos <= BLOCK
  {
    if job.Adrift? || |job.chain| == 0 || DATA * (|job.chain| - 1) > |job.data| then job
    else job.(data := job.data[..DATA * (|job.chain| - 1)] + blk[2..pos])
  }

  lemma WorkJogged(img: Image, fs: Fs, bam: Bam, blk: Buffer, w: Writer, job: Job, now: Buffer)
    requires Whole(img) && Working(img, fs, bam, blk, w, job)
    ensures Working(img, fs, bam, now, w, Jogged(job, now, w.pos))
  {
    assert VeilJob(0);
    if job.Filling? {
      DataChanged(img, fs, bam, job.chain, job.data, Jogged(job, now, w.pos).data);
      JoggedBytes(blk, w.pos, job.chain, job.data, now);
    }
  }

  lemma JoggedBytes(blk: Buffer, pos: nat, chain: seq<Blk>, data: seq<u8>, now: Buffer)
    requires Buffered(blk, pos, chain, data)
    ensures Buffered(now, pos, chain, Jogged(Filling(chain, data), now, pos).data)
  {
    var n := DATA * (|chain| - 1);
    assert (data[..n] + now[2..pos])[n..] == now[2..pos];
  }

  /** So it is the same file if and only if the buffer still holds the same bytes of it. */
  lemma JoggedSame(blk: Buffer, pos: nat, chain: seq<Blk>, data: seq<u8>, now: Buffer)
    requires Buffered(blk, pos, chain, data)
    ensures Jogged(Filling(chain, data), now, pos) == Filling(chain, data) <==> now[2..pos] == blk[2..pos]
  {
    var n := DATA * (|chain| - 1);
    var more := data[..n] + now[2..pos];
    assert more[n..] == now[2..pos];
    assert data == data[..n] + blk[2..pos];
  }

  /** A file being written when the free map is loaded again. */
  lemma WorkStrays(img: Image, fs: Fs, bam: Bam, blk: Buffer, w: Writer, job: Job, now: Buffer)
    requires Whole(img) && Working(img, fs, bam, blk, w, job)
    ensures Working(img, fs, BamOf(img), now, w, Adrift([]))
  {
    assert VeilJob(0);
    if job.Filling? {
      StrayBegins(img, fs, bam, job.chain, job.data);
    } else {
      StrayAgain(img, fs, bam, job.taken, w.first, w.cur, w.blocks);
    }
  }

  lemma StraysOn(img: Image, fs: Fs, blk: Buffer, w: Writer, out: Image, k: nat, now: Buffer)
    requires Whole(img) && Working(img, fs, BamOf(img), blk, w, Adrift([])) && k < |fs.slots|
    requires Whole(out) && In(out, WithoutFile(fs, k), Idle)
    ensures Working(out, WithoutFile(fs, k), BamOf(out), now, w, Adrift([]))
  {
    assert VeilJob(0);
    StrayKept(img, fs, BamOf(img), w.first, w.cur, w.blocks, out, k);
  }

  // ---- closing -------------------------------------------------------------------------------------------------

  /** The last block: its link is track 0 and the place of its last byte. */
  ghost predicate IsLast(d: Buffer, blk: Buffer, pos: nat)
  {
    2 <= pos < BLOCK && d[0] == 0 && d[1] as int == pos - 1 && d[2..pos] == blk[2..pos]
  }

  function Held(job: Job): seq<Blk>
  {
    if job.Filling? then job.chain else job.taken
  }

  /** All blocks written: a whole file, or a stray one's trail. */
  ghost predicate Ended(img: Image, fs: Fs, bam: Bam, w: Writer, job: Job, name: seq<u8>, kind: u8)
    requires Whole(img)
  {
    match job
    case Filling(chain, data) => In(img, fs, Written(bam, File(name, kind, chain, data))) && Ends(w, chain)
    case Adrift(taken) => Nobodys(fs, w.first) && Trail(img, taken) && |taken| < w.blocks
  }

  lemma WorkEnds(img: Image, fs: Fs, bam: Bam, blk: Buffer, w: Writer, job: Job, d: Buffer, name: seq<u8>, kind: u8)
    requires Whole(img) && Working(img, fs, bam, blk, w, job) && IsLast(d, blk, w.pos) && |name| == NAME && kind != 0
    ensures var out := img[w.cur := d];
            && Whole(out) && BamOf(out) == BamOf(img) && In(out, fs, Idle) && In(out, fs, Loose(bam, Held(job)))
            && Ended(out, fs, bam, w, job, name, kind)
  {
    assert VeilJob(0);
    var out := img[w.cur := d];
    if job.Filling? {
      var f := File(name, kind, job.chain, job.data);
      AllWritten(img, fs, bam, f, d);
      WrittenLoose(out, fs, bam, f);
    } else {
      StrayWrites(img, fs, bam, job.taken, w.first, w.cur, w.blocks, d);
      StrayShape(out, fs, bam, job.taken, w.first, w.cur, w.blocks);
      StrayTrail(out, fs, bam, job.taken, w.first, w.cur, w.blocks);
    }
  }

  lemma StillEnded(img: Image, fs: Fs, bam: Bam, out: Image, nfs: Fs, r: Bam, w: Writer, job: Job, name: seq<u8>, kind: u8)
    requires Whole(img) && Ended(img, fs, bam, w, job, name, kind)
    requires Whole(out) && In(out, nfs, Loose(r, Held(job))) && SameData(img, out) && SameOwners(fs, nfs)
    ensures Ended(out, nfs, r, w, job, name, kind)
  {
    if job.Filling? {
      StillWritten(img, fs, bam, out, nfs, r, File(name, kind, job.chain, job.data));
    } else {
      TrailKept(img, out, job.taken);
    }
  }

  /** A directory block with the new file's entry. */
  function WithEntry(d: Buffer, e: nat, kind: u8, first: Blk, name: seq<u8>, blocks: nat): Buffer
    requires e < 8 && OnDisk(first) && |name| == NAME
  {
    Splice(d, e * 32 + 2, EntryBytes(kind, first.t, first.s, name, blocks))
  }

  /** The entry and the map written.  The disk holds the file, well-formed, if the file was whole and its name new; if
      not, it is not well-formed at all. */
  lemma ClosedAs(img: Image, fs: Fs, bam: Bam, w: Writer, job: Job, name: seq<u8>, kind: u8, k: nat, r: Buffer)
    requires Whole(img) && Ended(img, fs, bam, w, job, name, kind) && In(img, fs, Loose(bam, Held(job))) && Shaped(bam)
    requires k < |fs.slots| && fs.slots[k].None? && k / 8 < |fs.dir| && OnDisk(fs.dir[k / 8])
    requires OnDisk(w.first) && |name| == NAME && kind != 0
    requires r == WithEntry(img[fs.dir[k / 8]], k % 8, kind, w.first, name, w.blocks)
    ensures var out := img[fs.dir[k / 8] := r][BAM1 := bam.lo][BAM2 := bam.hi];
            if job.Filling? && NewName(fs.slots, name) then
              Whole(out) && In(out, WithFile(fs, k, File(name, kind, job.chain, job.data)), Idle)
            else w.blocks < 0x1_0000 ==> Spoilt(out)
  {
    var d := img[fs.dir[k / 8]];
    if job.Filling? {
      FilledClosed(img, fs, bam, File(name, kind, job.chain, job.data), k, r);
    } else if w.blocks < 0x1_0000 {
      EntryRaw(d, k % 8, kind, w.first, name, w.blocks);
      StrayClosed(img, fs, bam, job.taken, w.first, w.blocks, k, r);
    }
  }

  lemma FilledClosed(img: Image, fs: Fs, bam: Bam, f: File, k: nat, r: Buffer)
    requires Whole(img) && In(img, fs, Written(bam, f)) && In(img, fs, Loose(bam, f.chain)) && Shaped(bam)
    requires k < |fs.slots| && fs.slots[k].None? && k / 8 < |fs.dir| && OnDisk(fs.dir[k / 8])
    requires |f.chain| >= 1 && OnDisk(f.chain[0]) && |f.name| == NAME && f.kind != 0
    requires r == WithEntry(img[fs.dir[k / 8]], k % 8, f.kind, f.chain[0], f.name, |f.chain|)
    ensures var out := img[fs.dir[k / 8] := r][BAM1 := bam.lo][BAM2 := bam.hi];
            if NewName(fs.slots, f.name) then Whole(out) && In(out, WithFile(fs, k, f), Idle) else Spoilt(out)
  {
    FirstOf(img, fs, bam, f);
    EntryMade(img[fs.dir[k / 8]], k % 8, f);
    if NewName(fs.slots, f.name) {
      Entered(img, fs, bam, f, k, r);
      Saved(img[fs.dir[k / 8] := r], WithFile(fs, k, f), bam);
    } else {
      var j :| 0 <= j < |fs.slots| && fs.slots[j].Some? && fs.slots[j].value.name == f.name;
      TwiceClosed(img, fs, bam, k, j, r, f);
    }
  }

  /** A reader's link is to block `at` of a file, or it is past the last. */
  ghost predicate StandsAt(f: File, at: nat, t: u8, s: u8)
  {
    if at == |f.chain| then t == 0
    else at < |f.chain| && Blk(t, s) == f.chain[at] && DATA * at <= |f.data|
  }

  /** The bytes from there. */
  ghost function Left(f: File, at: nat): seq<u8>
    requires at == |f.chain| || DATA * at <= |f.data|
  {
    if at == |f.chain| then [] else f.data[DATA * at..]
  }

  class Dos {
    const disk: Floppy
    var bam: Bam
    var blk: Buffer               // one block: of data, or of the directory
    var open: bool
    var kind: u8
    var w: Writer
    var fname: seq<u8>
    var rdT: u8                   // the reader: its next block, track 0 at the end
    var rdS: u8
    var rdOpen: bool
    ghost var rdSlot: nat
    ghost var rdAt: nat
    ghost var fs: Fs
    ghost var job: Job            // what is being written
    ghost var img: Image          // what the disk holds

    ghost predicate Mounted()
      reads this`img, disk, disk.sectors
    {
      disk.Valid() && disk.Held() == img
    }

    /** The disk is well-formed: it is at all times but within an operation. */
    ghost predicate Steady()
      reads this`img, this`fs, disk, disk.sectors
    {
      Mounted() && Whole(img) && In(img, fs, Idle)
    }

    ghost predicate Valid()
      reads this, disk, disk.sectors
    {
      Steady() && (open ==> kind != 0 && w.pos < BLOCK && Working(img, fs, bam, blk, w, job))
    }

    /** The file being written can be closed: its blocks are taken in the map in memory, and its name is new. */
    ghost predicate Sound()
      reads this`fs, this`job, this`fname
    {
      job.Filling? && NewName(fs.slots, NameOf(fname))
    }

    /** A mounted disk. */
    constructor (disk: Floppy, ghost fs: Fs)
      requires disk.Valid() && WellFormed(disk.Held(), fs)
      ensures Valid() && this.disk == disk && this.fs == fs && !open
    {
      Open(disk.Held(), fs, Idle);
      this.disk, this.fs, this.img := disk, fs, disk.Held();
      bam := Bam([], []);
      blk := seq<u8>(BLOCK, _ => 0);
      open, kind, w, fname := false, 0, Writer(Blk(0, 0), Blk(0, 0), 0, 0), [];
      job := Adrift([]);
      rdT, rdS, rdOpen, rdSlot, rdAt := 0, 0, false, 0, 0;
    }

    /** One block of the directory or of a file, into the buffer. */
    method Fetch(t: u8, s: u8)
      requires Mounted() && OnDisk(Blk(t, s))
      modifies this`blk, disk.buf
      ensures Mounted() && Blk(t, s) in img && blk == img[Blk(t, s)]
    {
      var ok, d := disk.ReadBlock(t, s);
      blk := d;
    }

    /** The buffer, onto the disk. */
    method Store(t: u8, s: u8)
      requires Mounted() && OnDisk(Blk(t, s))
      modifies this`img, disk.buf, disk.sectors
      ensures Mounted() && img == old(img)[Blk(t, s) := blk]
    {
      var ok := disk.WriteBlock(t, s, blk);
      img := img[Blk(t, s) := blk];
    }

    /** bam_load. */
    method LoadBam()
      requires Mounted() && Whole(img)
      modifies this`bam, disk.buf
      ensures Mounted() && bam == BamOf(img)
    {
      var ok, lo := disk.ReadBlock(40, 1);
      var ok2, hi := disk.ReadBlock(40, 2);
      bam := Bam(lo, hi);
    }

    /** bam_save. */
    method SaveBam()
      requires Mounted() && Whole(img) && Shaped(bam)
      modifies this`img, disk.buf, disk.sectors
      ensures Mounted() && Whole(img) && img == old(img)[BAM1 := bam.lo][BAM2 := bam.hi] && BamOf(img) == bam
    {
      var ok := disk.WriteBlock(40, 1, bam.lo);
      var ok2 := disk.WriteBlock(40, 2, bam.hi);
      img := img[BAM1 := bam.lo][BAM2 := bam.hi];
    }

    /** A caller's name as it is kept: at most sixteen characters, the lower-case ones in upper case. */
    method FoldName(name: seq<u8>) returns (f: seq<u8>)
      ensures f == Upper(name)
    {
      f := [];
      var i := 0;
      while i < 16 && i < |name|
        invariant 0 <= i <= |Cut(name)| && f == Upper(name)[..i]
      {
        var c := name[i];
        if c >= 0x61 && c <= 0x7a {
          c := c - 32;
        }
        f := f + [c];
        i := i + 1;
      }
    }

    /** A name as it is compared and entered: sixteen characters, A0 after the last. */
    method PadName(name: seq<u8>) returns (n: seq<u8>)
      ensures n == NameOf(name)
    {
      n := [];
      var i := 0;
      while i < 16
        invariant 0 <= i <= 16 && n == NameOf(name)[..i]
      {
        n := n + [if i < |name| then name[i] else 0xa0];
        i := i + 1;
      }
    }

    /** A name among the eight entries of the directory block in the buffer. */
    method ScanEntries(want: seq<u8>, ghost eight: seq<Option<File>>) returns (e: nat)
      requires |want| == NAME && |eight| == 8 && EntriesAre(blk, eight)
      ensures e <= 8 && (e < 8 ==> eight[e].Some? && eight[e].value.name == want)
      ensures forall j :: 0 <= j < e && eight[j].Some? ==> eight[j].value.name != want
    {
      e := 0;
      while e < 8
        invariant 0 <= e <= 8
        invariant forall j :: 0 <= j < e && eight[j].Some? ==> eight[j].value.name != want
      {
        assert EntryIs(blk, e, eight[e]);
        if blk[e * 32 + 2] != 0 && blk[e * 32 + 5..e * 32 + 21] == want {
          return;
        }
        e := e + 1;
      }
    }

    /** dir_find_name: the entry of a name, and where it is. */
    method Lookup(want: seq<u8>) returns (found: bool, t: u8, s: u8, e: nat, ghost i: nat)
      requires Steady() && |want| == NAME
      modifies this`blk, disk.buf
      ensures Mounted()
      ensures !found ==> NewName(fs.slots, want)
      ensures found ==>
                && i < |fs.dir| && e < 8 && 8 * i + 8 <= |fs.slots| && OnDisk(fs.dir[i]) && Blk(t, s) == fs.dir[i]
                && blk == img[fs.dir[i]] && EntryIs(blk, e, fs.slots[8 * i + e])
                && fs.slots[8 * i + e].Some? && fs.slots[8 * i + e].value.name == want
    {
      t, s, i := 40, 3, 0;
      DirShape(img, fs, Idle);
      while true
        invariant 0 <= i < |fs.dir| && Blk(t, s) == fs.dir[i] && Mounted()
        invariant forall j :: 0 <= j < 8 * i && fs.slots[j].Some? ==> fs.slots[j].value.name != want
        decreases |fs.dir| - i
      {
        DirBlock(img, fs, Idle, i);
        Fetch(t, s);
        ghost var eight := fs.slots[8 * i..8 * i + 8];
        e := ScanEntries(want, eight);
        if e < 8 {
          found := true;
          assert EntryIs(blk, e, eight[e]);
          return;
        }
        NotInEight(fs.slots, i, want);
        if blk[0] == 0 {
          found := false;
          return;
        }
        t, s := blk[0], blk[1];
        i := i + 1;
      }
    }

    /** cbmdos_create_as: whatever was open is forgotten. */
    method Create(name: seq<u8>, kind: u8) returns (err: Error)
      requires Valid() && Text(name) && kind != 0
      modifies this`kind, this`open, this`w, this`fname, this`blk, this`bam, this`job, disk.buf
      ensures Valid()
      ensures err == if name == [] then Io
                     else if !NewName(fs.slots, NameOf(Upper(name))) then Exists
                     else if Avail(BamOf(img)) == 0 then Full
                     else Ok
      ensures open == (err == Ok)
      ensures open ==> Sound() && job == Filling([w.cur], []) && w == Writer(w.cur, w.cur, 2, 1)
                       && FirstFree(BamOf(img), w.cur) && this.kind == kind && fname == Upper(name)
    {
      this.kind, open := kind, false;
      w := w.(blocks := 0);
      fname := FoldName(name);
      if name == [] {
        return Io;
      }
      err := CreateNamed();
    }

    method CreateNamed() returns (err: Error)
      requires Steady() && kind != 0 && !open
      modifies this`open, this`w, this`blk, this`bam, this`job, disk.buf
      ensures Valid() && open == (err == Ok)
      ensures err == if !NewName(fs.slots, NameOf(fname)) then Exists else if Avail(BamOf(img)) == 0 then Full else Ok
      ensures open ==> job == Filling([w.cur], []) && w == Writer(w.cur, w.cur, 2, 1) && FirstFree(BamOf(img), w.cur)
    {
      var want := PadName(fname);
      var found, t, s, e, i := Lookup(want);
      if found {
        return Exists;
      }
      err := Begin();
    }

    /** The free map loaded, and a first block taken. */
    method Begin() returns (err: Error)
      requires Steady() && kind != 0 && !open
      modifies this`bam, this`w, this`open, this`job, disk.buf
      ensures Valid() && err == if Avail(BamOf(img)) == 0 then Full else Ok
      ensures open == (err == Ok)
      ensures open ==> job == Filling([w.cur], []) && w == Writer(w.cur, w.cur, 2, 1) && FirstFree(BamOf(img), w.cur)
    {
      AtIdle(img, fs);
      LoadBam();
      var b;
      b, bam := Take(bam);
      if b.None? {
        return Full;
      }
      Aim(b.value);
      err := Ok;
    }

    method Aim(b: Blk)
      requires Steady() && kind != 0 && FirstFree(BamOf(img), b) && bam == Alloc(BamOf(img), b)
      modifies this`w, this`open, this`job
      ensures Valid() && open && job == Filling([b], []) && w == Writer(b, b, 2, 1)
    {
      WorkBegins(img, fs, b, blk);
      w, open, job := Writer(b, b, 2, 1), true, Filling([b], []);
    }

    /** cbmdos_put: the next block is taken as soon as one is full. */
    method Put(b: u8) returns (err: Error)
      requires Valid()
      modifies this`blk, this`open, this`bam, this`w, this`job, this`img, disk.buf, disk.sectors
      ensures Valid() && BamOf(img) == BamOf(old(img))
      ensures err == if !old(open) then NotOpen else if old(w.pos) == 255 && Avail(old(bam)) == 0 then Full else Ok
      ensures open == (err == Ok)
      ensures open && old(w.pos) < 255 ==>
                w == old(w).(pos := old(w).pos + 1) && job == More(old(job), b) && bam == old(bam) && img == old(img)
      ensures open && old(w.pos) == 255 ==>
                && w == Writer(w.cur, old(w).first, 2, old(w).blocks + 1) && job == Onward(More(old(job), b), w.cur)
                && FirstFree(old(bam), w.cur) && OnDisk(old(w).cur) && LinksTo(img[old(w).cur], w.cur)
    {
      if !open {
        return NotOpen;
      }
      WorkByte(img, fs, bam, blk, w, job, b);
      blk := blk[w.pos := b];
      w := w.(pos := w.pos + 1);
      job := More(job, b);
      if w.pos < BLOCK {
        return Ok;
      }
      err := NextLink();
    }

    /** A full block: linked to the next one, and written. */
    method NextLink() returns (err: Error)
      requires Steady() && open && kind != 0 && w.pos == BLOCK && Working(img, fs, bam, blk, w, job)
      modifies this`blk, this`open, this`bam, this`w, this`job, this`img, disk.buf, disk.sectors
      ensures Valid() && BamOf(img) == BamOf(old(img))
      ensures err == (if Avail(old(bam)) == 0 then Full else Ok) && open == (err == Ok)
      ensures open ==>
                && w == Writer(w.cur, old(w).first, 2, old(w).blocks + 1) && job == Onward(old(job), w.cur)
                && FirstFree(old(bam), w.cur) && OnDisk(old(w).cur) && LinksTo(img[old(w).cur], w.cur)
    {
      WorkMap(img, fs, bam, blk, w, job);
      var b, r := Take(bam);
      if b.None? {
        open := false;
        return Full;
      }
      Link(b.value, r);
      err := Ok;
    }

    /** The block in the buffer written with its link, and the writer at the next. */
    method Link(b: Blk, r: Bam)
      requires Steady() && kind != 0 && w.pos == BLOCK && Working(img, fs, bam, blk, w, job)
      requires FirstFree(bam, b) && r == Alloc(bam, b)
      modifies this`blk, this`bam, this`w, this`job, this`img, disk.buf, disk.sectors
      ensures Valid() && BamOf(img) == BamOf(old(img))
      ensures w == Writer(b, old(w).first, 2, old(w).blocks + 1) && job == Onward(old(job), b)
      ensures OnDisk(old(w).cur) && LinksTo(img[old(w).cur], b)
    {
      ghost var d, v, j := LinkTo(blk, b), Writer(b, w.first, 2, w.blocks + 1), Onward(job, b);
      ghost var out, fs0 := img[w.cur := d], fs;
      WorkLinks(img, fs0, bam, blk, w, job, b);
      WriteLinked(b, r);
      job := j;
      Resumed(out, fs0, r, d, v, j);
    }

    method WriteLinked(b: Blk, r: Bam)
      requires Mounted() && OnDisk(w.cur) && OnDisk(b)
      modifies this`blk, this`bam, this`w, this`img, disk.buf, disk.sectors
      ensures Mounted() && img == old(img)[old(w).cur := LinkTo(old(blk), b)]
      ensures blk == LinkTo(old(blk), b) && bam == r && w == Writer(b, old(w).first, 2, old(w).blocks + 1)
    {
      bam, blk := r, LinkTo(blk, b);
      assert Blk(w.cur.t, w.cur.s) == w.cur;
      Store(w.cur.t, w.cur.s);
      w := Writer(b, w.first, 2, w.blocks + 1);
    }

    /** The writer is at work on what the fields hold. */
    lemma Resumed(out: Image, g: Fs, m: Bam, d: Buffer, v: Writer, j: Job)
      requires Mounted() && img == out && fs == g && bam == m && blk == d && w == v && job == j && kind != 0
      requires Whole(out) && In(out, g, Idle) && Working(out, g, m, d, v, j) && v.pos < BLOCK
      ensures Valid()
    {
    }

    /** The file being written, as it will be entered. */
    ghost function New(): File
      requires job.Filling?
      reads this`fname, this`kind, this`job
    {
      File(NameOf(fname), kind, job.chain, job.data)
    }

    /** The last block, as it is written. */
    method LastBlock()
      requires Mounted() && Whole(img) && OnDisk(w.cur) && 2 <= w.pos < BLOCK
      modifies this`blk, this`img, disk.buf, disk.sectors
      ensures Mounted() && img == old(img)[w.cur := blk] && IsLast(blk, old(blk), w.pos)
    {
      ghost var i, g, m, was, v, j := img, fs, bam, blk, w, job;
      blk := blk[0 := 0][1 := w.pos - 1];
      assert blk[2..w.pos] == was[2..w.pos];
      ClearTail(w.pos);
      Store(w.cur.t, w.cur.s);
    }

    /** No stale bytes after the last one. */
    method ClearTail(from: nat)
      requires 2 <= from <= BLOCK
      modifies this`blk
      ensures blk[0] == old(blk)[0] && blk[1] == old(blk)[1] && blk[2..from] == old(blk)[2..from]
    {
      var i := from;
      while i < BLOCK
        invariant from <= i <= BLOCK && forall j :: 0 <= j < from ==> blk[j] == old(blk)[j]
      {
        blk := blk[i := 0];
        i := i + 1;
      }
    }

    /** An empty entry among the eight of the directory block in the buffer. */
    method ScanEmpty(ghost eight: seq<Option<File>>) returns (e: nat)
      requires |eight| == 8 && EntriesAre(blk, eight)
      ensures e <= 8 && (e < 8 ==> eight[e].None?)
      ensures forall j :: 0 <= j < e ==> eight[j].Some?
    {
      e := 0;
      while e < 8
        invariant 0 <= e <= 8 && forall j :: 0 <= j < e ==> eight[j].Some?
      {
        assert EntryIs(blk, e, eight[e]);
        if blk[e * 32 + 2] == 0 {
          return;
        }
        e := e + 1;
      }
    }

    /** dir_find_slot: the first empty slot, or the first of a block the directory is grown by. */
    method FindSlot(ghost taken: seq<Blk>) returns (ok: bool, t: u8, s: u8, e: nat, ghost i: nat)
      requires Mounted() && Whole(img) && In(img, fs, Loose(bam, taken))
      modifies this`blk, this`bam, this`img, this`fs, disk.buf, disk.sectors
      ensures Mounted() && Whole(img) && In(img, fs, Loose(bam, taken))
      ensures ok == HasRoom(old(fs)) && (!ok ==> img == old(img) && fs == old(fs))
      ensures SameData(old(img), img) && SameOwners(old(fs), fs)
      ensures ok ==>
                && i < |fs.dir| && e < 8 && 8 * i + e < |fs.slots| && OnDisk(fs.dir[i]) && Blk(t, s) == fs.dir[i]
                && blk == img[fs.dir[i]] && fs.slots[8 * i + e].None? && fs.slots == Grown(old(fs.slots), 8 * i + e)
    {
      t, s, i := 40, 3, 0;
      DirShape(img, fs, Loose(bam, taken));
      while true
        invariant 0 <= i < |fs.dir| && Blk(t, s) == fs.dir[i] && Mounted() && fs == old(fs) && img == old(img)
        invariant bam == old(bam) && forall j :: 0 <= j < 8 * i ==> fs.slots[j].Some?
        decreases |fs.dir| - i
      {
        DirBlock(img, fs, Loose(bam, taken), i);
        Fetch(t, s);
        ghost var eight := fs.slots[8 * i..8 * i + 8];
        e := ScanEmpty(eight);
        if e < 8 {
          assert eight[e] == fs.slots[8 * i + e];
          ok := true;
          return;
        }
        assert forall j :: 8 * i <= j < 8 * i + 8 ==> fs.slots[j] == eight[j - 8 * i];
        if blk[0] == 0 {
          ok, t, s, e := Grow(t, s, taken);
          i := i + 1;
          return;
        }
        t, s := blk[0], blk[1];
        i := i + 1;
      }
    }

    /** The directory grown, if its track has a block: the last one, in the buffer, linked to the new empty one. */
    method Grow(lastT: u8, lastS: u8, ghost taken: seq<Blk>) returns (ok: bool, t: u8, s: u8, e: nat)
      requires Mounted() && Whole(img) && In(img, fs, Loose(bam, taken))
      requires |fs.dir| >= 1 && |fs.slots| == 8 * |fs.dir| && Blk(lastT, lastS) == fs.dir[|fs.dir| - 1]
      requires OnDisk(fs.dir[|fs.dir| - 1]) && lastT == 40 && blk == img[fs.dir[|fs.dir| - 1]]
      requires forall j :: 0 <= j < |fs.slots| ==> fs.slots[j].Some?
      modifies this`blk, this`bam, this`img, this`fs, disk.buf, disk.sectors
      ensures Mounted() && Whole(img) && In(img, fs, Loose(bam, taken))
      ensures ok == HasRoom(old(fs)) && (!ok ==> img == old(img) && fs == old(fs))
      ensures SameData(old(img), img) && SameOwners(old(fs), fs)
      ensures ok ==>
                && e == 0 && fs.dir == old(fs.dir) + [Blk(t, s)] && OnDisk(Blk(t, s)) && blk == img[Blk(t, s)]
                && fs.slots == old(fs.slots) + EIGHT
    {
      DirTrackFree(img, fs, bam, taken);
      var n := Scan(bam, DIR_TRACK);
      if n.None? {
        return false, 0, 0, 0;
      }
      t, s, e := DIR_TRACK, n.value, 0;
      ghost var b := Blk(t, s);
      bam := GrowMap(bam, s, img, fs, taken, LinkTo(blk, b), EmptyBlock());
      Append(lastT, lastS, t, s);
      fs := WithDir(fs, b);
      ok := true;
    }

    /** The last block of the directory linked to the new one, which is empty. */
    method Append(lastT: u8, lastS: u8, t: u8, s: u8)
      requires Mounted() && OnDisk(Blk(lastT, lastS)) && OnDisk(Blk(t, s))
      modifies this`blk, this`img, disk.buf, disk.sectors
      ensures Mounted() && blk == EmptyBlock()
      ensures img == old(img)[Blk(lastT, lastS) := LinkTo(old(blk), Blk(t, s))][Blk(t, s) := EmptyBlock()]
      ensures img == Stopped.After(old(img), Stopped.GrowWrites(Blk(lastT, lastS), LinkTo(old(blk), Blk(t, s)),
                                                                Blk(t, s), EmptyBlock()))
    {
      Stopped.GrowOrder(img, Blk(lastT, lastS), LinkTo(blk, Blk(t, s)), Blk(t, s), EmptyBlock(), 2);
      blk := blk[0 := t][1 := s];
      Store(lastT, lastS);
      ClearBlock();
      Store(t, s);
    }

    /** A block recycled for the directory: cleared, and the last of its chain. */
    method ClearBlock()
      modifies this`blk
      ensures blk == EmptyBlock()
    {
      var i := 0;
      while i < 255
        invariant 0 <= i <= 255 && forall k :: 0 <= k < i ==> blk[k] == 0
      {
        blk := blk[i := 0];
        i := i + 1;
      }
      blk := blk[255 := 0];
      blk := blk[0 := 0];
      blk := blk[1 := 0xff];
      assert forall k :: 0 <= k < BLOCK ==> blk[k] == EmptyBlock()[k];
    }

    /** The entry of the new file, into its slot of the directory block in the buffer and onto the disk. */
    method WriteEntry(t: u8, s: u8, e: nat)
      requires Mounted() && Whole(img) && OnDisk(Blk(t, s)) && blk == img[Blk(t, s)] && e < 8 && OnDisk(w.first)
      modifies this`blk, this`img, disk.buf, disk.sectors
      ensures Mounted() && Whole(img) && img == old(img)[Blk(t, s) := blk]
      ensures blk == WithEntry(old(blk), e, kind, w.first, NameOf(fname), w.blocks)
    {
      var name := PadName(fname);
      blk := Splice(blk, e * 32 + 2, EntryBytes(kind, w.first.t, w.first.s, name, w.blocks));
      Store(t, s);
    }

    /** cbmdos_close: the last block, the entry, and the free map.  The disk holds the new file, and is well-formed, if
        the file was sound; if not, an entry was made all the same, and nothing the disk could hold is well-formed. */
    method Close() returns (err: Error, ghost k: nat)
      requires Valid()
      modifies this`open, this`blk, this`bam, this`img, this`fs, disk.buf, disk.sectors
      ensures Mounted() && !open
      ensures err == if !old(open) then NotOpen else if !HasRoom(old(fs)) then DirFull else Ok
      ensures err != Ok ==> Valid() && fs == old(fs) && BamOf(img) == BamOf(old(img))
      ensures err == Ok && old(Sound()) ==>
                && Valid() && k < |fs.slots| && k < |Grown(old(fs.slots), k)| && Grown(old(fs.slots), k)[k].None?
                && fs.slots == Grown(old(fs.slots), k)[k := Some(old(New()))]
      ensures err == Ok && !old(Sound()) && w.blocks < 0x1_0000 ==> Spoilt(disk.Held())
    {
      k := 0;
      if !open {
        return NotOpen, k;
      }
      open := false;
      ghost var img0, blk0 := img, blk;
      LastBlock();
      WorkEnds(img0, fs, bam, blk0, w, job, blk, NameOf(fname), kind);
      err, k := Enter();
    }

    /** The file entered, if the directory has room. */
    method Enter() returns (err: Error, ghost k: nat)
      requires Steady() && !open && OnDisk(w.first) && kind != 0 && In(img, fs, Loose(bam, Held(job)))
      requires Ended(img, fs, bam, w, job, NameOf(fname), kind)
      modifies this`blk, this`bam, this`img, this`fs, disk.buf, disk.sectors
      ensures Mounted() && err == (if !HasRoom(old(fs)) then DirFull else Ok)
      ensures err != Ok ==> Valid() && fs == old(fs) && img == old(img)
      ensures err == Ok && old(Sound()) ==>
                && Valid() && k < |fs.slots| && k < |Grown(old(fs.slots), k)| && Grown(old(fs.slots), k)[k].None?
                && fs.slots == Grown(old(fs.slots), k)[k := Some(old(New()))]
      ensures err == Ok && !old(Sound()) && w.blocks < 0x1_0000 ==> Spoilt(disk.Held())
    {
      k := 0;
      ghost var fs0 := fs;
      var ok, t, s, e;
      ok, t, s, e, k := Slot();
      if !ok {
        return DirFull, k;
      }
      GrownName(fs0.slots, k, NameOf(fname));
      WriteSlot(t, s, e, k);
      err := Ok;
    }

    /** A slot for the file, in the directory block in the buffer. */
    method Slot() returns (ok: bool, t: u8, s: u8, e: nat, ghost k: nat)
      requires Mounted() && Whole(img) && In(img, fs, Loose(bam, Held(job)))
      requires Ended(img, fs, bam, w, job, NameOf(fname), kind)
      modifies this`blk, this`bam, this`img, this`fs, disk.buf, disk.sectors
      ensures Mounted() && Whole(img) && ok == HasRoom(old(fs)) && (!ok ==> img == old(img) && fs == old(fs))
      ensures ok ==> In(img, fs, Loose(bam, Held(job))) && Ended(img, fs, bam, w, job, NameOf(fname), kind)
      ensures ok ==>
                && e < 8 && k % 8 == e && k / 8 < |fs.dir| && k < |fs.slots| && fs.slots[k].None?
                && OnDisk(fs.dir[k / 8]) && Blk(t, s) == fs.dir[k / 8] && blk == img[fs.dir[k / 8]]
                && fs.slots == Grown(old(fs.slots), k)
    {
      ghost var img0, fs0, bam0 := img, fs, bam;
      ghost var i;
      ok, t, s, e, i := FindSlot(Held(job));
      k := 8 * i + e;
      if ok {
        StillEnded(img0, fs0, bam0, img, fs, bam, w, job, NameOf(fname), kind);
      }
    }

    /** The entry and the free map written. */
    method WriteSlot(t: u8, s: u8, e: nat, ghost k: nat)
      requires Mounted() && Whole(img) && In(img, fs, Loose(bam, Held(job))) && OnDisk(w.first) && kind != 0 && !open
      requires Ended(img, fs, bam, w, job, NameOf(fname), kind)
      requires e < 8 && k % 8 == e && k / 8 < |fs.dir| && k < |fs.slots| && fs.slots[k].None?
      requires OnDisk(fs.dir[k / 8]) && Blk(t, s) == fs.dir[k / 8] && blk == img[fs.dir[k / 8]]
      modifies this`blk, this`img, this`fs, disk.buf, disk.sectors
      ensures Mounted()
      ensures if old(Sound()) then Valid() && fs == WithFile(old(fs), k, New())
              else fs == old(fs) && (w.blocks < 0x1_0000 ==> Spoilt(disk.Held()))
      ensures img == Stopped.After(old(img), Stopped.EntryWrites(Blk(t, s), blk, bam))
    {
      ghost var img0 := img;
      LooseMap(img, fs, bam, Held(job));
      WriteEntry(t, s, e);
      ClosedAs(img0, fs, bam, w, job, NameOf(fname), kind, k, blk);
      SaveBam();
      Stopped.EntryAll(img0, Blk(t, s), blk, bam);
      if Sound() {
        fs := WithFile(fs, k, New());
      }
    }

    /** A whole file written: created, put byte by byte, and closed.  It succeeds exactly when the name is new, there
        is a block for every 254 bytes and one more, and the directory has room. */
    method WriteFile(name: seq<u8>, kind: u8, bytes: seq<u8>) returns (err: Error, ghost k: nat)
      requires Valid() && Text(name) && kind != 0
      modifies this, disk.buf, disk.sectors
      ensures Valid() && !open
      ensures err == if name == [] then Io
                     else if !NewName(old(fs).slots, NameOf(Upper(name))) then Exists
                     else if Avail(BamOf(old(img))) < |bytes| / DATA + 1 then Full
                     else if !HasRoom(old(fs)) then DirFull
                     else Ok
      ensures err != Ok ==> fs == old(fs) && BamOf(img) == BamOf(old(img))
      ensures err == Ok ==>
                && k < |fs.slots| && k < |Grown(old(fs.slots), k)| && Grown(old(fs.slots), k)[k].None? && fs.slots[k].Some?
                && fs.slots == Grown(old(fs.slots), k)[k := fs.slots[k]]
                && var f := fs.slots[k].value;
                   f.name == NameOf(Upper(name)) && f.kind == kind && f.data == bytes && |f.chain| == |bytes| / DATA + 1
    {
      k := 0;
      err := Create(name, kind);
      if err == Ok {
        err, k := Fill(bytes);
      }
    }

    /** The bytes put into a file just created, and the file closed. */
    method Fill(bytes: seq<u8>) returns (err: Error, ghost k: nat)
      requires Valid() && open && Sound() && job.data == []
      modifies this`blk, this`open, this`bam, this`w, this`job, this`img, this`fs, disk.buf, disk.sectors
      ensures Valid() && !open
      ensures err == if Avail(BamOf(old(img))) < |bytes| / DATA + 1 then Full else if !HasRoom(old(fs)) then DirFull else Ok
      ensures err != Ok ==> fs == old(fs) && BamOf(img) == BamOf(old(img))
      ensures err == Ok ==>
                && k < |fs.slots| && k < |Grown(old(fs.slots), k)| && Grown(old(fs.slots), k)[k].None? && fs.slots[k].Some?
                && fs.slots == Grown(old(fs.slots), k)[k := fs.slots[k]]
                && var f := fs.slots[k].value;
                   f.name == NameOf(fname) && f.kind == kind && f.data == bytes && |f.chain| == |bytes| / DATA + 1
    {
      err := PutAll(bytes);
      if err != Ok {
        var e, k2 := Close();
        return err, 0;
      }
      WorkMap(img, fs, bam, blk, w, job);
      BlocksFor(|bytes|, |job.chain|, w.pos);
      err, k := Close();
    }

    /** Every byte put, or as many as there are blocks for. */
    method PutAll(bytes: seq<u8>) returns (err: Error)
      requires Valid() && open && job.Filling? && job.data == []
      modifies this`blk, this`open, this`bam, this`w, this`job, this`img, disk.buf, disk.sectors
      ensures Valid() && BamOf(img) == BamOf(old(img)) && open == (err == Ok)
      ensures err == Ok || err == Full
      ensures err == Full ==> Avail(BamOf(old(img))) < |bytes| / DATA + 1
      ensures err == Ok ==> job.Filling? && job.data == bytes
    {
      var i := 0;
      while i < |bytes|
        invariant 0 <= i <= |bytes| && Valid() && open && BamOf(img) == BamOf(old(img))
        invariant job.Filling? && job.data == bytes[..i]
      {
        ghost var n := |job.chain|;
        WorkMap(img, fs, bam, blk, w, job);
        assert bytes[..i + 1] == bytes[..i] + [bytes[i]];
        err := Put(bytes[i]);
        i := i + 1;
        if err != Ok {
          MoreThan(|bytes|, i, n);
          return;
        }
      }
      err := Ok;
    }

    /** cbmdos_delete: the file's blocks, and no others, are free again.  A file that is being written loses the blocks
        it had taken in memory, and its name. */
    method Delete(name: seq<u8>) returns (err: Error, ghost k: nat)
      requires Valid() && Text(name)
      modifies this`fname, this`blk, this`bam, this`img, this`fs, this`job, disk.buf, disk.sectors
      ensures Valid()
      ensures err == if name == [] then Io else if NewName(old(fs).slots, NameOf(Upper(name))) then NotFound else Ok
      ensures err != Ok ==> fs == old(fs) && img == old(img)
      ensures err == Io ==> job == old(job) && fname == old(fname)
      ensures err != Io ==> job == Adrift([]) && fname == Upper(name) && bam == BamOf(img)
      ensures err == Ok ==>
                && k < |old(fs).slots| && old(fs).slots[k].Some? && old(fs).slots[k].value.name == NameOf(Upper(name))
                && fs == WithoutFile(old(fs), k)
                && Avail(BamOf(img)) == Avail(BamOf(old(img))) + |old(fs).slots[k].value.chain|
    {
      k := 0;
      if name == [] {
        return Io, k;
      }
      fname := FoldName(name);
      ghost var img0, fs0, was := img, fs, blk;
      if open {
        WorkStrays(img, fs, bam, blk, w, job, blk);
      }
      LoadBam();
      err, k := DeleteNamed();
      Stray(img0, fs0, was, err == Ok, k);
    }

    /** The file being written has lost its map. */
    ghost method Stray(img0: Image, fs0: Fs, was: Buffer, gone: bool, k: nat)
      requires Steady() && bam == BamOf(img)
      requires if gone then k < |fs0.slots| && fs == WithoutFile(fs0, k) else fs == fs0 && img == img0
      requires open ==>
                 kind != 0 && w.pos < BLOCK && Whole(img0) && Working(img0, fs0, BamOf(img0), was, w, Adrift([]))
      modifies this`job
      ensures Valid() && job == Adrift([])
    {
      job := Adrift([]);
      if open {
        if gone {
          StraysOn(img0, fs0, was, w, img, k, blk);
        } else {
          WorkStrays(img, fs, bam, was, w, job, blk);
        }
      }
    }

    method DeleteNamed() returns (err: Error, ghost k: nat)
      requires Steady() && bam == BamOf(img)
      modifies this`blk, this`bam, this`img, this`fs, disk.buf, disk.sectors
      ensures Steady() && bam == BamOf(img)
      ensures err == if NewName(old(fs).slots, NameOf(fname)) then NotFound else Ok
      ensures err != Ok ==> fs == old(fs) && img == old(img)
      ensures err == Ok ==>
                && k < |old(fs).slots| && old(fs).slots[k].Some? && old(fs).slots[k].value.name == NameOf(fname)
                && fs == WithoutFile(old(fs), k)
                && Avail(BamOf(img)) == Avail(BamOf(old(img))) + |old(fs).slots[k].value.chain|
    {
      k := 0;
      var want := PadName(fname);
      var found, t, s, e, i := Lookup(want);
      if !found {
        return NotFound, k;
      }
      k := 8 * i + e;
      Remove(t, s, e, i);
      err := Ok;
    }

    /** A file's chain freed, its entry cleared, and the free map saved. */
    method Remove(t: u8, s: u8, e: nat, ghost i: nat)
      requires Steady() && bam == BamOf(img)
      requires i < |fs.dir| && e < 8 && 8 * i + e < |fs.slots| && OnDisk(fs.dir[i]) && Blk(t, s) == fs.dir[i]
      requires fs.slots[8 * i + e].Some? && EntryIs(blk, e, fs.slots[8 * i + e])
      modifies this`blk, this`bam, this`img, this`fs, disk.buf, disk.sectors
      ensures Steady() && fs == WithoutFile(old(fs), 8 * i + e) && bam == BamOf(img)
      ensures Avail(BamOf(img)) == Avail(BamOf(old(img))) + |old(fs).slots[8 * i + e].value.chain|
      ensures img == Stopped.After(old(img), Stopped.EntryWrites(Blk(t, s), blk, bam))
    {
      ghost var k, img0 := 8 * i + e, img;
      FreeBegins(img, fs, k);
      FreeChain(blk[e * 32 + 3], blk[e * 32 + 4], k);
      FreeingMap(img, fs, bam, k, |fs.slots[k].value.chain|);
      ClearEntry(t, s, e, i);
      Saved(img, fs, bam);
      SaveBam();
      Stopped.EntryAll(img0, Blk(t, s), blk, bam);
    }

    /** The blocks of a file's chain freed in memory, at most as many as a disk has. */
    method FreeChain(firstT: u8, firstS: u8, ghost k: nat)
      requires Mounted() && Whole(img) && k < |fs.slots| && fs.slots[k].Some? && In(img, fs, Freeing(bam, k, 0))
      requires |fs.slots[k].value.chain| >= 1 && Blk(firstT, firstS) == fs.slots[k].value.chain[0]
      modifies this`blk, this`bam, disk.buf
      ensures Mounted() && In(img, fs, Freeing(bam, k, |fs.slots[k].value.chain|))
    {
      var t, s, guard := firstT, firstS, 0;
      ghost var f := fs.slots[k].value;
      SlotBlock(img, fs, Freeing(bam, k, 0), k, 0);
      while t != 0 && guard < 3200
        invariant Mounted() && In(img, fs, Freeing(bam, k, guard)) && guard <= |f.chain|
        invariant guard < |f.chain| ==> Blk(t, s) == f.chain[guard] && OnDisk(f.chain[guard])
        invariant guard == |f.chain| ==> t == 0
        decreases 3200 - guard
      {
        FreeBlock(t, s, k, guard);
        t, s := blk[0], blk[1];
        guard := guard + 1;
      }
    }

    /** One of them; its link is in the buffer. */
    method FreeBlock(t: u8, s: u8, ghost k: nat, ghost n: nat)
      requires Mounted() && Whole(img) && k < |fs.slots| && fs.slots[k].Some? && n < |fs.slots[k].value.chain|
      requires In(img, fs, Freeing(bam, k, n)) && Blk(t, s) == fs.slots[k].value.chain[n] && OnDisk(Blk(t, s))
      modifies this`blk, this`bam, disk.buf
      ensures Mounted() && In(img, fs, Freeing(bam, k, n + 1))
      ensures var f := fs.slots[k].value;
              if n + 1 == |f.chain| then blk[0] == 0 else Blk(blk[0], blk[1]) == f.chain[n + 1] && OnDisk(f.chain[n + 1])
    {
      SlotBlock(img, fs, Freeing(bam, k, n), k, n);
      Fetch(t, s);
      FreeingMap(img, fs, bam, k, n);
      bam := FreeNext(bam, Blk(t, s), img, fs, k, n);
    }

    /** The entry cleared: type 0 marks the slot free. */
    method ClearEntry(t: u8, s: u8, e: nat, ghost i: nat)
      requires Mounted() && Whole(img) && i < |fs.dir| && e < 8 && 8 * i + e < |fs.slots| && OnDisk(fs.dir[i])
      requires Blk(t, s) == fs.dir[i] && fs.slots[8 * i + e].Some?
      requires In(img, fs, Freeing(bam, 8 * i + e, |fs.slots[8 * i + e].value.chain|))
      modifies this`blk, this`img, this`fs, disk.buf, disk.sectors
      ensures Mounted() && Whole(img) && In(img, fs, Saving(bam)) && fs == WithoutFile(old(fs), 8 * i + e)
      ensures img == old(img)[Blk(t, s) := blk]
    {
      Fetch(t, s);
      ghost var d := blk;
      blk := Splice(blk, e * 32 + 2, seq<u8>(30, _ => 0));
      EntryCleared(d, e);
      Freed(img, fs, bam, 8 * i + e, blk);
      Store(t, s);
      fs := WithoutFile(fs, 8 * i + e);
    }

    /** The buffer is in use while a file is being written. */
    ghost method Jog(i: Image, g: Fs, m: Bam, was: Buffer, v: Writer, j: Job)
      requires Steady() && img == i && fs == g && bam == m && w == v && job == j
      requires open ==> kind != 0 && v.pos < BLOCK && Whole(i) && Working(i, g, m, was, v, j)
      modifies this`job
      ensures Valid() && job == if open then Jogged(j, blk, v.pos) else j
    {
      if open {
        WorkJogged(i, g, m, was, v, j, blk);
        job := Jogged(j, blk, v.pos);
      }
    }

    /** cbmdos_load: a file's bytes, unless there are more than the caller allows.  A file that is being written goes on
        with other bytes for what was still in the buffer. */
    method Load(name: seq<u8>, max: nat) returns (total: nat, out: seq<u8>, ghost k: nat)
      requires Valid() && Text(name)
      modifies this`blk, this`job, disk.buf
      ensures Valid() && job == if open then Jogged(old(job), blk, w.pos) else old(job)
      ensures NewName(fs.slots, NameOf(name)) ==> total == 0
      ensures !NewName(fs.slots, NameOf(name)) ==>
                && k < |fs.slots| && fs.slots[k].Some? && fs.slots[k].value.name == NameOf(name)
                && if |fs.slots[k].value.data| <= max then total == |out| && out == fs.slots[k].value.data else total == 0
    {
      ghost var i, g, m, was, v, j := img, fs, bam, blk, w, job;
      total, out, k := Loaded(name, max);
      Jog(i, g, m, was, v, j);
    }

    method Loaded(name: seq<u8>, max: nat) returns (total: nat, out: seq<u8>, ghost k: nat)
      requires Steady()
      modifies this`blk, disk.buf
      ensures Steady()
      ensures NewName(fs.slots, NameOf(name)) ==> total == 0
      ensures !NewName(fs.slots, NameOf(name)) ==>
                && k < |fs.slots| && fs.slots[k].Some? && fs.slots[k].value.name == NameOf(name)
                && if |fs.slots[k].value.data| <= max then total == |out| && out == fs.slots[k].value.data else total == 0
    {
      out, k := [], 0;
      var want := PadName(name);
      var found, dt, ds, e, i := Lookup(want);
      if !found {
        return 0, out, k;
      }
      k := 8 * i + e;
      SlotBlock(img, fs, Idle, k, 0);
      total, out := LoadChain(blk[e * 32 + 3], blk[e * 32 + 4], max, k);
    }

    /** The blocks of a file's chain, one after another. */
    method LoadChain(firstT: u8, firstS: u8, max: nat, ghost k: nat) returns (total: nat, out: seq<u8>)
      requires Steady() && k < |fs.slots| && fs.slots[k].Some? && |fs.slots[k].value.chain| >= 1
      requires Blk(firstT, firstS) == fs.slots[k].value.chain[0] && OnDisk(fs.slots[k].value.chain[0])
      modifies this`blk, disk.buf
      ensures Steady()
      ensures if |fs.slots[k].value.data| <= max then total == |out| && out == fs.slots[k].value.data else total == 0
    {
      ghost var f := fs.slots[k].value;
      var t, s := firstT, firstS;
      out := [];
      ghost var n := 0;
      while true
        invariant n < |f.chain| && Blk(t, s) == f.chain[n] && OnDisk(f.chain[n]) && Mounted()
        invariant DATA * n <= |f.data| && out == f.data[..DATA * n] && |out| <= max
        decreases |f.chain| - n
      {
        var piece := LoadBlock(t, s, k, n);
        if |out| + |piece| > max {
          return 0, out;
        }
        SoFar(out, f.data, DATA * n, piece);
        out := out + piece;
        if blk[0] == 0 {
          assert f.data[..|f.data|] == f.data;
          return |out|, out;
        }
        t, s := blk[0], blk[1];
        n := n + 1;
      }
    }

    /** One of them: its bytes, and its link in the buffer. */
    method LoadBlock(t: u8, s: u8, ghost k: nat, ghost n: nat) returns (piece: seq<u8>)
      requires Steady() && k < |fs.slots| && fs.slots[k].Some? && n < |fs.slots[k].value.chain|
      requires Blk(t, s) == fs.slots[k].value.chain[n] && OnDisk(Blk(t, s))
      modifies this`blk, disk.buf
      ensures Mounted()
      ensures var f := fs.slots[k].value;
        && DATA * n + |piece| <= |f.data| && piece == f.data[DATA * n..DATA * n + |piece|]
        && (blk[0] == 0 <==> n + 1 == |f.chain|)
        && (n + 1 == |f.chain| ==> DATA * n + |piece| == |f.data|)
        && (n + 1 < |f.chain| ==> |piece| == DATA && Blk(blk[0], blk[1]) == f.chain[n + 1] && OnDisk(f.chain[n + 1]))
    {
      SlotBlock(img, fs, Idle, k, n);
      Fetch(t, s);
      Piece(blk, fs.slots[k].value, n);
      piece := blk[2..2 + Length(blk)];
    }

    // ---- the streaming reader ----------------------------------------------------------------------------------

    /** The reader is at a block of a file on the disk, or past the last. */
    ghost predicate Reading()
      reads this`rdT, this`rdS, this`rdSlot, this`rdAt, this`fs
    {
      rdSlot < |fs.slots| && fs.slots[rdSlot].Some? && StandsAt(fs.slots[rdSlot].value, rdAt, rdT, rdS)
    }

    /** What it has still to give. */
    ghost function ToCome(): seq<u8>
      requires Reading()
      reads this`rdT, this`rdS, this`rdSlot, this`rdAt, this`fs
    {
      Left(fs.slots[rdSlot].value, rdAt)
    }

    /** The reader is at the start of the file of a name. */
    ghost predicate AtStart(name: seq<u8>)
      reads this`rdT, this`rdS, this`rdSlot, this`rdAt, this`fs
    {
      && Reading() && rdAt == 0 && fs.slots[rdSlot].value.name == name
      && ToCome() == fs.slots[rdSlot].value.data
    }

    /** cbmdos_open_read: a file that is being written takes the name, and what else there is in the buffer. */
    method OpenRead(name: seq<u8>) returns (err: Error)
      requires Valid() && Text(name)
      modifies this`fname, this`blk, this`job, this`rdT, this`rdS, this`rdOpen, this`rdSlot, this`rdAt, disk.buf
      ensures Valid() && job == if open then Jogged(old(job), blk, w.pos) else old(job)
      ensures rdOpen == (err == Ok) && fname == Upper(name)
      ensures err == if NewName(fs.slots, NameOf(Upper(name))) then NotFound else Ok
      ensures err == Ok ==> AtStart(NameOf(Upper(name)))
    {
      fname := FoldName(name);
      rdOpen := false;
      var want := PadName(fname);
      err := OpenNamed(want);
    }

    method OpenNamed(want: seq<u8>) returns (err: Error)
      requires Valid() && !rdOpen && |want| == NAME
      modifies this`blk, this`job, this`rdT, this`rdS, this`rdOpen, this`rdSlot, this`rdAt, disk.buf
      ensures Valid() && job == if open then Jogged(old(job), blk, w.pos) else old(job)
      ensures rdOpen == (err == Ok) && err == if NewName(fs.slots, want) then NotFound else Ok
      ensures err == Ok ==> AtStart(want)
    {
      ghost var i, g, m, was, v, j := img, fs, bam, blk, w, job;
      err := Sought(want);
      Jog(i, g, m, was, v, j);
    }

    method Sought(want: seq<u8>) returns (err: Error)
      requires Steady() && !rdOpen && |want| == NAME
      modifies this`blk, this`rdT, this`rdS, this`rdOpen, this`rdSlot, this`rdAt, disk.buf
      ensures Steady() && rdOpen == (err == Ok)
      ensures err == if NewName(fs.slots, want) then NotFound else Ok
      ensures err == Ok ==> AtStart(want)
    {
      var found, t, s, e, i := Lookup(want);
      if !found {
        return NotFound;
      }
      BeginRead(e, i);
      err := Ok;
    }

    method BeginRead(e: nat, ghost i: nat)
      requires Whole(img) && In(img, fs, Idle) && e < 8 && 8 * i + e < |fs.slots| && fs.slots[8 * i + e].Some?
      requires EntryIs(blk, e, fs.slots[8 * i + e])
      modifies this`rdT, this`rdS, this`rdOpen, this`rdSlot, this`rdAt
      ensures rdOpen && Reading() && rdAt == 0 && rdSlot == 8 * i + e && ToCome() == fs.slots[rdSlot].value.data
    {
      SlotBlock(img, fs, Idle, 8 * i + e, 0);
      rdSlot, rdAt, rdT, rdS, rdOpen := 8 * i + e, 0, blk[e * 32 + 3], blk[e * 32 + 4], true;
      ghost var data := fs.slots[rdSlot].value.data;
      assert data[DATA * 0..] == data;
    }

    /** cbmdos_read_next: the next block's bytes, none at the end. */
    method ReadNext() returns (out: seq<u8>, err: Error)
      requires Valid()
      modifies this`blk, this`job, this`rdT, this`rdS, this`rdAt, this`rdOpen, disk.buf
      ensures Valid() && job == if open then Jogged(old(job), blk, w.pos) else old(job)
      ensures !old(rdOpen) ==> out == [] && err == NotOpen && !rdOpen
      ensures old(rdOpen && Reading()) ==>
                && rdOpen && err == Ok && Reading() && |out| <= DATA && old(ToCome()) == out + ToCome()
                && (out == [] ==> ToCome() == [])
                && (out != [] ==> rdAt == old(rdAt) + 1 <= |fs.slots[rdSlot].value.chain|)
    {
      ghost var i, g, m, was, v, j := img, fs, bam, blk, w, job;
      if !rdOpen {
        out, err := [], NotOpen;
      } else if rdT == 0 {
        out, err := [], Ok;
        AtEnd();
      } else if rdT <= 80 && rdS < 40 {
        out := ReadPiece();
        err := Ok;
      } else {
        NotPastDisk();
        out, err, rdOpen := [], Io, false;
      }
      Jog(i, g, m, was, v, j);
    }

    lemma AtEnd()
      requires Steady() && rdT == 0
      ensures Reading() ==> ToCome() == []
    {
      if Reading() {
        SlotBlock(img, fs, Idle, rdSlot, rdAt);
      }
    }

    /** Only the links of a file that is there are sure to be on the disk. */
    lemma NotPastDisk()
      requires Steady() && rdT != 0 && !OnDisk(Blk(rdT, rdS))
      ensures !Reading()
    {
      if Reading() {
        SlotBlock(img, fs, Idle, rdSlot, rdAt);
      }
    }

    method ReadPiece() returns (out: seq<u8>)
      requires Steady() && OnDisk(Blk(rdT, rdS))
      modifies this`blk, this`rdT, this`rdS, this`rdAt, disk.buf
      ensures Steady()
      ensures old(Reading()) ==>
                && Reading() && |out| <= DATA && old(ToCome()) == out + ToCome() && (out == [] ==> ToCome() == [])
                && rdAt == old(rdAt) + 1 <= |fs.slots[rdSlot].value.chain|
    {
      Fetch(rdT, rdS);
      out := blk[2..2 + Length(blk)];
      PieceRead(blk, out);
      rdT, rdS, rdAt := blk[0], blk[1], rdAt + 1;
    }

    /** What a block of the file gives, and what is left. */
    lemma PieceRead(d: Buffer, out: seq<u8>)
      requires Steady() && OnDisk(Blk(rdT, rdS)) && d == img[Blk(rdT, rdS)] && out == d[2..2 + Length(d)]
      ensures Reading() ==>
                && var f := fs.slots[rdSlot].value;
                && rdAt < |f.chain| && StandsAt(f, rdAt + 1, d[0], d[1]) && |out| <= DATA
                && ToCome() == out + Left(f, rdAt + 1) && (out == [] ==> Left(f, rdAt + 1) == [])
    {
      if Reading() {
        var f := fs.slots[rdSlot].value;
        SlotBlock(img, fs, Idle, rdSlot, rdAt);
        Piece(d, f, rdAt);
        Rest(f, rdAt, out);
      }
    }

    /** A file read to its end, block by block, is its bytes. */
    method ReadAll(name: seq<u8>) returns (err: Error, out: seq<u8>)
      requires Valid() && !open && Text(name)
      modifies this`fname, this`blk, this`job, this`rdT, this`rdS, this`rdOpen, this`rdSlot, this`rdAt, disk.buf
      ensures Valid() && err == if NewName(fs.slots, NameOf(Upper(name))) then NotFound else Ok
      ensures err == Ok ==> rdSlot < |fs.slots| && fs.slots[rdSlot].Some?
                            && fs.slots[rdSlot].value.name == NameOf(Upper(name)) && out == fs.slots[rdSlot].value.data
    {
      out := [];
      err := OpenRead(name);
      if err != Ok {
        return;
      }
      out := Drain();
    }

    /** The reader read to its end. */
    method Drain() returns (out: seq<u8>)
      requires Valid() && !open && rdOpen && Reading()
      modifies this`blk, this`job, this`rdT, this`rdS, this`rdAt, this`rdOpen, disk.buf
      ensures Valid() && out == old(ToCome())
    {
      out := [];
      ghost var all, f := ToCome(), fs.slots[rdSlot].value;
      var more := true;
      while more
        invariant Valid() && rdOpen && Reading() && fs.slots[rdSlot].value == f && out + ToCome() == all
        invariant !more ==> ToCome() == []
        decreases if more then 1 + |f.chain| - rdAt else 0
      {
        out, more := DrainOnce(out);
      }
    }

    /** One block more of it. */
    method DrainOnce(before: seq<u8>) returns (out: seq<u8>, more: bool)
      requires Valid() && !open && rdOpen && Reading()
      modifies this`blk, this`job, this`rdT, this`rdS, this`rdAt, this`rdOpen, disk.buf
      ensures Valid() && rdOpen && Reading() && out + ToCome() == before + old(ToCome())
      ensures if more then old(rdAt) < rdAt <= |fs.slots[rdSlot].value.chain| else ToCome() == []
    {
      var piece, e := ReadNext();
      Joined(before, piece, ToCome());
      out, more := before + piece, piece != [];
    }

    /** What was written is what is loaded, and what the reader gives. */
    method RoundTrip(name: seq<u8>, kind: u8, bytes: seq<u8>) returns (err: Error, loaded: seq<u8>, streamed: seq<u8>)
      requires Valid() && Text(name) && kind != 0
      modifies this, disk.buf, disk.sectors
      ensures Valid() && (err == Ok ==> loaded == bytes && streamed == bytes)
    {
      loaded, streamed := [], [];
      ghost var k;
      err, k := WriteFile(name, kind, bytes);
      if err != Ok {
        return;
      }
      ghost var f := fs.slots[k].value;
      UpperTwice(name);
      UniqueAt(img, fs, k);
      ghost var k2;
      var total, e2;
      total, loaded, k2 := Load(Upper(name), |bytes|);
      e2, streamed := ReadAll(name);
    }

    /** What a delete does to a file that is being written, even of a name that is not there: the map in memory has the
        file's first block free again, so the block that is filled next is linked to itself. */
    method SelfLinked(name: seq<u8>, kind: u8, other: seq<u8>, bytes: seq<u8>) returns (err: Error)
      requires Valid() && Text(name) && kind != 0 && Text(other) && name != [] && other != [] && |bytes| == DATA
      requires NewName(fs.slots, NameOf(Upper(name))) && NewName(fs.slots, NameOf(Upper(other))) && Avail(BamOf(img)) > 0
      modifies this, disk.buf, disk.sectors
      ensures Valid() && open && !Sound() && w.cur == w.first && OnDisk(w.first) && LinksTo(img[w.first], w.first)
    {
      err := Create(name, kind);
      var e, k := Delete(other);
      ghost var b, m := w.first, BamOf(img);
      var i := 0;
      while i < DATA - 1
        invariant 0 <= i <= DATA - 1 && Valid() && open && job == Adrift([]) && w == Writer(b, b, 2 + i, 1) && bam == m
      {
        err := Put(bytes[i]);
        i := i + 1;
      }
      err := Put(bytes[i]);
      OneFirst(m, b, w.cur);
    }
  }

  lemma Joined(a: seq<u8>, b: seq<u8>, c: seq<u8>)
    ensures a + (b + c) == a + b + c
  {
  }

  lemma UpperTwice(name: seq<u8>)
    requires Text(name)
    ensures Text(Upper(name)) && NameOf(Upper(name)) == Upper(name) + seq<u8>(NAME - |Upper(name)|, _ => PAD)
  {
  }

  /** No other file has the name. */
  lemma UniqueAt(img: Image, fs: Fs, k: nat)
    requires Whole(img) && In(img, fs, Idle) && k < |fs.slots| && fs.slots[k].Some?
    ensures forall j :: 0 <= j < |fs.slots| && fs.slots[j].Some? && fs.slots[j].value.name == fs.slots[k].value.name ==> j == k
  {
    Open(img, fs, Idle);
  }

  /** Between two well-formed states that differ by a deleted file, exactly its blocks became free. */
  lemma DeletedBlocks(img: Image, out: Image, fs: Fs, k: nat, b: Blk)
    requires WellFormed(img, fs) && k < |fs.slots| && fs.slots[k].Some? && WellFormed(out, WithoutFile(fs, k)) && OnDisk(b)
    ensures IsFree(BamOf(out), b) <==> IsFree(BamOf(img), b) || b in fs.slots[k].value.chain
  {
    if b in fs.owner {
      assert OwnerHas(fs, b);
    }
  }

  /** The slots once slot k is there: the directory grows by eight at a time. */
  function Grown(slots: seq<Option<File>>, k: nat): seq<Option<File>>
  {
    if k < |slots| then slots else slots + EIGHT
  }

  function Splice(d: Buffer, at: nat, p: seq<u8>): Buffer
    requires at + |p| <= BLOCK
  {
    d[..at] + p + d[at + |p|..]
  }

  /** How many bytes a block holds. */
  function Length(d: Buffer): (n: nat)
    ensures n <= DATA
  {
    if d[0] != 0 then DATA else if d[1] > 1 then d[1] - 1 else 0
  }

  /** A block of a file holds the file's next bytes. */
  lemma Piece(d: Buffer, f: File, i: nat)
    requires i < |f.chain| && BlockOf(d, f, i) && (i + 1 < |f.chain| ==> OnDisk(f.chain[i + 1]))
    ensures d[0] == 0 <==> i + 1 == |f.chain|
    ensures i + 1 < |f.chain| ==> Blk(d[0], d[1]) == f.chain[i + 1] && DATA * (i + 1) <= |f.data|
    ensures DATA * i <= |f.data| && DATA * i + Length(d) <= |f.data|
    ensures d[2..2 + Length(d)] == f.data[DATA * i..DATA * i + Length(d)]
    ensures DATA * i + Length(d) == if i + 1 < |f.chain| then DATA * (i + 1) else |f.data|
  {
  }

  lemma SoFar(out: seq<u8>, data: seq<u8>, from: nat, piece: seq<u8>)
    requires from + |piece| <= |data| && out == data[..from] && piece == data[from..from + |piece|]
    ensures out + piece == data[..from + |piece|]
  {
  }

  lemma Rest(f: File, n: nat, out: seq<u8>)
    requires n < |f.chain| && DATA * n + |out| <= |f.data| && out == f.data[DATA * n..DATA * n + |out|]
    ensures f.data[DATA * n..] == out + f.data[DATA * n + |out|..]
    ensures DATA * n + |out| == |f.data| ==> f.data[DATA * n + |out|..] == []
  {
  }

  lemma EntryCleared(d: Buffer, e: nat)
    requires e < 8
    ensures EntrySet(d, Splice(d, e * 32 + 2, seq<u8>(30, _ => 0)), e, None)
  {
    var r := Splice(d, e * 32 + 2, seq<u8>(30, _ => 0));
    assert r[..2] == d[..2];
  }

  /** The last block always has a place free: n bytes have n / 254 full blocks and one more. */
  lemma BlocksFor(n: nat, blocks: nat, pos: nat)
    requires blocks >= 1 && 2 <= pos < BLOCK && n == DATA * (blocks - 1) + pos - 2
    ensures n / DATA + 1 == blocks
  {
  }

  lemma MoreThan(total: nat, i: nat, blocks: nat)
    requires i <= total && i == DATA * blocks
    ensures blocks < total / DATA + 1
  {
  }

  /** A file's blocks are few enough for its entry's count. */
  lemma FirstOf(img: Image, fs: Fs, m: Bam, f: File)
    requires Whole(img) && In(img, fs, Written(m, f))
    ensures FileOn(img, f) && |f.chain| <= 3200 && OnDisk(f.chain[0])
  {
    Open(img, fs, Written(m, f));
    ChainShort(f.chain, 3200);
  }

  /** The bytes of an entry. */
  lemma EntryRaw(d: Buffer, e: nat, kind: u8, first: Blk, name: seq<u8>, blocks: nat)
    requires e < 8 && OnDisk(first) && |name| == NAME && blocks < 0x1_0000
    ensures var r := WithEntry(d, e, kind, first, name, blocks);
      && r[..2] == d[..2] && r[e * 32 + 2] == kind && r[e * 32 + 3] == first.t && r[e * 32 + 4] == first.s
      && r[e * 32 + 5..e * 32 + 21] == name && r[e * 32 + 30] as int + 256 * r[e * 32 + 31] as int == blocks
  {
    var b := EntryBytes(kind, first.t, first.s, name, blocks);
    var r := WithEntry(d, e, kind, first, name, blocks);
    assert r[..2] == d[..2];
    SpliceAt(d, e * 32 + 2, b);
    EntryName(kind, first.t, first.s, name, blocks);
    assert r[e * 32 + 5..e * 32 + 21] == r[e * 32 + 2..e * 32 + 32][3..19];
  }

  lemma SpliceAt(d: Buffer, at: nat, p: seq<u8>)
    requires at + |p| <= BLOCK
    ensures Splice(d, at, p)[at..at + |p|] == p && forall j :: 0 <= j < |p| ==> Splice(d, at, p)[at + j] == p[j]
  {
  }

  lemma EntryName(kind: u8, t: u8, s: u8, name: seq<u8>, blocks: nat)
    requires |name| == NAME && blocks < 0x1_0000
    ensures var b := EntryBytes(kind, t, s, name, blocks);
      b[..3] == [kind, t, s] && b[3..19] == name && b[28] as int + 256 * b[29] as int == blocks
  {
  }

  /** An entry of a file, and nothing else changed. */
  lemma EntryMade(d: Buffer, e: nat, f: File)
    requires e < 8 && 1 <= |f.chain| < 0x1_0000 && |f.name| == NAME && f.kind != 0 && OnDisk(f.chain[0])
    ensures EntrySet(d, WithEntry(d, e, f.kind, f.chain[0], f.name, |f.chain|), e, Some(f))
  {
    EntryRaw(d, e, f.kind, f.chain[0], f.name, |f.chain|);
  }

  lemma BufferNext(blk: Buffer, pos: nat, chain: seq<Blk>, data: seq<u8>, b: u8)
    requires Buffered(blk, pos, chain, data) && pos < BLOCK
    ensures var from, more := DATA * (|chain| - 1), data + [b];
            from <= |more| == from + pos - 1 && blk[pos := b][2..pos + 1] == more[from..]
  {
    var from := DATA * (|chain| - 1);
    assert (data + [b])[from..] == data[from..] + [b];
    assert blk[pos := b][2..pos + 1] == blk[2..pos] + [b];
  }

  lemma NotInEight(slots: seq<Option<File>>, i: nat, want: seq<u8>)
    requires 8 * i + 8 <= |slots|
    requires forall j :: 0 <= j < 8 * i && slots[j].Some? ==> slots[j].value.name != want
    requires var eight := slots[8 * i..8 * i + 8]; forall j :: 0 <= j < 8 && eight[j].Some? ==> eight[j].value.name != want
    ensures forall j :: 0 <= j < 8 * i + 8 && slots[j].Some? ==> slots[j].value.name != want
  {
    var eight := slots[8 * i..8 * i + 8];
    assert forall j :: 8 * i <= j < 8 * i + 8 ==> slots[j] == eight[j - 8 * i];
  }

  /** New slots are empty. */
  lemma GrownName(slots: seq<Option<File>>, k: nat, name: seq<u8>)
    ensures NewName(Grown(slots, k), name) <==> NewName(slots, name)
  {
    var g := Grown(slots, k);
    assert forall j :: 0 <= j < |slots| ==> g[j] == slots[j];
  }

  lemma LooseMap(img: Image, fs: Fs, m: Bam, taken: seq<Blk>)
    requires Whole(img) && In(img, fs, Loose(m, taken))
    ensures Shaped(m)
  {
    Open(img, fs, Loose(m, taken));
  }
}
