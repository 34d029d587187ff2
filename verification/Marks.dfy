/** The bookmarks (src/m65/marks.c): a text of lines, five to an entry, kept in memory and written to the disk whole. */
module Marks {
  import opened Words
  import opened Floppy
  import Bam
  import opened Files
  import D = CbmDos

  const MAX := 8
  const FIELDS := 5
  const CAP := 2048
  const LINE_CAP := 96
  const NONE := 0xffff
  const NEWLINE: u8 := 10
  const MAGIC: seq<u8> := [0x49, 0x52, 0x43, 0x31]                                // IRC1
  const FILE: seq<u8> := [0x49, 0x52, 0x43, 0x2e, 0x43, 0x46, 0x47]               // IRC.CFG
  const CAPS: seq<nat> := [64, 6, 2, 17, 64]                                      // host, port, TLS, nick, channels

  // ---- lines ----

  predicate IsLine(s: seq<u8>)
  {
    |s| < LINE_CAP && NEWLINE !in s
  }

  predicate AreLines(ls: seq<seq<u8>>)
  {
    forall k :: 0 <= k < |ls| ==> IsLine(ls[k])
  }

  /** The text of some lines. */
  function Text(ls: seq<seq<u8>>): seq<u8>
  {
    if ls == [] then [] else Text(ls[..|ls| - 1]) + ls[|ls| - 1] + [NEWLINE]
  }

  lemma {:induction false} TextAppend(ls: seq<seq<u8>>, ms: seq<seq<u8>>)
    ensures Text(ls + ms) == Text(ls) + Text(ms)
    decreases |ms|
  {
    if ms == [] {
      assert ls + ms == ls;
    } else {
      var n := |ms| - 1;
      assert (ls + ms)[..|ls + ms| - 1] == ls + ms[..n];
      TextAppend(ls, ms[..n]);
    }
  }

  /** One line more behind a text, and what the rest needs. */
  lemma TextMore(s: seq<u8>, ls: seq<seq<u8>>, k: nat)
    requires k < |ls|
    ensures s + Text(ls[..k + 1]) == s + Text(ls[..k]) + ls[k] + [NEWLINE] && |Text(ls[..k + 1])| <= |Text(ls)|
  {
    assert ls[..k + 1][..k] == ls[..k];
    TextAppend(ls[..k + 1], ls[k + 1..]);
    assert ls == ls[..k + 1] + ls[k + 1..];
  }

  /** Where line k starts. */
  function StartOf(ls: seq<seq<u8>>, k: nat): nat
    requires k <= |ls|
  {
    |Text(ls[..k])|
  }

  /** Line k stands at its place, with its newline behind it. */
  lemma LineAt(ls: seq<seq<u8>>, k: nat)
    requires k < |ls|
    ensures var at := StartOf(ls, k);
      && StartOf(ls, k + 1) == at + |ls[k]| + 1 <= |Text(ls)|
      && Text(ls)[at..at + |ls[k]|] == ls[k] && Text(ls)[at + |ls[k]|] == NEWLINE
  {
    var at, m := StartOf(ls, k), ls[..k + 1];
    assert m[..k] == ls[..k] && ls == m + ls[k + 1..];
    TextAppend(m, ls[k + 1..]);
    assert Text(m) == Text(ls[..k]) + ls[k] + [NEWLINE];
    Middle(Text(ls[..k]), ls[k], Text(ls[k + 1..]));
  }

  lemma Middle(x: seq<u8>, l: seq<u8>, z: seq<u8>)
    ensures var s := x + l + [NEWLINE] + z; s[|x|..|x| + |l|] == l && s[|x| + |l|] == NEWLINE
  {
  }

  // ---- read_line ----

  /** The newline in a piece, or its end. */
  function UpTo(c: seq<u8>): (i: nat)
    ensures i <= |c|
  {
    if c == [] || c[0] == NEWLINE then 0 else 1 + UpTo(c[1..])
  }

  lemma {:induction false} UpToFirst(c: seq<u8>)
    ensures NEWLINE !in c[..UpTo(c)] && (UpTo(c) < |c| ==> c[UpTo(c)] == NEWLINE)
  {
    if c != [] && c[0] != NEWLINE {
      UpToFirst(c[1..]);
      assert c[..UpTo(c)] == [c[0]] + c[1..][..UpTo(c[1..])];
    }
  }

  function Chunk(s: seq<u8>, at: nat): seq<u8>
    requires at <= |s|
  {
    if |s| - at > LINE_CAP then s[at..at + LINE_CAP] else s[at..]
  }

  /** A string as a buffer of cap bytes takes it. */
  function Clip(s: seq<u8>, cap: nat): seq<u8>
    requires cap > 0
  {
    if |s| < cap then s else s[..cap - 1]
  }

  /** The offset after the line at `at`. */
  function After(s: seq<u8>, at: nat): nat
  {
    if at >= |s| then NONE else at + UpTo(Chunk(s, at)) + 1
  }

  lemma NotBefore(c: seq<u8>, i: nat)
    requires i <= |c| && NEWLINE !in c[..i]
    ensures forall j :: 0 <= j < i ==> c[j] != NEWLINE
  {
    forall j | 0 <= j < i ensures c[j] != NEWLINE {
      assert c[..i][j] == c[j];
    }
  }

  lemma UpToIs(c: seq<u8>, i: nat)
    requires i <= |c| && (i < |c| ==> c[i] == NEWLINE) && NEWLINE !in c[..i]
    ensures UpTo(c) == i
  {
    UpToFirst(c);
    NotBefore(c, i);
    NotBefore(c, UpTo(c));
  }

  /** On lines, the offset after line k is where line k + 1 starts. */
  lemma AfterLine(ls: seq<seq<u8>>, k: nat)
    requires AreLines(ls) && k < |ls|
    ensures var s, at := Text(ls), StartOf(ls, k);
      at < |s| && UpTo(Chunk(s, at)) == |ls[k]| && Chunk(s, at)[..|ls[k]|] == ls[k] && After(s, at) == StartOf(ls, k + 1)
  {
    LineAt(ls, k);
    var s, at := Text(ls), StartOf(ls, k);
    var c := Chunk(s, at);
    assert IsLine(ls[k]);
    assert c[..|ls[k]|] == s[at..at + |ls[k]|];
    UpToIs(c, |ls[k]|);
  }

  /** read_line. */
  method ReadLine(far: array<u8>, len: nat, at: nat, cap: nat) returns (next: nat, out: seq<u8>)
    requires len <= far.Length == CAP && 0 < cap <= LINE_CAP
    ensures next == After(far[..len], at)
    ensures at < len ==> out == Clip(Chunk(far[..len], at)[..UpTo(Chunk(far[..len], at))], cap)
  {
    out := [];
    if at >= len {
      return NONE, out;
    }
    var chunk := len - at;
    if chunk > LINE_CAP {
      chunk := LINE_CAP;
    }
    var line := far[at..at + chunk];
    assert line == Chunk(far[..len], at);
    var i := 0;
    while i < chunk && line[i] != NEWLINE
      invariant 0 <= i <= chunk && NEWLINE !in line[..i]
      invariant out == Clip(line[..i], cap)
    {
      assert line[..i + 1] == line[..i] + [line[i]];
      if |out| < cap - 1 {
        out := out + [line[i]];
      }
      i := i + 1;
    }
    UpToIs(line, i);
    next := at + i + 1;
  }

  // ---- entries ----

  /** How many entries lines are taken for: the line counter is eight bits wide, and eight entries are the most. */
  function Entries(lines: nat): nat
  {
    var n := lines % 0x100;
    if n == 0 then 0 else if (n - 1) / FIELDS > MAX then MAX else (n - 1) / FIELDS
  }

  lemma AfterMoves(s: seq<u8>, at: nat)
    requires |s| <= CAP
    ensures After(s, at) == NONE <==> at >= |s|
    ensures at < |s| ==> at < After(s, at)
  {
  }

  /** The lines from offset `at` to the end. */
  function LinesFrom(s: seq<u8>, at: nat): nat
    decreases |s| - at
  {
    if at >= |s| then 0 else 1 + LinesFrom(s, After(s, at))
  }

  /** One more of them counted. */
  lemma LineStep(s: seq<u8>, at: nat)
    requires |s| <= CAP && After(s, at) != NONE
    ensures at < |s| && at < After(s, at) && LinesFrom(s, at) == 1 + LinesFrom(s, After(s, at))
  {
    AfterMoves(s, at);
  }

  lemma CountStep(n: nat)
    ensures (n % 0x100 + 1) % 0x100 == (n + 1) % 0x100
  {
  }

  lemma {:induction false} LinesCount(ls: seq<seq<u8>>, k: nat)
    requires AreLines(ls) && k <= |ls|
    ensures LinesFrom(Text(ls), StartOf(ls, k)) == |ls| - k
    decreases |ls| - k
  {
    if k < |ls| {
      AfterLine(ls, k);
      LinesCount(ls, k + 1);
    } else {
      assert ls[..k] == ls;
    }
  }

  /** The first line of entry i. */
  function First(i: nat): nat
  {
    1 + FIELDS * i
  }

  /** Lines with the first one right, and a count of entries that are there. */
  ghost predicate Counted(ls: seq<seq<u8>>, count: nat)
  {
    && AreLines(ls) && (ls != [] ==> ls[0] == MAGIC) && count <= MAX && (count > 0 ==> First(count) <= |ls|)
  }

  lemma EntriesCounted(ls: seq<seq<u8>>)
    requires AreLines(ls) && (ls != [] ==> ls[0] == MAGIC)
    ensures Counted(ls, Entries(|ls|))
  {
  }

  /** A list of up to eight entries is counted right. */
  lemma EntriesExact(count: nat)
    requires count <= MAX
    ensures Entries(First(count)) == count
  {
  }

  /** The entries as a list. */
  function List(ls: seq<seq<u8>>, count: nat): (r: seq<seq<seq<u8>>>)
    requires count > 0 ==> First(count) <= |ls|
    ensures |r| == count
  {
    seq(count, i requires 0 <= i < count => ls[First(i)..First(i + 1)])
  }

  /** The lines of a file with one entry more. */
  function With(ls: seq<seq<u8>>, fields: seq<seq<u8>>): seq<seq<u8>>
  {
    (if ls == [] then [MAGIC] else ls) + fields
  }

  /** The lines without entry i. */
  function Without(ls: seq<seq<u8>>, i: nat): seq<seq<u8>>
    requires First(i + 1) <= |ls|
  {
    ls[..First(i)] + ls[First(i + 1)..]
  }

  /** Adding appends to the list ... */
  lemma ListWith(ls: seq<seq<u8>>, count: nat, fields: seq<seq<u8>>)
    requires Counted(ls, count) && |ls| == (if ls == [] then 0 else First(count)) && (ls == [] ==> count == 0) && |fields| == FIELDS
    ensures First(count + 1) == |With(ls, fields)| && List(With(ls, fields), count + 1) == List(ls, count) + [fields]
  {
    var base, all := if ls == [] then [MAGIC] else ls, With(ls, fields);
    forall i | 0 <= i <= count ensures all[First(i)..First(i + 1)] == (List(ls, count) + [fields])[i] {
      if i < count {
        InFront(base, fields, First(i), First(i + 1));
      } else {
        assert |base| == First(i) && First(i + 1) == |all|;
        AtEnd(base, fields);
      }
    }
  }

  lemma InFront(ls: seq<seq<u8>>, more: seq<seq<u8>>, a: nat, b: nat)
    requires a <= b <= |ls|
    ensures (ls + more)[a..b] == ls[a..b]
  {
  }

  lemma AtEnd(ls: seq<seq<u8>>, more: seq<seq<u8>>)
    ensures (ls + more)[|ls|..|ls + more|] == more
  {
  }

  /** ... and removing takes out exactly the one. */
  lemma ListWithout(ls: seq<seq<u8>>, count: nat, i: nat)
    requires Counted(ls, count) && i < count
    ensures count - 1 > 0 ==> First(count - 1) <= |Without(ls, i)|
    ensures List(Without(ls, i), count - 1) == List(ls, count)[..i] + List(ls, count)[i + 1..]
  {
    var out, l := Without(ls, i), List(ls, count);
    forall j | 0 <= j < count - 1 ensures out[First(j)..First(j + 1)] == (l[..i] + l[i + 1..])[j] {
      if j < i {
        assert out[First(j)..First(j + 1)] == ls[First(j)..First(j + 1)];
      } else {
        MovedDown(ls, First(i), First(i + 1), First(j), First(j + 1));
      }
    }
  }

  lemma MovedDown(ls: seq<seq<u8>>, from: nat, to: nat, a: nat, b: nat)
    requires from <= a <= b && from <= to && b + (to - from) <= |ls|
    ensures (ls[..from] + ls[to..])[a..b] == ls[a + (to - from)..b + (to - from)]
  {
  }

  /** Every line after the first is a field within its cap. */
  predicate Fits(ls: seq<seq<u8>>)
  {
    forall j :: 1 <= j < |ls| ==> |ls[j]| < CAPS[(j - 1) % FIELDS]
  }

  /** The k-th field of entry i, as its buffer takes it. */
  function Field(ls: seq<seq<u8>>, i: nat, k: nat): seq<u8>
    requires First(i) + k < |ls| && k < FIELDS
  {
    Clip(ls[First(i) + k], CAPS[k])
  }

  /** A C string: the bytes before the first zero. */
  function CString(s: seq<u8>): seq<u8>
  {
    if s == [] || s[0] == 0 then [] else [s[0]] + CString(s[1..])
  }

  lemma {:induction false} CStringIs(s: seq<u8>)
    ensures 0 !in CString(s) && CString(s) <= s && (|CString(s)| < |s| ==> s[|CString(s)|] == 0)
  {
    if s != [] && s[0] != 0 {
      CStringIs(s[1..]);
    }
  }

  /** A bookmarks file on the disk. */
  ghost predicate OnFile(fs: Fs, text: seq<u8>)
  {
    exists k :: 0 <= k < |fs.slots| && FileIs(fs, k, text)
  }

  ghost predicate FileIs(fs: Fs, k: nat, text: seq<u8>)
    requires k < |fs.slots|
  {
    fs.slots[k].Some? && fs.slots[k].value.name == D.NameOf(FILE) && fs.slots[k].value.data == text
  }

  ghost predicate Absent(fs: Fs)
  {
    NewName(fs.slots, D.NameOf(FILE))
  }

  ghost predicate HasFile(fs: Fs, k: nat)
    requires k < |fs.slots|
  {
    fs.slots[k].Some? && fs.slots[k].value.name == D.NameOf(FILE)
  }

  /** The disk can take a bookmarks file of n bytes: it has the blocks, those of the old file among them, and a slot,
      which the old file leaves. */
  ghost predicate Room(img: Image, fs: Fs, n: nat)
    requires Whole(img)
  {
    || (Absent(fs) && HasRoom(fs) && Bam.Avail(BamOf(img)) >= n / DATA + 1)
    || (exists k :: 0 <= k < |fs.slots| && HasFile(fs, k)
                    && Bam.Avail(BamOf(img)) + |fs.slots[k].value.chain| >= n / DATA + 1)
  }

  /** With one file of the name, that one's blocks count. */
  lemma RoomWith(img: Image, fs: Fs, k: nat, n: nat)
    requires Whole(img) && In(img, fs, Idle) && k < |fs.slots| && HasFile(fs, k)
    ensures Room(img, fs, n) <==> Bam.Avail(BamOf(img)) + |fs.slots[k].value.chain| >= n / DATA + 1
  {
    D.UniqueAt(img, fs, k);
    assert forall j :: 0 <= j < |fs.slots| && HasFile(fs, j) ==> j == k;
  }

  class Bookmarks {
    const dos: D.Dos
    const far: array<u8>
    var len: nat
    var count: nat
    ghost var lines: seq<seq<u8>>

    /** The memory and the disk it works on. */
    ghost predicate Placed()
      reads this, dos, dos.disk, dos.disk.sectors
    {
      far.Length == CAP && far != dos.disk.buf && dos.Valid()
    }

    /** The text is that of some lines, and the count is at most that of their entries. */
    ghost predicate Valid()
      reads this, far, dos, dos.disk, dos.disk.sectors
    {
      Placed() && Listed()
    }

    ghost predicate Listed()
      reads this, far
    {
      len <= CAP == far.Length && far[..len] == Text(lines) && Counted(lines, count)
    }

    /** No line past the last entry that is counted. */
    ghost predicate Exact()
      reads this
    {
      |lines| == if lines == [] then 0 else First(count)
    }

    constructor (dos: D.Dos)
      requires dos.Valid()
      ensures Valid() && lines == [] && count == 0 && this.dos == dos && fresh(far)
    {
      this.dos := dos;
      far := new u8[CAP];
      len, count, lines := 0, 0, [];
    }

    /** The offset of line n, by reading the lines before it (entry_at). */
    method LineOffset(n: nat) returns (at: nat)
      requires Listed() && n <= |lines|
      ensures at == StartOf(lines, n)
    {
      at := 0;
      var k := 0;
      while k < n
        invariant 0 <= k <= n && at == StartOf(lines, k)
      {
        AfterLine(lines, k);
        at := NextLine(at);
        k := k + 1;
      }
    }

    /** The offset after a line, read into a buffer of two bytes. */
    method NextLine(at: nat) returns (next: nat)
      requires len <= far.Length == CAP
      ensures next == After(far[..len], at)
    {
      var t;
      next, t := ReadLine(far, len, at, 2);
    }

    /** The lines counted, in eight bits. */
    method CountLines() returns (read: u8)
      requires len <= far.Length == CAP
      ensures read == LinesFrom(far[..len], 0) % 0x100
    {
      var at := 0;
      read := 0;
      ghost var s, total := far[..len], 0;
      ghost var all := LinesFrom(s, 0);
      var next := NextLine(at);
      while next != NONE
        invariant next == After(s, at) && read == total % 0x100
        invariant total + LinesFrom(s, at) == all
        decreases |s| - at
      {
        LineStep(s, at);
        CountStep(total);
        read := (read as int + 1) % 0x100;
        total := total + 1;
        at := next;
        next := NextLine(at);
      }
      AfterMoves(s, at);
    }

    /** count_entries. */
    method CountEntries() returns (n: nat)
      requires len <= far.Length == CAP
      ensures n == Entries(LinesFrom(far[..len], 0))
    {
      var read := CountLines();
      n := 0;
      if read != 0 {
        n := (read - 1) / FIELDS;
      }
      if n > MAX {
        n := MAX;
      }
    }

    /** marks_get. */
    method Get(i: nat) returns (ok: bool, fields: seq<seq<u8>>)
      requires Listed()
      ensures ok <==> i < count
      ensures ok ==> First(i) + FIELDS <= |lines| && |fields| == FIELDS
      ensures ok ==> forall k :: 0 <= k < FIELDS ==> fields[k] == Field(lines, i, k)
    {
      fields := [];
      ok := i < count;
      if ok {
        var at := LineOffset(First(i));
        var k := 0;
        while k < FIELDS
          invariant 0 <= k <= FIELDS && at == StartOf(lines, First(i) + k) && |fields| == k
          invariant forall j :: 0 <= j < k ==> fields[j] == Field(lines, i, j)
        {
          var out;
          at, out := GetField(at, i, k);
          fields := fields + [out];
          k := k + 1;
        }
      }
    }

    /** One field read into its buffer. */
    method GetField(at: nat, i: nat, k: nat) returns (next: nat, out: seq<u8>)
      requires Listed() && k < FIELDS && First(i) + k < |lines| && at == StartOf(lines, First(i) + k)
      ensures next == StartOf(lines, First(i) + k + 1) && out == Field(lines, i, k)
    {
      AfterLine(lines, First(i) + k);
      assert 0 < CAPS[k] <= LINE_CAP;
      next, out := ReadLine(far, len, at, CAPS[k]);
    }

    // ---- the file ----

    /** write_file: the old file deleted, and the text written.  It succeeds exactly when the disk has room; when it has
        not, there is no file any more. */
    method WriteOut() returns (ok: bool)
      requires Placed() && len <= CAP
      modifies dos, dos.disk.buf, dos.disk.sectors
      ensures Placed() && ok == old(Room(dos.img, dos.fs, len))
      ensures if ok then OnFile(dos.fs, far[..len]) else Absent(dos.fs)
    {
      FileName();
      OldGone(len);
      var err;
      ghost var k;
      err, k := dos.WriteFile(FILE, 0x81, far[..len]);
      ok := err == D.Ok;
      if ok {
        assert FileIs(dos.fs, k, far[..len]);
      }
    }

    /** The old file deleted. */
    method OldGone(ghost n: nat)
      requires Placed() && D.Text(FILE) && FILE != [] && D.Upper(FILE) == FILE
      modifies dos, dos.disk.buf, dos.disk.sectors
      ensures Placed() && Absent(dos.fs)
      ensures old(Room(dos.img, dos.fs, n)) <==> HasRoom(dos.fs) && Bam.Avail(BamOf(dos.img)) >= n / DATA + 1
    {
      ghost var fs0, img0 := dos.fs, dos.img;
      var err;
      ghost var k;
      err, k := dos.Delete(FILE);
      if err == D.Ok {
        D.UniqueAt(img0, fs0, k);
        RoomWith(img0, fs0, k, n);
        assert dos.fs.slots[k].None?;
      } else {
        assert forall j :: 0 <= j < |fs0.slots| ==> !HasFile(fs0, j);
      }
    }

    // ---- adding ----

    /** put_field: one field as a line, if it fits. */
    method PutField(f: seq<u8>) returns (ok: bool)
      requires far.Length == CAP && len <= CAP
      modifies this`len, far
      ensures ok <==> old(len) + |f| + 1 <= CAP
      ensures len == if ok then old(len) + |f| + 1 else old(len)
      ensures far[..old(len)] == old(far[..len]) && (ok ==> far[..len] == old(far[..len]) + f + [NEWLINE])
    {
      ok := len + |f| + 1 <= CAP;
      if ok {
        ghost var s := far[..len];
        forall j | 0 <= j < |f| {
          far[len + j] := f[j];
        }
        far[len + |f|] := NEWLINE;
        len := len + |f| + 1;
        assert far[..len] == s + f + [NEWLINE];
      }
    }

    /** The fields put one after another; false when one does not fit. */
    method PutFields(fields: seq<seq<u8>>) returns (ok: bool)
      requires far.Length == CAP && len <= CAP
      modifies this`len, far
      ensures old(len) <= len <= CAP && far[..old(len)] == old(far[..len])
      ensures ok <==> old(len) + |Text(fields)| <= CAP
      ensures ok ==> far[..len] == old(far[..len]) + Text(fields)
    {
      ghost var s := far[..len];
      var k := 0;
      assert fields[..0] == [];
      while k < |fields|
        invariant 0 <= k <= |fields| && old(len) <= len <= CAP
        invariant far[..len] == s + Text(fields[..k])
      {
        TextMore(s, fields, k);
        ok := PutField(fields[k]);
        if !ok {
          return;
        }
        k := k + 1;
      }
      assert fields[..k] == fields;
      ok := true;
    }

    /** The new entry's lines in the text, after the magic line when there is no text yet; the text as it was if they do
        not fit. */
    method AppendEntry(fields: seq<seq<u8>>) returns (ok: bool)
      requires Listed() && |fields| == FIELDS && AreLines(fields)
      modifies this`len, far
      ensures old(len) <= far.Length && far[..old(len)] == old(far[..len])
      ensures ok <==> |Text(With(lines, fields))| <= CAP
      ensures ok ==> len <= CAP && far[..len] == Text(With(lines, fields))
      ensures !ok ==> len == old(len)
    {
      var was := len;
      TextAppend(if lines == [] then [MAGIC] else lines, fields);
      TextOne();
      if len == 0 {
        TextEmpty(lines);
        ok := PutField(MAGIC);
      }
      ok := PutFields(fields);
      if !ok {
        len := was;
      }
    }

    /** marks_add: the entry appended and the file written.  It is refused when there are eight already, when it does
        not fit the text, or when the disk has no room for the file, and only then; then the list is as it was. */
    method Add(fields: seq<seq<u8>>) returns (ok: bool)
      requires Valid() && |fields| == FIELDS && AreLines(fields)
      modifies this`len, this`count, this`lines, far, dos, dos.disk.buf, dos.disk.sectors
      ensures Valid() && (old(Exact()) ==> Exact())
      ensures ok <==> old(Addable(fields)) && old(Room(dos.img, dos.fs, |Text(With(lines, fields))|))
      ensures ok ==> count == old(count) + 1 && lines == With(old(lines), fields) && OnFile(dos.fs, Text(lines))
      ensures !ok ==> lines == old(lines) && (count == old(count) || count == Entries(|lines|))
      ensures !ok ==> if old(Addable(fields)) then Absent(dos.fs) else dos.fs == old(dos.fs)
    {
      var was := len;
      if count >= MAX {
        return false;
      }
      ok := AppendEntry(fields);
      if !ok {
        return;
      }
      ok := WriteWith(was, fields);
    }

    /** The text written with the new entry in it, or the old text again. */
    method WriteWith(was: nat, ghost fields: seq<seq<u8>>) returns (ok: bool)
      requires Placed() && was <= CAP && len <= CAP && far[..len] == Text(With(lines, fields)) && far[..was] == Text(lines)
      requires Counted(lines, count) && count < MAX && |fields| == FIELDS && AreLines(fields)
      modifies this`len, this`count, this`lines, dos, dos.disk.buf, dos.disk.sectors
      ensures Valid() && ok == old(Room(dos.img, dos.fs, len)) && (old(Exact()) ==> Exact())
      ensures ok ==> count == old(count) + 1 && lines == With(old(lines), fields) && OnFile(dos.fs, Text(lines))
      ensures !ok ==> lines == old(lines) && count == Entries(|lines|) && Absent(dos.fs)
    {
      count := count + 1;
      ok := WriteOut();
      if ok {
        WithCounted(lines, count - 1, fields);
        lines := With(lines, fields);
      } else {
        ExactCount(lines, count - 1);
        Recount(was);
      }
    }

    /** There are not eight entries yet, and another fits the text. */
    ghost predicate Addable(fields: seq<seq<u8>>)
      reads this`count, this`lines
    {
      count < MAX && |Text(With(lines, fields))| <= CAP
    }

    /** After a failed write: the text is the old one again, and is counted anew. */
    method Recount(was: nat)
      requires far.Length == CAP && was <= CAP && far[..was] == Text(lines) && Counted(lines, 0)
      modifies this`len, this`count
      ensures Listed() && count == Entries(|lines|)
    {
      len := was;
      LinesCount(lines, 0);
      assert lines[..0] == [];
      EntriesCounted(lines);
      count := CountEntries();
    }

    /** marks_remove: the entry's lines taken out and the file written, which fails exactly when the disk has no room. */
    method Remove(i: nat) returns (ok: bool)
      requires Valid()
      modifies this`len, this`count, this`lines, far, dos, dos.disk.buf, dos.disk.sectors
      ensures Valid() && (old(Exact()) ==> Exact())
      ensures i >= old(count) ==> !ok && lines == old(lines) && count == old(count) && dos.fs == old(dos.fs)
      ensures i < old(count) ==>
                && First(i + 1) <= |old(lines)| && lines == Without(old(lines), i) && count == old(count) - 1
                && ok == old(Room(dos.img, dos.fs, |Text(Without(lines, i))|))
                && if ok then OnFile(dos.fs, Text(lines)) else Absent(dos.fs)
    {
      if i >= count {
        return false;
      }
      CutOut(i);
      WithoutCounted(lines, count, i);
      lines := Without(lines, i);
      count := count - 1;
      ok := WriteOut();
    }

    /** The entry's lines taken out of the text. */
    method CutOut(i: nat)
      requires Listed() && i < count
      modifies this`len, far
      ensures len <= CAP && First(i + 1) <= |lines| && far[..len] == Text(Without(lines, i))
    {
      var from := LineOffset(First(i));
      var to := LineOffset(First(i + 1));
      TakeOut(lines, i);
      ghost var s := far[..len];
      CloseGap(from, to);
      len := len - (to - from);
      assert far[..len] == s[..from] + s[to..];
    }

    /** The tail moved down over the entry, forwards. */
    method CloseGap(from: nat, to: nat)
      requires from <= to <= len <= far.Length
      modifies far
      ensures far[..len - (to - from)] == old(far[..len])[..from] + old(far[..len])[to..]
    {
      ghost var s := far[..len];
      var j := 0;
      while j < len - to
        invariant 0 <= j <= len - to
        invariant forall k :: 0 <= k < from ==> far[k] == s[k]
        invariant forall k :: from <= k < from + j ==> far[k] == s[to + (k - from)]
        invariant forall k :: to + j <= k < len ==> far[k] == s[k]
      {
        far[from + j] := far[to + j];
        j := j + 1;
      }
    }

    // ---- loading ----

    /** marks_load: the lines of a bookmarks file are taken, and its entries counted; a missing file, one longer than
        the text, and one with another first line are not. */
    method Load(ghost ls: seq<seq<u8>>)
      requires Placed()
      modifies this`len, this`count, this`lines, far, dos`blk, dos`job, dos.disk.buf
      ensures Placed() && dos.fs == old(dos.fs)
      ensures Absent(dos.fs) ==> Valid() && lines == [] && count == 0
      ensures OnFile(dos.fs, Text(ls)) && Counted(ls, 0) && ls != [] && |Text(ls)| <= CAP ==>
                Valid() && lines == ls && count == Entries(|ls|)
      ensures OnFile(dos.fs, Text(ls)) && AreLines(ls) && ls != [] && (|Text(ls)| > CAP || CString(ls[0]) != MAGIC) ==>
                Valid() && lines == [] && count == 0
    {
      FileName();
      OneFile(dos.img, dos.fs, Text(ls));
      var total, data;
      ghost var k;
      total, data, k := dos.Load(FILE, CAP);
      len, count, lines := 0, 0, [];
      if total == 0 {
        NoText(ls);
        return;
      }
      forall j | 0 <= j < |data| {
        far[j] := data[j];
      }
      len := total;
      Look(ls);
    }

    /** The first line decides. */
    method Look(ghost ls: seq<seq<u8>>)
      requires far.Length == CAP && 0 < len <= CAP && count == 0 && lines == []
      modifies this`len, this`count, this`lines
      ensures far[..old(len)] == Text(ls) && Counted(ls, 0) && ls != [] ==>
                Listed() && lines == ls && count == Entries(|ls|)
      ensures far[..old(len)] == Text(ls) && AreLines(ls) && ls != [] && CString(ls[0]) != MAGIC ==>
                Listed() && lines == [] && count == 0
    {
      ghost var s := far[..len];
      var next, line := ReadLine(far, len, 0, LINE_CAP);
      MagicString();
      if s == Text(ls) && AreLines(ls) && ls != [] {
        assert ls[..0] == [] && IsLine(ls[0]);
        AfterLine(ls, 0);
        LinesCount(ls, 0);
        assert line == ls[0];
      }
      if CString(line) != MAGIC {
        len := 0;
        return;
      }
      count := CountEntries();
      if s == Text(ls) && Counted(ls, 0) && ls != [] {
        EntriesCounted(ls);
        lines := ls;
      }
    }

    // ---- the list ----

    /** The list loaded again from the file. */
    method Again() returns (again: Bookmarks)
      requires Valid() && Exact() && lines != [] && OnFile(dos.fs, Text(lines))
      modifies dos`blk, dos`job, dos.disk.buf
      ensures again.Valid() && again.Exact() && again.lines == lines && again.count == count
    {
      again := new Bookmarks(dos);
      EntriesExact(count);
      again.Load(lines);
    }

    /** What was added and written is what a fresh load gives back, entry for entry. */
    method AddAndReload(fields: seq<seq<u8>>) returns (ok: bool, again: Bookmarks?)
      requires Valid() && Exact() && |fields| == FIELDS && AreLines(fields)
      modifies this`len, this`count, this`lines, far, dos, dos.disk.buf, dos.disk.sectors
      ensures ok ==> again != null && again.Valid() && again.lines == lines && again.count == count == old(count) + 1
      ensures ok ==> List(again.lines, again.count) == List(old(lines), old(count)) + [fields]
    {
      ghost var ls, n := lines, count;
      ok := Add(fields);
      again := null;
      if ok {
        ListWith(ls, n, fields);
        again := Again();
      }
    }

    /** And what a removal leaves. */
    method RemoveAndReload(i: nat) returns (ok: bool, again: Bookmarks?)
      requires Valid() && Exact() && i < count
      modifies this`len, this`count, this`lines, far, dos, dos.disk.buf, dos.disk.sectors
      ensures ok ==> again != null && again.Valid() && again.lines == lines && again.count == count == old(count) - 1
      ensures ok ==> List(again.lines, again.count) == old(List(lines, count)[..i] + List(lines, count)[i + 1..])
    {
      ghost var ls, n := lines, count;
      ok := Remove(i);
      again := null;
      if ok {
        ListWithout(ls, n, i);
        again := Again();
      }
    }
  }

  /** A list with no line past the last entry is counted as it was. */
  lemma ExactCount(ls: seq<seq<u8>>, count: nat)
    requires Counted(ls, count)
    ensures |ls| == (if ls == [] then 0 else First(count)) ==> Entries(|ls|) == count
  {
    EntriesExact(count);
  }

  lemma MagicString()
    ensures CString(MAGIC) == MAGIC
  {
    assert MAGIC[1..][1..][1..][1..] == [];
  }

  lemma NoText(ls: seq<seq<u8>>)
    ensures ls != [] ==> |Text(ls)| > 0
  {
  }

  /** There is one file of the name. */
  lemma OneFile(img: Image, fs: Fs, text: seq<u8>)
    requires Whole(img) && In(img, fs, Idle)
    ensures OnFile(fs, text) ==>
              !Absent(fs) && forall j :: 0 <= j < |fs.slots| && fs.slots[j].Some? && fs.slots[j].value.name == D.NameOf(FILE) ==>
                                           fs.slots[j].value.data == text
  {
    if OnFile(fs, text) {
      var k :| 0 <= k < |fs.slots| && FileIs(fs, k, text);
      D.UniqueAt(img, fs, k);
    }
  }

  lemma WithCounted(ls: seq<seq<u8>>, count: nat, fields: seq<seq<u8>>)
    requires Counted(ls, count) && count < MAX && |fields| == FIELDS && AreLines(fields)
    ensures Counted(With(ls, fields), count + 1)
  {
  }

  lemma WithoutCounted(ls: seq<seq<u8>>, count: nat, i: nat)
    requires Counted(ls, count) && i < count
    ensures Counted(Without(ls, i), count - 1)
  {
  }

  /** The text without an entry is the text before it and the text after it. */
  lemma TakeOut(ls: seq<seq<u8>>, i: nat)
    requires First(i + 1) <= |ls|
    ensures var from, to := StartOf(ls, First(i)), StartOf(ls, First(i + 1));
      from <= to <= |Text(ls)| && Text(Without(ls, i)) == Text(ls)[..from] + Text(ls)[to..]
  {
    var a, b := First(i), First(i + 1);
    assert ls == ls[..b] + ls[b..] && ls[..b] == ls[..a] + ls[a..b];
    TextAppend(ls[..b], ls[b..]);
    TextAppend(ls[..a], ls[a..b]);
    TextAppend(ls[..a], ls[b..]);
    Ends(Text(ls[..a]), Text(ls[a..b]), Text(ls[b..]));
  }

  lemma Ends(x: seq<u8>, y: seq<u8>, z: seq<u8>)
    ensures var s := x + y + z; s[..|x|] + s[|x + y|..] == x + z
  {
    var s := x + y + z;
    assert s[..|x|] == x && s[|x + y|..] == z;
  }

  /** Within their caps, eight entries fit the text: 5 bytes and 153 an entry, of 2048. */
  lemma {:induction false} TextFits(ls: seq<seq<u8>>, count: nat)
    requires ls != [] && ls[0] == MAGIC && Fits(ls) && |ls| == First(count)
    ensures |Text(ls)| <= 5 + 153 * count
  {
    if count == 0 {
      assert ls == [MAGIC];
      TextOne();
    } else {
      var n := First(count - 1);
      var m := ls[..n];
      assert Fits(m) by {
        forall j | 1 <= j < |m| ensures |m[j]| < CAPS[(j - 1) % FIELDS] {
          assert m[j] == ls[j];
        }
      }
      TextFits(m, count - 1);
      assert ls == m + ls[n..];
      TextAppend(m, ls[n..]);
      EntryFits(ls, count - 1);
    }
  }

  lemma EntryFits(ls: seq<seq<u8>>, i: nat)
    requires Fits(ls) && First(i + 1) == |ls|
    ensures |Text(ls[First(i)..])| <= 153
  {
    var n := First(i);
    var e := ls[n..];
    forall k | 0 <= k < FIELDS ensures |e[k]| < CAPS[k] {
      assert (n + k - 1) % FIELDS == k;
      assert e[k] == ls[n + k];
    }
    FiveLines(e);
  }

  lemma FiveLines(e: seq<seq<u8>>)
    requires |e| == 5
    ensures |Text(e)| == |e[0]| + |e[1]| + |e[2]| + |e[3]| + |e[4]| + 5
  {
    assert e[..4][..3] == e[..3] && e[..3][..2] == e[..2] && e[..2][..1] == e[..1] && e[..1][..0] == [];
    assert |Text(e[..1])| == |e[0]| + 1;
    assert |Text(e[..2])| == |Text(e[..1])| + |e[1]| + 1;
    assert |Text(e[..3])| == |Text(e[..2])| + |e[2]| + 1;
    assert |Text(e[..4])| == |Text(e[..3])| + |e[3]| + 1;
    assert e[..5] == e;
  }

  /** So on such a list only a ninth entry or the disk refuses. */
  lemma RoomForEight(ls: seq<seq<u8>>, count: nat, fields: seq<seq<u8>>)
    requires Counted(ls, count) && |ls| == (if ls == [] then 0 else First(count)) && (ls == [] ==> count == 0)
    requires count < MAX && Fits(ls) && |fields| == FIELDS && forall k :: 0 <= k < FIELDS ==> |fields[k]| < CAPS[k]
    ensures |Text(With(ls, fields))| <= CAP && Fits(With(ls, fields))
  {
    var base, all := if ls == [] then [MAGIC] else ls, With(ls, fields);
    forall j | 1 <= j < |all| ensures |all[j]| < CAPS[(j - 1) % FIELDS] {
      if j < |base| {
        assert all[j] == ls[j];
      } else {
        FieldIndex(count, j - |base|);
        assert all[j] == fields[j - |base|];
      }
    }
    TextFits(all, count + 1);
  }

  /** What marks_get returns of such a list is what was added. */
  lemma FieldIs(ls: seq<seq<u8>>, count: nat, i: nat, k: nat)
    requires Counted(ls, count) && i < count && k < FIELDS && Fits(ls)
    ensures Field(ls, i, k) == List(ls, count)[i][k]
  {
    FieldIndex(i, k);
    assert |ls[First(i) + k]| < CAPS[(First(i) + k - 1) % FIELDS];
  }

  lemma FieldIndex(count: nat, k: nat)
    requires k < FIELDS
    ensures (First(count) + k - 1) % FIELDS == k
  {
  }

  lemma TextOne()
    ensures Text([MAGIC]) == MAGIC + [NEWLINE]
  {
    assert [MAGIC][..0] == [];
  }

  lemma TextEmpty(ls: seq<seq<u8>>)
    ensures Text(ls) == [] <==> ls == []
  {
  }

  lemma FileName()
    ensures D.Text(FILE) && FILE != [] && D.Upper(FILE) == FILE
  {
  }
}
