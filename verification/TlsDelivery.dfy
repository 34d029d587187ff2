/** What the caller of the TLS engine is given (src/tls/tls.c, enc_feed and record_end): over whole runs, the content of
    the records that come once the handshake is over, each with a verdict. */
module TlsDelivery {
  import opened Words
  import opened Tls
  import opened TlsMessages
  import opened TlsPieces
  import opened TlsEngine
  import opened TlsRuns

  /** What a step gives the caller: a byte of content while connected, and at the end of a record that began so whether
      to keep what it held. */
  ghost function Delivered(e: Env, t: Conn, s: Step): seq<Event>
  {
    if !s.Byte? || !InRecord(t, 1) || !Encrypted(t) then []
    else if t.rec.pos + 1 < t.rec.len - 16 then
      if t.hs.phase == Connected then [Data(e.plain(t.rec.openKey, t.rec.taken, s.b))] else []
    else if t.rec.pos + 1 == t.rec.len && t.rec.connected then
      [RecordEnd(e.check(t.rec.openKey, t.rec.taken, t.rec.tag + [s.b]) && t.rec.inner == REC_APPDATA)]
    else []
  }

  lemma StepGives(e: Env, t: Conn, s: Step)
    requires ConnOk(t)
    ensures Do(e, t, s).events == t.events + Delivered(e, t, s)
  {
    if s.Byte? && InRecord(t, 1) && Encrypted(t) {
      EncGives(e, t, s.b);
    }
  }

  lemma EncGives(e: Env, t: Conn, b: u8)
    requires InRecord(t, 1) && Encrypted(t)
    ensures Ended(e, EncByte(e, t, b)).events == t.events + Delivered(e, t, Byte(b))
  {
    var d := e.plain(t.rec.openKey, t.rec.taken, b);
    assert DataEvents([d]) == [Data(d)];
  }

  /** A record is marked connected only while the connection is. */
  lemma StepMarks(e: Env, t: Conn, s: Step)
    requires ConnOk(t)
    ensures Do(e, t, s).rec.connected ==> t.rec.connected || t.hs.phase == Connected
  {
  }

  /** Everything the steps of a run give. */
  ghost function Deliveries(e: Env, s: seq<Step>): seq<Event>
    decreases |s|
  {
    if s == [] then []
    else Deliveries(e, s[..|s| - 1]) + Delivered(e, After(e, s[..|s| - 1]), s[|s| - 1])
  }

  /** Over a run the caller is given exactly this, in order. */
  lemma {:induction false} Given(e: Env, s: seq<Step>)
    ensures After(e, s).events == Deliveries(e, s)
    decreases |s|
  {
    if s != [] {
      Given(e, s[..|s| - 1]);
      AfterLast(e, s);
      StepGives(e, After(e, s[..|s| - 1]), s[|s| - 1]);
    }
  }

  /** And nothing before a handshake is complete: whenever something has been given, or will be at the end of the record
      in progress, the run passed through a connected state. */
  lemma {:induction false} NothingBefore(e: Env, s: seq<Step>) returns (n: nat)
    requires After(e, s).events != [] || After(e, s).rec.connected || After(e, s).hs.phase == Connected
    ensures n <= |s| && After(e, s[..n]).hs.phase == Connected
    decreases |s|
  {
    if After(e, s).hs.phase == Connected {
      n := |s|;
      assert s[..n] == s;
    } else {
      var q := s[..|s| - 1];
      AfterLast(e, s);
      StepGives(e, After(e, q), s[|s| - 1]);
      StepMarks(e, After(e, q), s[|s| - 1]);
      n := NothingBefore(e, q);
      assert q[..n] == s[..n];
    }
  }

  /** A failure is final: over every run that goes on from it, the phase, the error and what the caller was given stay,
      and the out buffer only empties. */
  lemma {:induction false} FailureIsFinal(e: Env, s: seq<Step>, n: nat) returns (sent: nat)
    requires n <= |s| && After(e, s[..n]).hs.phase == Failed
    ensures var t, u := After(e, s[..n]), After(e, s);
            && Shown(u.hs.(out := [])) == Shown(t.hs.(out := [])) && u.events == t.events
            && sent <= |t.hs.out| && u.hs.out == t.hs.out[sent..]
    decreases |s|
  {
    if n == |s| {
      sent := 0;
      assert s[..n] == s;
    } else {
      var q, x := s[..|s| - 1], s[|s| - 1];
      assert q[..n] == s[..n];
      sent := FailureIsFinal(e, q, n);
      AfterLast(e, s);
      var more := FailedStep(e, After(e, q), x);
      sent := sent + more;
    }
  }

  lemma FailedStep(e: Env, t: Conn, s: Step) returns (sent: nat)
    requires ConnOk(t) && t.hs.phase == Failed
    ensures var u := Do(e, t, s);
            && Shown(u.hs.(out := [])) == Shown(t.hs.(out := [])) && u.events == t.events
            && sent <= |t.hs.out| && u.hs.out == t.hs.out[sent..]
  {
    sent := if s.ConsumedStep? then Least(s.n, |t.hs.out|) else 0;
  }

  // ---- whole records -------------------------------------------------------------------------------------------

  /** The verdict on an encrypted record, of a connection that was connected when it ended: `began` if it was when the
      record started, `inner` its type, `last` its content's last byte. */
  function EndOf(ok: bool, began: bool, inner: u8, last: u8): (Phase, Error)
  {
    if !ok then (Failed, BadTag)
    else if inner == REC_APPDATA then if began then (Connected, NoError) else (Failed, BadMessage)
    else if inner == REC_HANDSHAKE then (Connected, NoError)
    else if inner == REC_ALERT then if last == 0 then (Closed, NoError) else (Failed, AlertReceived)
    else (Failed, BadRecord)
  }

  /** A whole encrypted record, ciphertext c and its tag, given to a connected engine: every byte of its content is
      delivered, then the verdict: kept if and only if the tag is right and the type application data; after it the
      connection goes on, has closed at a close_notify, or has failed.  The alert of a record whose content is empty is
      read from the record before it. */
  lemma WholeRecord(e: Env, t: Conn, c: seq<u8>, tag: seq<u8>)
    requires InRecord(t, |c| + 16) && Encrypted(t) && t.hs.phase == Connected
    requires t.rec.pos == 0 && t.rec.tag == [] && t.rec.len == |c| + 16 && |tag| == 16
    ensures var u, d := Run(e, t, c + tag), Plains(e, t.rec.openKey, t.rec.taken, c);
            var content, inner := d[..|c| - 1], d[|c| - 1];
            var ok := e.check(t.rec.openKey, t.rec.taken + c, tag);
            var last := if content == [] then t.rec.last1 else content[|content| - 1];
            && u.events == t.events + DataEvents(content)
                           + (if t.rec.connected then [RecordEnd(ok && inner == REC_APPDATA)] else [])
            && u.hs.phase == EndOf(ok, t.rec.connected, inner, last).0
            && (u.hs.phase == Failed ==> u.hs.error == EndOf(ok, t.rec.connected, inner, last).1)
            && (ok && inner == REC_ALERT ==> u.hs.alert == last)
            && u.rec.hdr == []
  {
    var v := TagPiece(CtPiece(e, t, c), tag);
    RecordRun(e, t, c, tag);
    RecordRead(e, t, c, tag);
    EndJudged(e, v);
  }

  /** What has been read of the record before it ends. */
  lemma RecordRead(e: Env, t: Conn, c: seq<u8>, tag: seq<u8>)
    requires HsOk(t.hs) && t.hs.phase == Connected && t.rec.pos == 0 && t.rec.tag == [] && t.rec.len == |c| + 16 && c != []
    ensures var v, d := TagPiece(CtPiece(e, t, c), tag), Plains(e, t.rec.openKey, t.rec.taken, c);
            var content := d[..|c| - 1];
            && v.events == t.events + DataEvents(content) && v.rec.inner == d[|c| - 1] && v.rec.tag == tag
            && v.rec.taken == t.rec.taken + c && v.rec.openKey == t.rec.openKey && v.rec.connected == t.rec.connected
            && v.rec.last1 == if content == [] then t.rec.last1 else content[|content| - 1]
  {
    assert [] + tag == tag;
  }

  lemma EndJudged(e: Env, v: Conn)
    requires HsOk(v.hs) && v.hs.phase == Connected && Encrypted(v)
    ensures var u, ok := EndRecord(e, v), e.check(v.rec.openKey, v.rec.taken, v.rec.tag);
            var end := EndOf(ok, v.rec.connected, v.rec.inner, v.rec.last1);
            && u.events == v.events + (if v.rec.connected then [RecordEnd(ok && v.rec.inner == REC_APPDATA)] else [])
            && u.hs.phase == end.0 && (u.hs.phase == Failed ==> u.hs.error == end.1)
            && (ok && v.rec.inner == REC_ALERT ==> u.hs.alert == v.rec.last1) && u.rec.hdr == []
  {
  }

  lemma RecordRun(e: Env, t: Conn, c: seq<u8>, tag: seq<u8>)
    requires InRecord(t, |c| + 16) && Encrypted(t) && t.hs.phase == Connected
    requires t.rec.pos == 0 && t.rec.len == |c| + 16 && |tag| == 16
    ensures var v := TagPiece(CtPiece(e, t, c), tag);
            && v.hs == t.hs && Encrypted(v) && v.rec.pos == v.rec.len
            && Run(e, t, c + tag) == EndRecord(e, v)
  {
    CtRun(e, t, c);
    EncRunSplit(e, t, c, tag);
    TagRun(e, CtPiece(e, t, c), tag);
    EncryptedRun(e, t, c + tag);
  }

  // ---- and their headers ---------------------------------------------------------------------------------------

  lemma HeaderGrows(e: Env, t: Conn, b: u8)
    requires ConnOk(t) && !Terminal(t.hs.phase) && |t.rec.hdr| < 4
    ensures Feed(e, t, b) == t.(rec := t.rec.(hdr := t.rec.hdr + [b]))
  {
  }

  lemma RunFive(e: Env, t: Conn, p: seq<u8>)
    requires ConnOk(t) && !Terminal(t.hs.phase) && t.rec.hdr == [] && |p| == 5
    ensures var u := t.(rec := t.rec.(hdr := p[..4])); ConnOk(u) && Run(e, t, p) == Feed(e, u, p[4])
  {
    var t1, t2 := t.(rec := t.rec.(hdr := p[..1])), t.(rec := t.rec.(hdr := p[..2]));
    var t3 := t.(rec := t.rec.(hdr := p[..3]));
    var t4 := t.(rec := t.rec.(hdr := p[..4]));
    assert [] + [p[0]] == p[..1] && p[..1] + [p[1]] == p[..2] && p[..2] + [p[2]] == p[..3] && p[..3] + [p[3]] == p[..4];
    HeaderGrows(e, t, p[0]);
    HeaderGrows(e, t1, p[1]);
    HeaderGrows(e, t2, p[2]);
    HeaderGrows(e, t3, p[3]);
    assert p[1..][1..] == p[2..] && p[2..][1..] == p[3..] && p[3..][1..] == p[4..] && p[4..][1..] == [];
    assert Run(e, t, p) == Run(e, t1, p[1..]) == Run(e, t2, p[2..]) == Run(e, t3, p[3..]) == Run(e, t4, p[4..]);
    assert Run(e, t4, p[4..]) == Run(e, Feed(e, t4, p[4]), []);
  }

  /** What the five bytes of a header, type, version and length, decide: a version that is not 3, a length over
      2^14 + 256 (section 5.2 of RFC 8446), an encrypted record without room for its type and tag, and, once there are
      keys, a record in the clear that is no alert and no change_cipher_spec are refused; an empty one is over at
      once. */
  lemma HeaderDecides(e: Env, t: Conn, p: seq<u8>)
    requires ConnOk(t) && !Terminal(t.hs.phase) && t.rec.hdr == [] && |p| == 5
    ensures var u, n, sealed := Run(e, t, p), p[3] as int * 0x100 + p[4], t.hs.f.rdOn && p[0] == 23;
            && u.events == t.events
            && if p[1] != 3 || n > 0x4100 || (sealed && n < 17)
                  || (t.hs.f.rdOn && p[0] != 20 && p[0] != 21 && p[0] != 23) then
                 u.hs == Fail(t.hs, BadRecord)
               else
                 && u.hs == t.hs && Encrypted(u) == sealed
                 && if n == 0 then u.rec.hdr == []
                    else InRecord(u, n) && u.rec.pos == 0 && u.rec.len == n && u.rec.kind == p[0]
  {
    RunFive(e, t, p);
    assert p[..4] + [p[4]] == p;
  }

  /** The five bytes of a header: type, version, and the length, high byte first.  The header is the first thing the kit
      is given, with the read key of the time; the number of a record counts under its key. */
  lemma RecordBegins(e: Env, t: Conn, minor: u8, n: u16)
    requires ConnOk(t) && !Terminal(t.hs.phase) && t.rec.hdr == [] && t.hs.f.rdOn && 17 <= n <= 0x4100
    ensures var p := [REC_APPDATA, 3, minor] + Pair(n); var u := Run(e, t, p);
            && InRecord(u, n) && Encrypted(u) && u.hs == t.hs && u.events == t.events
            && u.rec.pos == 0 && u.rec.len == n && u.rec.tag == [] && u.rec.taken == p
            && u.rec.connected == (t.hs.phase == Connected) && u.rec.last1 == t.rec.last1
            && u.rec.openKey == TrafficKey(t.hs.k.keys, if t.rec.rdApp then t.hs.k.master else [], t.rec.rdCount)
  {
    var p := [REC_APPDATA, 3, minor] + Pair(n);
    RunFive(e, t, p);
    assert p[..4] + [p[4]] == p;
  }

  /** A sealed record as it comes, header and all, to a connection that is complete. */
  lemma SealedRecord(e: Env, t: Conn, minor: u8, c: seq<u8>, tag: seq<u8>)
    requires ConnOk(t) && t.hs.phase == Connected && t.rec.hdr == [] && t.hs.f.rdOn
    requires 1 <= |c| <= 0x40f0 && |tag| == 16
    ensures var hdr := [REC_APPDATA, 3, minor] + Pair(|c| + 16);
            var key := TrafficKey(t.hs.k.keys, if t.rec.rdApp then t.hs.k.master else [], t.rec.rdCount);
            var u, d := Run(e, t, hdr + (c + tag)), Plains(e, key, hdr, c);
            var content, inner := d[..|c| - 1], d[|c| - 1];
            var ok := e.check(key, hdr + c, tag);
            var last := if content == [] then t.rec.last1 else content[|content| - 1];
            && u.events == t.events + DataEvents(content) + [RecordEnd(ok && inner == REC_APPDATA)]
            && u.hs.phase == EndOf(ok, true, inner, last).0
            && (u.hs.phase == Failed ==> u.hs.error == EndOf(ok, true, inner, last).1)
            && (ok && inner == REC_ALERT ==> u.hs.alert == last)
            && u.rec.hdr == []
  {
    var hdr := [REC_APPDATA, 3, minor] + Pair(|c| + 16);
    RecordBegins(e, t, minor, |c| + 16);
    RunSplit(e, t, hdr, c + tag);
    WholeRecord(e, Run(e, t, hdr), c, tag);
  }
}
