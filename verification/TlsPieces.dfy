/** Pieces of a stream against single bytes: what the engine does with a piece of a certificate, of a message, of an
    encrypted record or of a plaintext one is what the machine of Tls does with its bytes. */
module TlsPieces {
  import opened Words
  import opened Tls

  /** All that a failed connection still shows. */
  function Shown(h: Hs): (Phase, Error, u8, Verdict, seq<u8>)
  {
    (h.phase, h.error, h.alert, h.f.sigState, h.out)
  }

  ghost predicate SameHs(a: Hs, b: Hs)
  {
    if b.phase == Failed then Shown(a) == Shown(b) else a == b
  }

  // ---- Certificate pieces --------------------------------------------------------------------------------------

  lemma {:induction false} CertRunSplit(cap: nat, c: Cert, p: seq<u8>, q: seq<u8>)
    ensures CertRun(cap, c, p + q) == CertRun(cap, CertRun(cap, c, p), q)
    decreases |p|
  {
    if p == [] {
      assert p + q == q;
    } else {
      assert (p + q)[1..] == p[1..] + q;
      CertRunSplit(cap, CertByte(cap, c, p[0]), p[1..], q);
    }
  }

  lemma {:induction false} CertStuck(cap: nat, c: Cert, p: seq<u8>)
    requires c.error != NoError
    ensures CertRun(cap, c, p) == c
    decreases |p|
  {
    if p != [] {
      CertStuck(cap, c, p[1..]);
    }
  }

  lemma KeptAppend(cap: nat, s: seq<u8>, p: seq<u8>, q: seq<u8>)
    ensures Kept(cap, Kept(cap, s, p), q) == Kept(cap, s, p + q)
  {
  }

  /** A piece of a certificate, all at once. */
  function DerPiece(cap: nat, c: Cert, p: seq<u8>): Cert
    requires |p| <= c.left
  {
    c.(store := Kept(cap, c.store, p), left := c.left - |p|, phase := if |p| == c.left then ExtLength else Der)
  }

  lemma {:induction false} DerRun(cap: nat, c: Cert, p: seq<u8>)
    requires c.phase == Der && c.error == NoError && 0 < |p| <= c.left
    ensures CertRun(cap, c, p) == DerPiece(cap, c, p)
    decreases |p|
  {
    var c1 := CertByte(cap, c, p[0]);
    assert [p[0]] + p[1..] == p;
    if |p| == 1 {
      assert p == [p[0]];
    } else {
      DerRun(cap, c1, p[1..]);
      KeptAppend(cap, c.store, [p[0]], p[1..]);
    }
  }

  /** A piece of an entry's extensions, skipped at once. */
  function ExtPiece(c: Cert, n: nat): Cert
    requires n <= c.extLeft
  {
    if n == c.extLeft then NextEntry(c.(extLeft := 0)) else c.(extLeft := c.extLeft - n)
  }

  lemma {:induction false} ExtRun(cap: nat, c: Cert, p: seq<u8>)
    requires c.phase == Extensions && c.error == NoError && 0 < |p| <= c.extLeft
    ensures CertRun(cap, c, p) == ExtPiece(c, |p|)
    decreases |p|
  {
    if |p| > 1 {
      ExtRun(cap, CertByte(cap, c, p[0]), p[1..]);
    }
  }

  /** Leaving an empty certificate or extension block early changes nothing once a byte has come. */
  lemma LeaveEmpty(cap: nat, c: Cert, p: seq<u8>)
    requires p != [] && c.error == NoError
    ensures c.phase == Der && c.left == 0 ==> CertRun(cap, c.(phase := ExtLength), p) == CertRun(cap, c, p)
    ensures c.phase == Extensions && c.extLeft == 0 ==> CertRun(cap, NextEntry(c), p) == CertRun(cap, c, p)
  {
  }

  // ---- handshake pieces ----------------------------------------------------------------------------------------

  lemma {:induction false} HsRunSplit(e: Env, h: Hs, p: seq<u8>, q: seq<u8>)
    requires HsOk(h)
    ensures HsRun(e, h, p + q) == HsRun(e, HsRun(e, h, p), q)
    decreases |p|
  {
    if p == [] {
      assert p + q == q;
    } else {
      assert (p + q)[1..] == p[1..] + q;
      HsRunSplit(e, HsByte(e, h, p[0]), p[1..], q);
    }
  }

  lemma {:induction false} HsStuck(e: Env, h: Hs, p: seq<u8>)
    requires h.phase == Failed
    ensures HsRun(e, h, p) == h
    decreases |p|
  {
    if p != [] {
      HsStuck(e, h, p[1..]);
    }
  }

  lemma SpliceAppend(buf: seq<u8>, at: nat, p: seq<u8>, q: seq<u8>)
    requires at + |p| + |q| <= |buf|
    ensures Splice(Splice(buf, at, p), at + |p|, q) == Splice(buf, at, p + q)
  {
  }

  lemma ReadAppend(cap: nat, m: Message, p: seq<u8>, q: seq<u8>)
    requires BodyOk(m) && m.pos >= 4 && m.pos - 4 + |p| + |q| <= m.len
    ensures BodyOk(Read(cap, m, p)) ==> Read(cap, Read(cap, m, p), q) == Read(cap, m, p + q)
    ensures !BodyOk(Read(cap, m, p)) ==> m.whole == Streamed && Read(cap, m, p + q).cert == Read(cap, m, p).cert
  {
    match m.whole
    case Buffered => SpliceAppend(m.buf, m.pos - 4, p, q);
    case InFin => SpliceAppend(m.fin, m.pos - 4, p, q);
    case Streamed =>
      var c := CertRun(cap, m.cert, p);
      CertRunSplit(cap, m.cert, p, q);
      if c.error != NoError {
        CertStuck(cap, c, q);
      }
  }

  lemma HashedAppend(k: Secrets, kind: u8, p: seq<u8>, q: seq<u8>)
    ensures Hashed(Hashed(k, kind, p), kind, q) == Hashed(k, kind, p + q)
  {
    assert k.transcript + p + q == k.transcript + (p + q);
  }

  /** Two pieces of a body are one: exactly while nothing has failed, and visibly after. */
  lemma BodyAppend(e: Env, h: Hs, p: seq<u8>, q: seq<u8>)
    requires BodyOk(h.m) && h.phase != Failed && h.m.pos >= 4 && h.m.pos - 4 + |p| + |q| <= h.m.len
    ensures Body(e, h, p).phase != Failed ==> Body(e, Body(e, h, p), q) == Body(e, h, p + q)
    ensures Body(e, h, p).phase == Failed ==> Shown(Body(e, h, p + q)) == Shown(Body(e, h, p))
  {
    ReadAppend(e.certCap, h.m, p, q);
    HashedAppend(h.k, h.m.kind, p, q);
  }

  lemma FinishFailed(e: Env, h: Hs)
    requires h.phase == Failed
    ensures Shown(Finish(e, h)) == Shown(h)
  {
  }

  /** A piece of a body, and the message's end if it is the last. */
  function BodyPiece(e: Env, h: Hs, p: seq<u8>): Hs
    requires BodyOk(h.m) && h.m.pos >= 4 && h.m.pos - 4 + |p| <= h.m.len
  {
    var h1 := Body(e, h, p);
    if h1.m.pos - 4 == h1.m.len then Finish(e, h1) else h1
  }

  lemma {:induction false} BodyRun(e: Env, h: Hs, p: seq<u8>)
    requires HsOk(h) && h.phase != Failed && h.m.pos >= 4 && 0 < |p| && h.m.pos - 4 + |p| <= h.m.len
    ensures SameHs(BodyPiece(e, h, p), HsRun(e, h, p))
    decreases |p|
  {
    if |p| == 1 {
      assert p == [p[0]];
      assert HsRun(e, h, p) == HsByte(e, h, p[0]);
    } else {
      var h1 := Body(e, h, [p[0]]);
      assert HsByte(e, h, p[0]) == h1;
      assert [p[0]] + p[1..] == p;
      BodyAppend(e, h, [p[0]], p[1..]);
      if h1.phase == Failed {
        HsStuck(e, h1, p[1..]);
        FinishFailed(e, Body(e, h, p));
      } else {
        BodyRun(e, h1, p[1..]);
        assert BodyPiece(e, h, p) == BodyPiece(e, h1, p[1..]);
      }
    }
  }

  /** Neither connects nor closes, and keys once up stay up. */
  ghost predicate Tame(h: Hs, r: Hs)
  {
    && (r.phase == Connected || r.phase == Closed ==> r.phase == h.phase)
    && (h.f.rdOn ==> r.f.rdOn)
  }

  lemma ServerHelloTame(e: Env, h: Hs)
    requires h.m.len <= MSG_MAX
    ensures Tame(h, ServerHello(e, h))
  {
  }

  lemma ServerFinishedTame(e: Env, h: Hs)
    ensures Tame(h, ServerFinished(e, h))
  {
  }

  lemma MsgEndTame(e: Env, h: Hs)
    requires h.phase != Failed ==> BodyOk(h.m)
    ensures Tame(h, MsgEnd(e, h))
  {
    if h.phase != Failed {
      if h.m.kind == HS_SERVER_HELLO {
        ServerHelloTame(e, h);
      } else if h.m.kind == HS_FINISHED {
        ServerFinishedTame(e, h);
      }
    }
  }

  lemma HsByteTame(e: Env, h: Hs, b: u8)
    requires HsOk(h)
    ensures Tame(h, HsByte(e, h, b))
  {
    if h.phase != Failed {
      if h.m.pos < 4 {
        var h2 := MsgBegin(Header(e, h, b));
        if h.m.pos == 3 && h2.m.len == 0 {
          MsgEndTame(e, h2);
        }
      } else {
        var h1 := Body(e, h, [b]);
        if h1.m.pos - 4 == h1.m.len {
          MsgEndTame(e, h1);
        }
      }
    }
  }

  // ---- encrypted pieces ----------------------------------------------------------------------------------------

  /** Ciphertext decrypted, each byte after all before it. */
  function Plains(e: Env, key: TrafficKey, taken: seq<u8>, c: seq<u8>): (d: seq<u8>)
    ensures |d| == |c|
  {
    seq<u8>(|c|, i requires 0 <= i < |c| => e.plain(key, taken + c[..i], c[i]))
  }

  lemma PlainsAppend(e: Env, key: TrafficKey, taken: seq<u8>, c: seq<u8>, d: seq<u8>)
    ensures Plains(e, key, taken, c + d) == Plains(e, key, taken, c) + Plains(e, key, taken + c, d)
  {
    forall i | 0 <= i < |c| ensures Plains(e, key, taken, c + d)[i] == Plains(e, key, taken, c)[i] {
      assert (c + d)[..i] == c[..i];
    }
    forall i | 0 <= i < |d| ensures Plains(e, key, taken, c + d)[|c| + i] == Plains(e, key, taken + c, d)[i] {
      assert taken + (c + d)[..|c| + i] == taken + c + d[..i];
    }
  }

  lemma PlainsOne(e: Env, key: TrafficKey, taken: seq<u8>, b: u8)
    ensures Plains(e, key, taken, [b]) == [e.plain(key, taken, b)]
  {
    assert taken + [b][..0] == taken;
  }

  function EncRun(e: Env, t: Conn, p: seq<u8>): (r: Conn)
    requires HsOk(t.hs) && t.rec.len >= 17
    ensures HsOk(r.hs) && r.rec.len == t.rec.len
    decreases |p|
  {
    if p == [] || t.hs.phase == Failed then t else EncRun(e, EncByte(e, t, p[0]), p[1..])
  }

  lemma {:induction false} EncRunSplit(e: Env, t: Conn, p: seq<u8>, q: seq<u8>)
    requires HsOk(t.hs) && t.rec.len >= 17
    ensures EncRun(e, t, p + q) == EncRun(e, EncRun(e, t, p), q)
    decreases |p|
  {
    if p == [] {
      assert p + q == q;
    } else {
      assert (p + q)[1..] == p[1..] + q;
      if t.hs.phase != Failed {
        EncRunSplit(e, EncByte(e, t, p[0]), p[1..], q);
      }
    }
  }

  /** A piece's decrypted content: all of it, without the inner type if that is its last byte. */
  function Content(r: Rec, d: seq<u8>): seq<u8>
  {
    if d != [] && r.pos + |d| == r.len - 16 then d[..|d| - 1] else d
  }

  function InnerType(r: Rec, d: seq<u8>): u8
  {
    if d != [] && r.pos + |d| == r.len - 16 then d[|d| - 1] else r.inner
  }

  /** A piece of ciphertext, all at once. */
  function CtPiece(e: Env, t: Conn, c: seq<u8>): (r: Conn)
    requires HsOk(t.hs)
    ensures HsOk(r.hs)
  {
    var d := Plains(e, t.rec.openKey, t.rec.taken, c);
    var content := Content(t.rec, d);
    Deliver(e, t.(rec := Opened(t.rec, c, content, InnerType(t.rec, d))), content)
  }

  lemma OpenedAppend(r: Rec, b: u8, d: u8, i: u8, c: seq<u8>, content: seq<u8>, inner: u8)
    ensures Opened(Opened(r, [b], [d], i), c, content, inner) == Opened(r, [b] + c, [d] + content, inner)
  {
    assert r.taken + [b] + c == r.taken + ([b] + c);
    var n := |content|;
    if n >= 1 {
      assert ([d] + content)[n] == content[n - 1];
    }
    if n >= 2 {
      assert ([d] + content)[n - 1] == content[n - 2];
    }
  }

  lemma DataAppend(p: seq<u8>, q: seq<u8>)
    ensures DataEvents(p) + DataEvents(q) == DataEvents(p + q)
  {
  }

  /** Two deliveries are one, unless the first fails. */
  lemma DeliverAppend(e: Env, t: Conn, r: Rec, d: u8, q: seq<u8>)
    requires HsOk(t.hs)
    ensures var t1 := Deliver(e, t, [d]);
            t1.hs.phase != Failed ==> Deliver(e, t1.(rec := r), q) == Deliver(e, t.(rec := r), [d] + q)
    ensures var t1 := Deliver(e, t, [d]);
            t1.hs.phase == Failed ==> Deliver(e, t, [d] + q).hs == t1.hs && Deliver(e, t, [d] + q).events == t1.events
  {
    var t1 := Deliver(e, t, [d]);
    if t.hs.phase == Connected {
      DataAppend([d], q);
      assert t.events + DataEvents([d]) + DataEvents(q) == t.events + (DataEvents([d]) + DataEvents(q));
    } else {
      HsByteTame(e, t.hs, d);
      assert HsRun(e, t.hs, [d]) == HsByte(e, t.hs, d);
      HsRunSplit(e, t.hs, [d], q);
      if t1.hs.phase == Failed {
        HsStuck(e, t1.hs, q);
      }
    }
  }

  /** Equal, but that a failed connection's record may be at another byte. */
  ghost predicate SameButRecord(a: Conn, b: Conn)
  {
    a.hs == b.hs && a.events == b.events && (b.hs.phase != Failed ==> a.rec == b.rec)
  }

  lemma CtByte(e: Env, t: Conn, b: u8)
    requires HsOk(t.hs) && t.rec.len >= 17 && t.rec.pos < t.rec.len - 16
    ensures EncByte(e, t, b) == CtPiece(e, t, [b])
  {
    PlainsOne(e, t.rec.openKey, t.rec.taken, b);
    var d := e.plain(t.rec.openKey, t.rec.taken, b);
    if t.rec.pos + 1 == t.rec.len - 16 {
      assert [d][..0] == [];
      assert t.events + DataEvents([]) == t.events;
    }
  }

  lemma CtAppend(e: Env, t: Conn, b: u8, c: seq<u8>)
    requires HsOk(t.hs) && t.rec.len >= 17 && c != [] && t.rec.pos + 1 + |c| <= t.rec.len - 16
    ensures var t1 := CtPiece(e, t, [b]);
            t1.hs.phase != Failed ==> CtPiece(e, t1, c) == CtPiece(e, t, [b] + c)
    ensures var t1 := CtPiece(e, t, [b]);
            t1.hs.phase == Failed ==> CtPiece(e, t, [b] + c).hs == t1.hs && CtPiece(e, t, [b] + c).events == t1.events
  {
    var r := t.rec;
    PlainsOne(e, r.openKey, r.taken, b);
    PlainsAppend(e, r.openKey, r.taken, [b], c);
    var d := e.plain(r.openKey, r.taken, b);
    var ds := Plains(e, r.openKey, r.taken + [b], c);
    var r1 := Opened(r, [b], [d], r.inner);
    var content := Content(r1, ds);
    assert Content(r, [d] + ds) == [d] + content;
    OpenedAppend(r, b, d, r.inner, c, content, InnerType(r1, ds));
    DeliverAppend(e, t.(rec := r1), Opened(r1, c, content, InnerType(r1, ds)), d, content);
  }

  lemma {:induction false} CtRun(e: Env, t: Conn, c: seq<u8>)
    requires HsOk(t.hs) && t.hs.phase != Failed && t.rec.len >= 17 && c != [] && t.rec.pos + |c| <= t.rec.len - 16
    ensures SameButRecord(CtPiece(e, t, c), EncRun(e, t, c))
    decreases |c|
  {
    CtByte(e, t, c[0]);
    var t1 := EncByte(e, t, c[0]);
    if |c| == 1 {
      assert c == [c[0]];
      assert EncRun(e, t1, []) == t1;
    } else {
      assert [c[0]] + c[1..] == c;
      CtAppend(e, t, c[0], c[1..]);
      if t1.hs.phase != Failed {
        CtRun(e, t1, c[1..]);
      }
    }
  }

  /** A piece of a record's tag. */
  function TagPiece(t: Conn, p: seq<u8>): Conn
  {
    t.(rec := t.rec.(tag := t.rec.tag + p, pos := t.rec.pos + |p|))
  }

  lemma TagAppend(t: Conn, b: u8, p: seq<u8>)
    ensures TagPiece(TagPiece(t, [b]), p) == TagPiece(t, [b] + p)
  {
    assert t.rec.tag + [b] + p == t.rec.tag + ([b] + p);
  }

  lemma {:induction false} TagRun(e: Env, t: Conn, p: seq<u8>)
    requires HsOk(t.hs) && t.hs.phase != Failed && t.rec.len >= 17 && t.rec.pos >= t.rec.len - 16
    ensures EncRun(e, t, p) == TagPiece(t, p)
    decreases |p|
  {
    if p == [] {
      assert t.rec.tag + [] == t.rec.tag;
    } else {
      var t1 := TagPiece(t, [p[0]]);
      assert EncByte(e, t, p[0]) == t1;
      TagRun(e, t1, p[1..]);
      TagAppend(t, p[0], p[1..]);
      assert [p[0]] + p[1..] == p;
    }
  }

  // ---- whole records -------------------------------------------------------------------------------------------

  lemma {:induction false} RunSplit(e: Env, t: Conn, p: seq<u8>, q: seq<u8>)
    requires ConnOk(t)
    ensures Run(e, t, p + q) == Run(e, Run(e, t, p), q)
    decreases |p|
  {
    if p == [] {
      assert p + q == q;
    } else {
      assert (p + q)[1..] == p[1..] + q;
      RunSplit(e, Feed(e, t, p[0]), p[1..], q);
    }
  }

  lemma {:induction false} RunStuck(e: Env, t: Conn, p: seq<u8>)
    requires ConnOk(t) && Terminal(t.hs.phase)
    ensures Run(e, t, p) == t
    decreases |p|
  {
    if p != [] {
      RunStuck(e, t, p[1..]);
    }
  }

  /** The same to the caller: exactly, or in all that a closed or a failed connection still shows. */
  ghost predicate Same(a: Conn, b: Conn)
  {
    && a.events == b.events
    && SameHs(a.hs, b.hs)
    && (!Terminal(b.hs.phase) ==> a.rec == b.rec)
  }

  lemma SameRun(e: Env, a: Conn, b: Conn, p: seq<u8>)
    requires ConnOk(a) && ConnOk(b) && Same(a, b)
    ensures Same(Run(e, a, p), Run(e, b, p))
  {
    if Terminal(b.hs.phase) {
      RunStuck(e, a, p);
      RunStuck(e, b, p);
    } else {
      assert a == b;
    }
  }

  /** Inside a record, with bytes still to come. */
  ghost predicate InRecord(t: Conn, n: nat)
  {
    ConnOk(t) && !Terminal(t.hs.phase) && |t.rec.hdr| == 5 && t.rec.pos + n <= t.rec.len
  }

  lemma EncByteKeeps(e: Env, t: Conn, b: u8)
    requires InRecord(t, 1) && Encrypted(t)
    ensures EncByte(e, t, b).hs.phase != Closed && Encrypted(EncByte(e, t, b))
  {
    HsByteTame(e, t.hs, e.plain(t.rec.openKey, t.rec.taken, b));
    var d := e.plain(t.rec.openKey, t.rec.taken, b);
    assert HsRun(e, t.hs, [d]) == HsByte(e, t.hs, d);
  }

  lemma {:induction false} EncRunKeeps(e: Env, t: Conn, p: seq<u8>)
    requires InRecord(t, |p|) && Encrypted(t)
    ensures var u := EncRun(e, t, p);
            && u.hs.phase != Closed && Encrypted(u) && |u.rec.hdr| == 5
            && (if u.hs.phase == Failed then u.rec.pos <= t.rec.pos + |p| else u.rec.pos == t.rec.pos + |p|)
    decreases |p|
  {
    if p != [] {
      EncByteKeeps(e, t, p[0]);
      var t1 := EncByte(e, t, p[0]);
      if t1.hs.phase != Failed {
        if |p| > 1 {
          EncRunKeeps(e, t1, p[1..]);
        }
      }
    }
  }

  lemma {:induction false} EncryptedRun(e: Env, t: Conn, p: seq<u8>)
    requires InRecord(t, |p|) && Encrypted(t) && p != []
    ensures EncRun(e, t, p).rec.pos <= t.rec.len && |EncRun(e, t, p).rec.hdr| == 5
    ensures Run(e, t, p) == Ended(e, EncRun(e, t, p))
    decreases |p|
  {
    EncRunKeeps(e, t, p);
    EncByteKeeps(e, t, p[0]);
    var t1 := EncByte(e, t, p[0]);
    if |p| == 1 {
      assert p[1..] == [];
    } else if t1.hs.phase == Failed {
      RunStuck(e, t1, p[1..]);
    } else {
      EncryptedRun(e, t1, p[1..]);
    }
  }

  /** A piece of a plaintext handshake record. */
  function HandshakePiece(e: Env, t: Conn, p: seq<u8>): (r: Conn)
    requires HsOk(t.hs)
    ensures HsOk(r.hs)
  {
    Conn(HsRun(e, t.hs, p), t.rec.(pos := t.rec.pos + |p|), t.events)
  }

  lemma HandshakeByte(e: Env, t: Conn, b: u8)
    requires InRecord(t, 1) && t.rec.kind == REC_HANDSHAKE
    ensures var t1 := HandshakePiece(e, t, [b]);
            Feed(e, t, b) == Ended(e, t1) && t1.hs.phase != Closed && |t1.rec.hdr| == 5
  {
    HsByteTame(e, t.hs, b);
    assert HsRun(e, t.hs, [b]) == HsByte(e, t.hs, b);
  }

  lemma HandshakeAppend(e: Env, t: Conn, b: u8, p: seq<u8>)
    requires HsOk(t.hs)
    ensures HandshakePiece(e, HandshakePiece(e, t, [b]), p) == HandshakePiece(e, t, [b] + p)
  {
    HsRunSplit(e, t.hs, [b], p);
  }

  lemma {:induction false} HandshakeRun(e: Env, t: Conn, p: seq<u8>)
    requires InRecord(t, |p|) && t.rec.kind == REC_HANDSHAKE && p != []
    ensures Same(Ended(e, HandshakePiece(e, t, p)), Run(e, t, p))
    decreases |p|
  {
    var t1 := HandshakePiece(e, t, [p[0]]);
    HandshakeByte(e, t, p[0]);
    HandshakeAppend(e, t, p[0], p[1..]);
    assert [p[0]] + p[1..] == p;
    if |p| == 1 {
      assert p[1..] == [];
      assert HandshakePiece(e, t1, []) == t1;
    } else if t1.hs.phase == Failed {
      HsStuck(e, t1.hs, p[1..]);
      RunStuck(e, t1, p[1..]);
    } else {
      HandshakeRun(e, t1, p[1..]);
    }
  }

  /** Bytes of a record that are passed over. */
  function SkipPiece(t: Conn, n: nat): Conn
  {
    t.(rec := t.rec.(pos := t.rec.pos + n))
  }

  lemma {:induction false} SkipRun(e: Env, t: Conn, p: seq<u8>)
    requires InRecord(t, |p|) && p != [] && !Encrypted(t)
    requires t.rec.kind == REC_CCS || (t.rec.kind == REC_ALERT && t.rec.pos == 0 && |p| == 1)
    ensures Run(e, t, p) == Ended(e, SkipPiece(t, |p|))
    decreases |p|
  {
    if |p| > 1 {
      SkipRun(e, SkipPiece(t, 1), p[1..]);
    } else {
      assert p[1..] == [];
    }
  }

  /** An alert: what a piece of two bytes or more does. */
  function AlertPiece(t: Conn, p: seq<u8>): (r: Conn)
    requires HsOk(t.hs) && t.hs.phase != Failed
    ensures HsOk(r.hs)
  {
    Conn(if |p| >= 2 then AlertIn(t.hs, p[1]) else t.hs, t.rec.(pos := t.rec.pos + |p|), t.events)
  }

  lemma AlertRun(e: Env, t: Conn, p: seq<u8>)
    requires InRecord(t, |p|) && t.rec.kind == REC_ALERT && t.rec.pos == 0 && p != []
    ensures Same(Ended(e, AlertPiece(t, p)), Run(e, t, p))
  {
    if |p| == 1 {
      SkipRun(e, t, p);
    } else {
      var t1 := SkipPiece(t, 1);
      assert Feed(e, t, p[0]) == t1;
      var t2 := Feed(e, t1, p[1]);
      RunStuck(e, t2, p[1..][1..]);
    }
  }

  lemma OtherRun(e: Env, t: Conn, p: seq<u8>)
    requires InRecord(t, |p|) && p != [] && !Encrypted(t)
    requires t.rec.kind != REC_HANDSHAKE && t.rec.kind != REC_ALERT && t.rec.kind != REC_CCS
    ensures Same(FailConn(t, BadRecord), Run(e, t, p))
  {
    var t1 := Feed(e, t, p[0]);
    RunStuck(e, t1, p[1..]);
  }
}
