/** What holds in every run of a connection: however its bytes are cut, the order of the handshake, and what was checked
    on the way (src/tls/tls.c). */
module TlsRuns {
  import opened Words
  import opened Tls
  import opened TlsPieces
  import opened TlsEngine

  /** tls_verify. */
  function Verify(e: Env, h: Hs): Hs
  {
    if h.phase != Verifying then h
    else if !h.f.cvSeen then Fail(h, BadMessage)
    else
      var v := Signature(e, h);
      var h1 := h.(f := h.f.(sigState := v));
      if v == Wrong then Fail(h1, BadSignature) else h1.(phase := Connected)
  }

  /** The kit's verdict on the CertificateVerify that is in the buffer. */
  function Signature(e: Env, h: Hs): Verdict
  {
    e.verify(h.m.cert.store, h.f.sigScheme, h.k.hashToCv, h.m.buf, At16(h.m.buf, 2))
  }

  /** A record sealed onto the out buffer. */
  function Sent(e: Env, h: Hs, content: seq<u8>, kind: u8): Hs
  {
    h.(out := h.out + Sealed(e, WriteKey(h.k), content, kind), k := h.k.(wrCount := h.k.wrCount + 1))
  }

  predicate Fits(e: Env, h: Hs, n: nat)
  {
    |h.out| + 5 + n + 1 + 16 <= e.outCap
  }

  /** tls_write. */
  function Write(e: Env, h: Hs, p: seq<u8>): Hs
  {
    if h.phase != Connected || !h.f.wrOn || !Fits(e, h, |p|) then h else Sent(e, h, p, REC_APPDATA)
  }

  /** tls_close: a close_notify, sealed once there are keys. */
  function Close(e: Env, h: Hs): Hs
  {
    if h.phase != Connected && h.phase != Closed then h
    else if h.f.wrOn then if Fits(e, h, 2) then Sent(e, h, [1, 0], REC_ALERT) else h
    else if |h.out| + 7 <= e.outCap then h.(out := h.out + [REC_ALERT, 3, 3, 0, 2, 1, 0])
    else h
  }

  /** tls_out_consumed. */
  function Consumed(h: Hs, n: nat): Hs
  {
    h.(out := if n >= |h.out| then [] else h.out[n..])
  }

  /** What can happen to a connection.  CutAlert is a call of tls_in that begins inside a plaintext alert. */
  datatype Step = Byte(b: u8) | CutAlert(p: seq<u8>) | VerifyStep | WriteStep(p: seq<u8>) | CloseStep | ConsumedStep(n: nat)

  function Do(e: Env, t: Conn, s: Step): (r: Conn)
    requires ConnOk(t)
    ensures ConnOk(r)
  {
    match s
    case Byte(b) => Feed(e, t, b)
    case CutAlert(p) =>
      if AlertCut(t) && p != [] && |p| <= t.rec.len - t.rec.pos then Ended(e, AlertPiece(t, p)) else t
    case VerifyStep => t.(hs := Verify(e, t.hs))
    case WriteStep(p) => t.(hs := Write(e, t.hs, p))
    case CloseStep => t.(hs := Close(e, t.hs))
    case ConsumedStep(n) => t.(hs := Consumed(t.hs, n))
  }

  /** The same, n steps of unfolding away: reasoning about runs need not see what one step does. */
  function DoLater(e: Env, t: Conn, s: Step, n: nat): (r: Conn)
    requires ConnOk(t)
    ensures ConnOk(r)
  {
    if n == 0 then Do(e, t, s) else DoLater(e, t, s, n - 1)
  }

  lemma {:induction false} DoneLater(e: Env, t: Conn, s: Step, n: nat)
    requires ConnOk(t)
    ensures DoLater(e, t, s, n) == Do(e, t, s)
  {
    if n > 0 {
      DoneLater(e, t, s, n - 1);
    }
  }

  /** A connection after some steps from its start. */
  function After(e: Env, s: seq<Step>): (t: Conn)
    ensures ConnOk(t)
    decreases |s|
  {
    if s == [] then StartConn(e) else DoLater(e, After(e, s[..|s| - 1]), s[|s| - 1], |s|)
  }

  /** The steps of one call of tls_in. */
  function Steps(t: Conn, p: seq<u8>): seq<Step>
    requires ConnOk(t)
  {
    if AlertCut(t) && p != [] then
      var n := Least(t.rec.len - t.rec.pos, |p|);
      [CutAlert(p[..n])] + Bytes(p[n..])
    else Bytes(p)
  }

  function Bytes(p: seq<u8>): seq<Step>
  {
    seq(|p|, i requires 0 <= i < |p| => Byte(p[i]))
  }

  lemma RunSnoc(e: Env, t: Conn, p: seq<u8>, b: u8)
    requires ConnOk(t)
    ensures Run(e, t, p + [b]) == Feed(e, Run(e, t, p), b)
  {
    RunSplit(e, t, p, [b]);
    assert [b][1..] == [];
  }

  lemma AfterSnoc(e: Env, s: seq<Step>, x: Step)
    ensures After(e, s + [x]) == Do(e, After(e, s), x)
  {
    assert (s + [x])[..|s + [x]| - 1] == s;
    DoneLater(e, After(e, s), x, |s + [x]|);
  }

  lemma AfterLast(e: Env, s: seq<Step>)
    requires s != []
    ensures After(e, s) == Do(e, After(e, s[..|s| - 1]), s[|s| - 1])
  {
    AfterSnoc(e, s[..|s| - 1], s[|s| - 1]);
    assert s == s[..|s| - 1] + [s[|s| - 1]];
  }

  lemma BytesSnoc(s: seq<Step>, p: seq<u8>, b: u8)
    ensures s + Bytes(p + [b]) == s + Bytes(p) + [Byte(b)]
  {
  }

  lemma {:induction false} BytesRun(e: Env, s: seq<Step>, p: seq<u8>)
    ensures After(e, s + Bytes(p)) == Run(e, After(e, s), p)
    decreases |p|
  {
    if p == [] {
      assert s + Bytes(p) == s;
    } else {
      var q, b := p[..|p| - 1], p[|p| - 1];
      assert p == q + [b];
      BytesRun(e, s, q);
      BytesRunSnoc(e, s, q, b);
    }
  }

  lemma BytesRunSnoc(e: Env, s: seq<Step>, q: seq<u8>, b: u8)
    requires After(e, s + Bytes(q)) == Run(e, After(e, s), q)
    ensures After(e, s + Bytes(q + [b])) == Run(e, After(e, s), q + [b])
  {
    RunSnoc(e, After(e, s), q, b);
    AfterSnoc(e, s + Bytes(q), Byte(b));
    BytesSnoc(s, q, b);
  }

  /** A call that begins inside a plaintext alert record. */
  lemma CutSteps(e: Env, s: seq<Step>, p: seq<u8>, n: nat)
    requires AlertCut(After(e, s)) && p != []
    requires n == Least(After(e, s).rec.len - After(e, s).rec.pos, |p|)
    ensures After(e, s + [CutAlert(p[..n])] + Bytes(p[n..])) == In(e, After(e, s), p)
  {
    var t := After(e, s);
    AfterSnoc(e, s, CutAlert(p[..n]));
    CutOne(e, t, p, n);
    BytesRun(e, s + [CutAlert(p[..n])], p[n..]);
  }

  lemma CutOne(e: Env, t: Conn, p: seq<u8>, n: nat)
    requires ConnOk(t) && AlertCut(t) && p != [] && n == Least(t.rec.len - t.rec.pos, |p|)
    ensures In(e, t, p) == Run(e, Do(e, t, CutAlert(p[..n])), p[n..])
  {
  }

  /** Every call of tls_in is such steps, so what holds of all runs of steps holds of all runs of calls. */
  lemma CallSteps(e: Env, s: seq<Step>, p: seq<u8>)
    ensures After(e, s + Steps(After(e, s), p)) == In(e, After(e, s), p)
  {
    var t := After(e, s);
    StepsAre(t, s, p);
    if AlertCut(t) && p != [] {
      CutSteps(e, s, p, Least(t.rec.len - t.rec.pos, |p|));
    } else {
      BytesRun(e, s, p);
    }
  }

  lemma StepsAre(t: Conn, s: seq<Step>, p: seq<u8>)
    requires ConnOk(t)
    ensures s + Steps(t, p) == if AlertCut(t) && p != [] then
                                 var n := Least(t.rec.len - t.rec.pos, |p|);
                                 s + [CutAlert(p[..n])] + Bytes(p[n..])
                               else s + Bytes(p)
  {
    if AlertCut(t) && p != [] {
      var n := Least(t.rec.len - t.rec.pos, |p|);
      assert s + ([CutAlert(p[..n])] + Bytes(p[n..])) == s + [CutAlert(p[..n])] + Bytes(p[n..]);
    }
  }

  // ---- pieces --------------------------------------------------------------------------------------------------

  /** Successive calls of tls_in. */
  function Calls(e: Env, t: Conn, pieces: seq<seq<u8>>): (r: Conn)
    requires ConnOk(t)
    ensures ConnOk(r)
    decreases |pieces|
  {
    if pieces == [] then t else Calls(e, In(e, t, pieces[0]), pieces[1..])
  }

  function Flat(pieces: seq<seq<u8>>): seq<u8>
  {
    if pieces == [] then [] else pieces[0] + Flat(pieces[1..])
  }

  /** No call begins inside a plaintext alert record. */
  ghost predicate WholeAlerts(e: Env, t: Conn, pieces: seq<seq<u8>>)
    requires ConnOk(t)
    decreases |pieces|
  {
    pieces == [] || (!AlertCut(t) && WholeAlerts(e, In(e, t, pieces[0]), pieces[1..]))
  }

  /** However a stream is cut, the state is that after its bytes: the phase and error, what the caller was given, and
      the transcript and certificate store. */
  lemma {:induction false} CutAnywhere(e: Env, t: Conn, pieces: seq<seq<u8>>)
    requires ConnOk(t) && WholeAlerts(e, t, pieces)
    ensures Calls(e, t, pieces) == Run(e, t, Flat(pieces))
    decreases |pieces|
  {
    if pieces != [] {
      CutAnywhere(e, In(e, t, pieces[0]), pieces[1..]);
      RunSplit(e, t, pieces[0], Flat(pieces[1..]));
    }
  }

  lemma SameIn(e: Env, a: Conn, b: Conn, p: seq<u8>)
    requires ConnOk(a) && ConnOk(b) && Same(a, b)
    ensures Same(In(e, a, p), In(e, b, p))
  {
    if Terminal(b.hs.phase) {
      InStuck(e, a, p);
      InStuck(e, b, p);
    }
  }

  /** The engine given a stream in two calls is the engine given it in one. */
  method CutOnce(t: Engine, x: array<u8>, y: array<u8>)
    requires ConnOk(t.State()) && x != y
    requires !AlertCut(t.State()) && !AlertCut(In(t.e, t.State(), x[..]))
    modifies t`hs, t`rec, t`events, x, y
    ensures ConnOk(t.State()) && Same(t.State(), In(t.e, old(t.State()), old(x[..] + y[..])))
  {
    ghost var s := t.State();
    ghost var p, q := x[..], y[..];
    RunSplit(t.e, s, p, q);
    t.TlsIn(x);
    SameIn(t.e, t.State(), In(t.e, s, p), q);
    t.TlsIn(y);
  }

  /** An alert record of the usual two bytes, cut in the middle, is not seen at all; whole, it always ends the
      connection.  So for these the condition above is exact. */
  lemma CutAlertIsLost(e: Env, t: Conn, level: u8, desc: u8)
    requires ConnOk(t) && !Terminal(t.hs.phase) && |t.rec.hdr| == 5
    requires t.rec.kind == REC_ALERT && t.rec.len == 2 && t.rec.pos == 0
    ensures Terminal(In(e, t, [level, desc]).hs.phase)
    ensures AlertCut(In(e, t, [level])) && In(e, In(e, t, [level]), [desc]).hs == t.hs
  {
    SkipRun(e, t, [level]);
    AlertRun(e, t, [level, desc]);
    var t1 := In(e, t, [level]);
    assert t1 == SkipPiece(t, 1);
    assert [desc][..1] == [desc] && [desc][1..] == [];
    assert In(e, t1, [desc]) == Ended(e, AlertPiece(t1, [desc]));
  }

  // ---- the order of the handshake ------------------------------------------------------------------------------

  /** The handshake's states in a run: before its first step, and after each. */
  ghost function Trace(e: Env, s: seq<Step>): (h: seq<Hs>)
    ensures |h| == |s| + 1
  {
    seq(|s| + 1, n requires 0 <= n <= |s| => After(e, s[..n]).hs)
  }

  /** The keys come up: a ServerHello was taken. */
  ghost predicate KeysUpAt(h: seq<Hs>, i: nat)
  {
    i + 1 < |h| && h[i].phase == WaitSh && h[i + 1].phase == WaitHs
  }

  /** The first CertificateVerify ends; what is to be signed is the transcript before its message. */
  ghost predicate SignedAt(e: Env, h: seq<Hs>, c: nat)
  {
    c + 1 < |h| && h[c].phase == WaitHs && !h[c].f.cvSeen && h[c + 1].f.cvSeen && SignedHash(e, h[c + 1].k, h[c].m)
  }

  /** The hash to be signed is that of the transcript without its last message, m. */
  ghost predicate SignedHash(e: Env, k: Secrets, m: Message)
  {
    var n := 4 + m.len;
    |k.transcript| >= n && k.hashToCv == e.hash(k.transcript[..|k.transcript| - n])
  }

  /** The server's Finished ends, and is the one for the transcript before it. */
  ghost predicate FinishedAt(e: Env, h: seq<Hs>, j: nat)
  {
    j + 1 < |h| && h[j].phase == WaitHs && h[j + 1].phase == Verifying && FinishedStep(e, h[j], h[j + 1])
  }

  ghost predicate FinishedStep(e: Env, t: Hs, u: Hs)
  {
    && t.m.kind == HS_FINISHED && u.m.fin == e.finished(t.k.keys, true, e.hash(t.k.transcript))
    && u.f.cvSeen == t.f.cvSeen && u.k.hashToCv == t.k.hashToCv
    && t.k.transcript + FINISHED_HEADER + u.m.fin <= u.k.transcript
  }

  /** The signature is not wrong. */
  ghost predicate VerifiedAt(e: Env, h: seq<Hs>, s: seq<Step>, k: nat)
  {
    && k < |s| && k + 1 < |h| && s[k] == VerifyStep && h[k].phase == Verifying && h[k].f.cvSeen
    && h[k + 1].phase == Connected && Signature(e, h[k]) != Wrong && h[k + 1].f.sigState == Signature(e, h[k])
  }

  /** How far the handshake is. */
  function Rank(p: Phase): nat
  {
    match p
    case Idle => 0
    case WaitSh => 1
    case WaitHs => 2
    case Verifying => 3
    case Connected => 4
    case _ => 5
  }

  /** What a handshake byte may do to the phase and to the pending signature. */
  ghost predicate Legal(e: Env, t: Hs, u: Hs)
  {
    && (u.phase != t.phase ==>
          || u.phase == Failed
          || (t.phase == WaitSh && u.phase == WaitHs && u.f.cvSeen == t.f.cvSeen && u.k.hashToCv == t.k.hashToCv)
          || (t.phase == WaitHs && u.phase == Verifying && FinishedStep(e, t, u)))
    && (t.f.cvSeen ==> u.f.cvSeen && u.k.hashToCv == t.k.hashToCv)
    && (u.f.cvSeen && !t.f.cvSeen ==> t.phase == WaitHs && (u.phase == WaitHs || u.phase == Failed))
  }

  lemma MsgEndLegal(e: Env, t: Hs)
    requires t.phase != Failed ==> BodyOk(t.m) && Expected(t.phase, t.m.kind)
    ensures Legal(e, t, MsgEnd(e, t))
  {
  }

  /** The message being read may come now, and until a CertificateVerify has ended hash_to_cv is the hash before it. */
  ghost predicate HsInv(e: Env, h: Hs)
  {
    && HsOk(h)
    && (!Terminal(h.phase) && h.m.pos >= 4 ==> Expected(h.phase, h.m.kind))
    && HashInv(e, h)
  }

  ghost predicate HashInv(e: Env, h: Hs)
  {
    h.m.pos >= 1 && !h.f.cvSeen && h.m.kind != HS_FINISHED ==>
      && |h.k.transcript| >= h.m.pos
      && h.k.hashToCv == e.hash(h.k.transcript[..|h.k.transcript| - h.m.pos])
  }

  lemma HashedInv(e: Env, k: Secrets, n: nat, p: seq<u8>)
    requires |k.transcript| >= n && k.hashToCv == e.hash(k.transcript[..|k.transcript| - n])
    ensures var t := k.transcript + p;
            |t| >= n + |p| && k.hashToCv == e.hash(t[..|t| - (n + |p|)])
  {
    var t := k.transcript + p;
    assert t[..|t| - (n + |p|)] == k.transcript[..|k.transcript| - n];
  }

  lemma HeaderInv(e: Env, h: Hs, b: u8)
    requires HashInv(e, h) && h.m.pos < 4
    ensures HashInv(e, Header(e, h, b)) && Header(e, h, b).phase == h.phase
    ensures h.f.cvSeen ==> Header(e, h, b).k.hashToCv == h.k.hashToCv
    ensures Header(e, h, b).f == h.f
  {
    if !h.f.cvSeen {
      if h.m.pos == 0 {
        assert h.k.transcript[..|h.k.transcript| - 0] == h.k.transcript;
        HashedInv(e, h.k.(hashToCv := e.hash(h.k.transcript)), 0, [b]);
      } else if h.m.kind != HS_FINISHED {
        HashedInv(e, h.k, h.m.pos, [b]);
      }
    }
  }

  lemma BodyInv(e: Env, h: Hs, b: u8)
    requires HashInv(e, h) && BodyOk(h.m) && h.m.pos >= 4 && h.m.pos - 4 + 1 <= h.m.len
    ensures var r := Body(e, h, [b]);
            HashInv(e, r) && r.f == h.f && r.k.hashToCv == h.k.hashToCv && (r.phase == h.phase || r.phase == Failed)
            && r.m.kind == h.m.kind && r.k.keys == h.k.keys
            && (h.m.kind == HS_FINISHED ==> r.k == h.k)
  {
    if !h.f.cvSeen && h.m.kind != HS_FINISHED {
      HashedInv(e, h.k, h.m.pos, [b]);
    }
  }

  lemma MsgBeginInv(e: Env, h: Hs)
    requires HashInv(e, h)
    ensures var r := MsgBegin(h);
            HashInv(e, r) && r.f == h.f && r.k == h.k && (r.phase == h.phase || r.phase == Failed)
            && r.m.kind == h.m.kind && (r.phase != Failed ==> Expected(r.phase, r.m.kind))
  {
  }

  /** At a message's end, read from t: the pending signature is over what came before the message. */
  lemma FinishLegal(e: Env, h: Hs)
    requires h.phase != Failed ==> BodyOk(h.m) && Expected(h.phase, h.m.kind)
    requires HashInv(e, h) && h.m.pos == 4 + h.m.len
    ensures Legal(e, h, Finish(e, h)) && HsInv(e, Finish(e, h))
    ensures Finish(e, h).f.cvSeen && !h.f.cvSeen ==> SignedHash(e, Finish(e, h).k, h.m)
  {
    MsgEndLegal(e, h);
    assert MsgEnd(e, h).f.cvSeen && !h.f.cvSeen ==> MsgEnd(e, h).k == h.k && h.m.kind == HS_CERT_VERIFY;
  }

  lemma HeaderLegal(e: Env, h: Hs, b: u8)
    requires HsInv(e, h) && h.phase != Closed && h.phase != Failed && h.m.pos < 4
    ensures Legal(e, h, HsByte(e, h, b)) && HsInv(e, HsByte(e, h, b))
    ensures HsByte(e, h, b).f.cvSeen && !h.f.cvSeen ==> SignedHash(e, HsByte(e, h, b).k, h.m)
  {
    var h1 := Header(e, h, b);
    HeaderInv(e, h, b);
    if h1.m.pos == 4 {
      MsgBeginInv(e, h1);
      var h2 := MsgBegin(h1);
      if h2.m.len == 0 {
        FinishLegal(e, h2);
      }
    }
  }

  lemma BodyLegal(e: Env, h: Hs, b: u8)
    requires HsInv(e, h) && h.phase != Closed && h.phase != Failed && h.m.pos >= 4
    ensures Legal(e, h, HsByte(e, h, b)) && HsInv(e, HsByte(e, h, b))
    ensures HsByte(e, h, b).f.cvSeen && !h.f.cvSeen ==> SignedHash(e, HsByte(e, h, b).k, h.m)
  {
    BodyInv(e, h, b);
    var h1 := Body(e, h, [b]);
    if h1.m.pos - 4 == h1.m.len {
      FinishLegal(e, h1);
    }
  }

  lemma HsByteLegal(e: Env, h: Hs, b: u8)
    requires HsInv(e, h) && h.phase != Closed
    ensures Legal(e, h, HsByte(e, h, b)) && HsInv(e, HsByte(e, h, b))
    ensures HsByte(e, h, b).f.cvSeen && !h.f.cvSeen ==> SignedHash(e, HsByte(e, h, b).k, h.m)
  {
    if h.phase != Failed {
      if h.m.pos < 4 {
        HeaderLegal(e, h, b);
      } else {
        BodyLegal(e, h, b);
      }
    }
  }

  /** What one step may do to the phase and to the pending signature. */
  ghost predicate LegalStep(e: Env, t: Hs, u: Hs, s: Step)
  {
    && (u.phase != t.phase ==>
          || u.phase == Failed || u.phase == Closed
          || (t.phase == WaitSh && u.phase == WaitHs)
          || (t.phase == WaitHs && u.phase == Verifying && FinishedStep(e, t, u))
          || (t.phase == Verifying && u.phase == Connected && s == VerifyStep && t.f.cvSeen && Signature(e, t) != Wrong
              && u.f.sigState == Signature(e, t)))
    && (Terminal(t.phase) ==> u.phase == t.phase && u.error == t.error)
    && (t.f.cvSeen ==> u.f.cvSeen && u.k.hashToCv == t.k.hashToCv)
    && (u.f.cvSeen && !t.f.cvSeen ==>
          t.phase == WaitHs && (u.phase == WaitHs || Terminal(u.phase)) && SignedHash(e, u.k, t.m))
  }

  /** A record's end touches the phase, the alert and the key switch alone. */
  lemma EndLegal(e: Env, h: Hs, t: Conn, s: Step)
    requires HsOk(t.hs) && t.hs.phase != Failed && HsInv(e, h) && !Terminal(h.phase)
    requires LegalStep(e, h, t.hs, s) && HsInv(e, t.hs) && (Encrypted(t) ==> t.hs == h)
    ensures LegalStep(e, h, EndRecord(e, t).hs, s) && HsInv(e, EndRecord(e, t).hs)
  {
  }

  lemma EncByteLegal(e: Env, t: Conn, b: u8)
    requires InRecord(t, 1) && Encrypted(t) && HsInv(e, t.hs)
    ensures var u := EncByte(e, t, b);
            LegalStep(e, t.hs, u.hs, Byte(b)) && HsInv(e, u.hs) && (u.rec.pos == u.rec.len ==> u.hs == t.hs)
  {
    var d := e.plain(t.rec.openKey, t.rec.taken, b);
    HsByteLegal(e, t.hs, d);
    assert HsRun(e, t.hs, [d]) == HsByte(e, t.hs, d);
  }

  lemma EndedLegal(e: Env, h: Hs, t: Conn, s: Step)
    requires HsOk(t.hs) && t.rec.pos <= t.rec.len && |t.rec.hdr| <= 5 && (Encrypted(t) ==> t.rec.len >= 17)
    requires HsInv(e, h) && !Terminal(h.phase)
    requires LegalStep(e, h, t.hs, s) && HsInv(e, t.hs) && (Encrypted(t) && t.rec.pos == t.rec.len ==> t.hs == h)
    ensures LegalStep(e, h, Ended(e, t).hs, s) && HsInv(e, Ended(e, t).hs)
  {
    if t.hs.phase != Failed && t.rec.pos == t.rec.len {
      EndLegal(e, h, t, s);
    }
  }

  lemma PlainByteLegal(e: Env, t: Conn, b: u8)
    requires InRecord(t, 1) && !Encrypted(t) && HsInv(e, t.hs)
    ensures var u := PlainByte(e, t, b);
            LegalStep(e, t.hs, u.hs, Byte(b)) && HsInv(e, u.hs) && (t.rec.kind != REC_HANDSHAKE ==> u.hs.f == t.hs.f)
  {
    if t.rec.kind == REC_HANDSHAKE {
      HsByteLegal(e, t.hs, b);
      assert PlainByte(e, t, b).hs == HsByte(e, t.hs, b);
    }
  }

  lemma FeedLegal(e: Env, t: Conn, b: u8)
    requires ConnOk(t) && HsInv(e, t.hs)
    ensures LegalStep(e, t.hs, Feed(e, t, b).hs, Byte(b)) && HsInv(e, Feed(e, t, b).hs)
  {
    if !Terminal(t.hs.phase) && |t.rec.hdr| == 5 {
      if Encrypted(t) {
        EncByteLegal(e, t, b);
        EndedLegal(e, t.hs, EncByte(e, t, b), Byte(b));
      } else {
        PlainByteLegal(e, t, b);
        EndedLegal(e, t.hs, PlainByte(e, t, b), Byte(b));
      }
    }
  }

  lemma DoLegal(e: Env, t: Conn, s: Step)
    requires ConnOk(t) && HsInv(e, t.hs)
    ensures LegalStep(e, t.hs, Do(e, t, s).hs, s) && HsInv(e, Do(e, t, s).hs)
  {
    if s.Byte? {
      FeedLegal(e, t, s.b);
    } else if s.CutAlert? && Do(e, t, s) != t {
      EndedLegal(e, t.hs, AlertPiece(t, s.p), s);
    }
  }

  lemma {:induction false} AfterInv(e: Env, s: seq<Step>)
    ensures HsInv(e, After(e, s).hs)
    decreases |s|
  {
    if s != [] {
      AfterInv(e, s[..|s| - 1]);
      AfterLast(e, s);
      DoLegal(e, After(e, s[..|s| - 1]), s[|s| - 1]);
    }
  }

  ghost predicate LegalAt(e: Env, h: seq<Hs>, s: seq<Step>, n: nat)
    requires n < |s| < |h|
  {
    LegalStep(e, h[n], h[n + 1], s[n])
  }

  ghost predicate Lawful(e: Env, h: seq<Hs>, s: seq<Step>)
  {
    |h| == |s| + 1 && Rank(h[0].phase) < 2 && !h[0].f.cvSeen && forall n :: 0 <= n < |s| ==> LegalAt(e, h, s, n)
  }

  lemma StepLegal(e: Env, s: seq<Step>, n: nat)
    requires n < |s|
    ensures LegalStep(e, After(e, s[..n]).hs, After(e, s[..n + 1]).hs, s[n])
  {
    AfterInv(e, s[..n]);
    DoLegal(e, After(e, s[..n]), s[n]);
    AfterSnoc(e, s[..n], s[n]);
    assert s[..n + 1] == s[..n] + [s[n]];
  }

  lemma TraceLawful(e: Env, s: seq<Step>)
    ensures Lawful(e, Trace(e, s), s)
  {
    TraceStarts(e, s);
    forall n | 0 <= n < |s| ensures LegalAt(e, Trace(e, s), s, n) {
      LegalInTrace(e, s, n);
    }
  }

  lemma LegalInTrace(e: Env, s: seq<Step>, n: nat)
    requires n < |s|
    ensures LegalAt(e, Trace(e, s), s, n)
  {
    StepLegal(e, s, n);
    var h := Trace(e, s);
    assert h[n] == After(e, s[..n]).hs && h[n + 1] == After(e, s[..n + 1]).hs;
  }

  lemma TraceStarts(e: Env, s: seq<Step>)
    ensures Rank(Trace(e, s)[0].phase) < 2 && !Trace(e, s)[0].f.cvSeen
  {
    assert s[..0] == [];
    assert Trace(e, s)[0] == After(e, []).hs;
  }

  /** What a run that has come this far, to step n, has passed, in order: the keys at i, the first CertificateVerify at
      c, the Finished at j, the verified signature at k. */
  ghost predicate Passed(e: Env, h: seq<Hs>, s: seq<Step>, n: nat, i: nat, c: nat, j: nat, k: nat)
    requires n < |h|
  {
    && (Rank(h[n].phase) < 2 ==> !h[n].f.cvSeen)
    && (2 <= Rank(h[n].phase) <= 4 ==> i < n && KeysUpAt(h, i))
    && (2 <= Rank(h[n].phase) <= 4 && h[n].f.cvSeen ==>
          i < c < n && SignedAt(e, h, c) && h[c + 1].k.hashToCv == h[n].k.hashToCv)
    && (3 <= Rank(h[n].phase) <= 4 ==> i < j < n && FinishedAt(e, h, j) && (h[n].f.cvSeen ==> c < j))
    && (h[n].phase == Connected ==> h[n].f.cvSeen && j < k < n && VerifiedAt(e, h, s, k))
  }

  lemma {:induction false} PassedBy(e: Env, h: seq<Hs>, s: seq<Step>, n: nat) returns (i: nat, c: nat, j: nat, k: nat)
    requires Lawful(e, h, s) && n <= |s|
    ensures Passed(e, h, s, n, i, c, j, k)
  {
    if n == 0 {
      i, c, j, k := 0, 0, 0, 0;
    } else {
      i, c, j, k := PassedBy(e, h, s, n - 1);
      assert LegalAt(e, h, s, n - 1);
      i, c, j, k := PassedNext(e, h, s, n - 1, i, c, j, k);
    }
  }

  /** One more step: it stays in its phase, or moves on in one of three ways, or ends. */
  lemma PassedNext(e: Env, h: seq<Hs>, s: seq<Step>, n: nat, i0: nat, c0: nat, j0: nat, k0: nat)
    returns (i: nat, c: nat, j: nat, k: nat)
    requires n < |s| && |h| == |s| + 1 && LegalStep(e, h[n], h[n + 1], s[n]) && Passed(e, h, s, n, i0, c0, j0, k0)
    ensures Passed(e, h, s, n + 1, i, c, j, k)
  {
    var t, u := h[n], h[n + 1];
    i, c, j, k := i0, c0, j0, k0;
    if u.phase == t.phase {
      c := if u.f.cvSeen && !t.f.cvSeen then n else c0;
    } else if t.phase == WaitSh {
      i := n;
    } else if t.phase == WaitHs {
      j := n;
    } else {
      k := n;
    }
  }

  /** The order of every handshake.  A connected run has passed all four milestones, once each: keys, then the first
      CertificateVerify, then the right Finished, then a signature over that very transcript that is not wrong. */
  lemma Handshake(e: Env, s: seq<Step>) returns (i: nat, c: nat, j: nat, k: nat)
    ensures Passed(e, Trace(e, s), s, |s|, i, c, j, k)
  {
    TraceLawful(e, s);
    i, c, j, k := PassedBy(e, Trace(e, s), s, |s|);
  }

  /** The phase never goes back. */
  lemma {:induction false} Forward(e: Env, h: seq<Hs>, s: seq<Step>, i: nat, n: nat)
    requires Lawful(e, h, s) && i <= n <= |s|
    ensures Rank(h[i].phase) <= Rank(h[n].phase)
    decreases n
  {
    if i < n {
      Forward(e, h, s, i, n - 1);
      assert LegalAt(e, h, s, n - 1);
    }
  }

  /** So a run sees at most one Finished. */
  lemma FinishedOnce(e: Env, s: seq<Step>, j: nat, k: nat)
    requires FinishedAt(e, Trace(e, s), j) && FinishedAt(e, Trace(e, s), k)
    ensures j == k
  {
    TraceLawful(e, s);
    OneFinished(e, Trace(e, s), s, j, k);
  }

  lemma OneFinished(e: Env, h: seq<Hs>, s: seq<Step>, j: nat, k: nat)
    requires Lawful(e, h, s) && FinishedAt(e, h, j) && FinishedAt(e, h, k)
    ensures j == k
  {
    if j < k {
      Forward(e, h, s, j + 1, k);
    } else if k < j {
      Forward(e, h, s, k + 1, j);
    }
  }

  // ---- what is sent --------------------------------------------------------------------------------------------

  /** What the kit answers has the lengths its interface gives. */
  ghost predicate Lengths(e: Env)
  {
    && (forall k, a, p :: |e.seal(k, a, p)| == |p| + 16)
    && (forall k, s, h :: |e.finished(k, s, h)| == 32)
  }

  lemma SealedLength(e: Env, k: TrafficKey, content: seq<u8>, kind: u8)
    requires Lengths(e)
    ensures |Sealed(e, k, content, kind)| == 5 + |content| + 1 + 16
  {
  }

  /** tls_write queues one record of application data after what is there, or nothing; and it acts only once
      connected. */
  lemma WriteQueues(e: Env, h: Hs, p: seq<u8>)
    requires Lengths(e) && e.outCap < 0x1_0000
    ensures Write(e, h, p) != h <==> h.phase == Connected && h.f.wrOn && Fits(e, h, |p|)
    ensures Write(e, h, p) != h ==>
              && h.out < Write(e, h, p).out && |Write(e, h, p).out| == |h.out| + 22 + |p|
              && var r := Write(e, h, p).out[|h.out|..];
                 r[..3] == [23, 3, 3] && At16(r, 3) as int == |r| - 5
  {
    SealedLength(e, WriteKey(h.k), p, REC_APPDATA);
    if h.phase == Connected && h.f.wrOn && Fits(e, h, |p|) {
      var r := Write(e, h, p).out[|h.out|..];
      assert r == Sealed(e, WriteKey(h.k), p, REC_APPDATA);
    }
  }

  /** Every record that a check let through fits the out buffer. */
  lemma {:induction false} OutFits(e: Env, s: seq<Step>)
    requires Lengths(e)
    ensures |After(e, s).hs.out| <= e.outCap
    decreases |s|
  {
    if s != [] {
      OutFits(e, s[..|s| - 1]);
      AfterLast(e, s);
      OutStep(e, After(e, s[..|s| - 1]), s[|s| - 1]);
    }
  }

  lemma OutStep(e: Env, t: Conn, s: Step)
    requires ConnOk(t) && Lengths(e) && |t.hs.out| <= e.outCap
    ensures |Do(e, t, s).hs.out| <= e.outCap
  {
    match s
    case Byte(b) => FeedOut(e, t, b);
    case CutAlert(p) =>
    case VerifyStep =>
    case WriteStep(p) => SealedLength(e, WriteKey(t.hs.k), p, REC_APPDATA);
    case CloseStep => SealedLength(e, WriteKey(t.hs.k), [1, 0], REC_ALERT);
    case ConsumedStep(n) =>
  }

  lemma FeedOut(e: Env, t: Conn, b: u8)
    requires ConnOk(t) && Lengths(e) && |t.hs.out| <= e.outCap
    ensures |Feed(e, t, b).hs.out| <= e.outCap
  {
    if !Terminal(t.hs.phase) && |t.rec.hdr| == 5 {
      if Encrypted(t) {
        EncOut(e, t, b);
      } else {
        HsByteOut(e, t.hs, b);
        assert PlainByte(e, t, b).hs == PlainHs(e, t.hs, t.rec, b);
      }
    }
  }

  lemma EncOut(e: Env, t: Conn, b: u8)
    requires InRecord(t, 1) && Encrypted(t) && Lengths(e) && |t.hs.out| <= e.outCap
    ensures |EncByte(e, t, b).hs.out| <= e.outCap
  {
    var d := e.plain(t.rec.openKey, t.rec.taken, b);
    assert HsRun(e, t.hs, [d]) == HsByte(e, t.hs, d);
    HsByteOut(e, t.hs, d);
  }

  lemma MsgEndOut(e: Env, h: Hs)
    requires h.phase != Failed ==> BodyOk(h.m)
    requires Lengths(e) && |h.out| <= e.outCap
    ensures |MsgEnd(e, h).out| <= e.outCap
  {
    var flight := Flight(e, h.f, h.k.keys, h.k.transcript + FINISHED_HEADER + h.m.fin);
    assert |flight| <= 8 + |h.f.reqCtx| + 36;
    SealedLength(e, WriteKey(h.k), flight, REC_HANDSHAKE);
  }

  lemma HsByteOut(e: Env, h: Hs, b: u8)
    requires HsOk(h) && Lengths(e) && |h.out| <= e.outCap
    ensures |HsByte(e, h, b).out| <= e.outCap
  {
    if h.phase != Failed {
      if h.m.pos < 4 {
        var h2 := MsgBegin(Header(e, h, b));
        if h.m.pos == 3 && h2.m.len == 0 {
          MsgEndOut(e, h2);
        }
      } else {
        var h1 := Body(e, h, [b]);
        if h1.m.pos - 4 == h1.m.len {
          MsgEndOut(e, h1);
        }
      }
    }
  }
}
