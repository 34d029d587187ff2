/** When the read keys switch (src/tls/tls.c, server_finished and record_end): over whole runs, at the end of the first
    encrypted record that ends after the server's Finished, and never otherwise. */
module TlsKeySwitch {
  import opened Words
  import opened Tls
  import opened TlsPieces
  import opened TlsEngine
  import opened TlsRuns

  /** The step is the last byte of an encrypted record. */
  ghost predicate EndsEncrypted(t: Conn, s: Step)
  {
    s.Byte? && InRecord(t, 1) && Encrypted(t) && t.rec.pos + 1 == t.rec.len
  }

  /** The server's Finished is accepted. */
  ghost predicate Finishes(t: Conn, u: Conn)
  {
    t.hs.phase == WaitHs && u.hs.phase == Verifying
  }

  /** What one step does to the request for a switch and to the keys. */
  ghost predicate SwitchLaw(t: Conn, s: Step, u: Conn)
  {
    && (u.rec.rdApp <==> t.rec.rdApp || (t.hs.f.rdSwitch && EndsEncrypted(t, s)))
    && (u.hs.f.rdSwitch <==> Finishes(t, u) || (t.hs.f.rdSwitch && !EndsEncrypted(t, s)))
    && (Finishes(t, u) ==> !EndsEncrypted(t, s) && InRecord(t, 1) && s.Byte?)
    && (t.hs.f.rdOn ==> u.hs.f.rdOn) && (u.hs.phase == WaitHs && t.hs.phase != WaitHs ==> u.hs.f.rdOn)
    && (|t.rec.hdr| == 5 && u.rec.hdr != [] ==> u.rec.kind == t.rec.kind && |u.rec.hdr| == 5)
    && (|t.rec.hdr| == 5 && u.rec.hdr == [] ==>
          InRecord(t, 1) && ((s.Byte? && t.rec.pos + 1 == t.rec.len) || (s.CutAlert? && AlertCut(t))))
  }

  /** A ServerHello fails, asks for another hello, or brings the keys up. */
  lemma ServerHelloEnds(e: Env, h: Hs) returns (x: Exts, g: u16, share: seq<u8>)
    requires h.m.len <= MSG_MAX
    ensures var r := ServerHello(e, h);
            r == Fail(h, r.error) || r == Retry(e, h, h.m.buf[..h.m.len], x) || r == KeysUp(e, h, g, share)
  {
    var m := h.m.buf[..h.m.len];
    x := ReadExtensions(m, if HelloFixed(m).0 == NoError then HelloFixed(m).1 else 0, Exts(NoError, false, 0, 0, 0, false));
    g, share := x.group, m[x.shareAt..x.shareAt + x.shareLen as nat];
  }

  lemma MsgEndSwitch(e: Env, h: Hs)
    requires h.phase != Failed ==> BodyOk(h.m) && Expected(h.phase, h.m.kind)
    ensures var r := MsgEnd(e, h);
            && (r.f.rdSwitch <==> h.f.rdSwitch || (h.phase != Verifying && r.phase == Verifying))
            && (h.f.rdOn ==> r.f.rdOn) && (r.phase == WaitHs && h.phase != WaitHs ==> r.f.rdOn)
  {
    if h.phase != Failed && h.m.kind == HS_SERVER_HELLO {
      var x, g, share := ServerHelloEnds(e, h);
      assert MsgEnd(e, h) == ServerHello(e, h);
    }
  }

  /** A handshake byte asks for the switch exactly when it completes an accepted Finished. */
  lemma HsByteSwitch(e: Env, h: Hs, b: u8)
    requires HsInv(e, h) && h.phase != Closed
    ensures var r := HsByte(e, h, b);
            && (r.f.rdSwitch <==> h.f.rdSwitch || (h.phase != Verifying && r.phase == Verifying))
            && (h.f.rdOn ==> r.f.rdOn) && (r.phase == WaitHs && h.phase != WaitHs ==> r.f.rdOn)
  {
    if h.phase != Failed {
      if h.m.pos < 4 {
        var h2 := MsgBegin(Header(e, h, b));
        if h.m.pos == 3 && h2.m.len == 0 {
          MsgEndSwitch(e, h2);
        }
      } else {
        var h1 := Body(e, h, [b]);
        if h1.m.pos - 4 == h1.m.len {
          MsgEndSwitch(e, h1);
        }
      }
    }
  }

  lemma EncSwitch(e: Env, t: Conn, b: u8)
    requires InRecord(t, 1) && Encrypted(t) && HsInv(e, t.hs)
    ensures SwitchLaw(t, Byte(b), Ended(e, EncByte(e, t, b)))
  {
    if t.rec.pos + 1 < t.rec.len {
      EncMiddle(e, t, b);
    }
  }

  lemma EncMiddle(e: Env, t: Conn, b: u8)
    requires InRecord(t, 1) && Encrypted(t) && HsInv(e, t.hs) && t.rec.pos + 1 < t.rec.len
    ensures SwitchLaw(t, Byte(b), EncByte(e, t, b))
  {
    var d := e.plain(t.rec.openKey, t.rec.taken, b);
    assert HsRun(e, t.hs, [d]) == HsByte(e, t.hs, d);
    HsByteSwitch(e, t.hs, d);
    HsByteLegal(e, t.hs, d);
  }

  lemma PlainSwitch(e: Env, t: Conn, b: u8)
    requires InRecord(t, 1) && !Encrypted(t) && HsInv(e, t.hs)
    ensures SwitchLaw(t, Byte(b), Ended(e, PlainByte(e, t, b)))
  {
    HsByteSwitch(e, t.hs, b);
    HsByteLegal(e, t.hs, b);
  }

  lemma DoSwitch(e: Env, t: Conn, s: Step)
    requires ConnOk(t) && HsInv(e, t.hs)
    ensures SwitchLaw(t, s, Do(e, t, s))
  {
    if s.Byte? && InRecord(t, 1) {
      if Encrypted(t) {
        EncSwitch(e, t, s.b);
      } else {
        PlainSwitch(e, t, s.b);
      }
    }
  }

  // ---- over runs -----------------------------------------------------------------------------------------------

  /** The connection's states in a run: before its first step, and after each. */
  ghost function Conns(e: Env, s: seq<Step>): (c: seq<Conn>)
    ensures |c| == |s| + 1
  {
    seq(|s| + 1, n requires 0 <= n <= |s| => After(e, s[..n]))
  }

  ghost predicate SwitchesAt(c: seq<Conn>, s: seq<Step>, n: nat)
    requires n < |s| < |c|
  {
    SwitchLaw(c[n], s[n], c[n + 1]) && Rank(c[n].hs.phase) <= Rank(c[n + 1].hs.phase)
  }

  /** A run's states, as far as the switch is concerned. */
  ghost predicate Switching(c: seq<Conn>, s: seq<Step>)
  {
    && |c| == |s| + 1 && !c[0].rec.rdApp && !c[0].hs.f.rdSwitch && Rank(c[0].hs.phase) < 2
    && forall n :: 0 <= n < |s| ==> SwitchesAt(c, s, n)
  }

  /** Step m, after the Finished at j and before n, ends an encrypted record. */
  ghost predicate EndsAt(c: seq<Conn>, s: seq<Step>, m: nat)
    requires m < |s| < |c|
  {
    EndsEncrypted(c[m], s[m])
  }

  /** The Finished accepted at step j. */
  ghost predicate FinishesAt(c: seq<Conn>, j: nat)
  {
    j + 1 < |c| && Finishes(c[j], c[j + 1])
  }

  /** Neither the request nor the keys are there before a Finished. */
  lemma {:induction false} NotBefore(c: seq<Conn>, s: seq<Step>, n: nat)
    requires Switching(c, s) && n <= |s| && Rank(c[n].hs.phase) < 3
    ensures !c[n].rec.rdApp && !c[n].hs.f.rdSwitch
  {
    if n > 0 {
      assert SwitchesAt(c, s, n - 1);
      NotBefore(c, s, n - 1);
    }
  }

  /** Nor is there ever another cause. */
  lemma {:induction false} OnlyFinished(c: seq<Conn>, s: seq<Step>, n: nat) returns (j: nat)
    requires Switching(c, s) && n <= |s| && (c[n].rec.rdApp || c[n].hs.f.rdSwitch)
    ensures j < n && FinishesAt(c, j)
  {
    assert SwitchesAt(c, s, n - 1);
    if c[n - 1].rec.rdApp || c[n - 1].hs.f.rdSwitch {
      j := OnlyFinished(c, s, n - 1);
    } else {
      j := n - 1;
    }
  }

  /** After the Finished at step j the read keys have switched exactly if an encrypted record has ended since. */
  lemma {:induction false} SwitchedSince(c: seq<Conn>, s: seq<Step>, j: nat, n: nat)
    requires Switching(c, s) && FinishesAt(c, j) && j < n <= |s|
    ensures c[n].rec.rdApp <==> exists m :: j < m < n && EndsAt(c, s, m)
    ensures c[n].rec.rdApp || c[n].hs.f.rdSwitch
    decreases n
  {
    assert SwitchesAt(c, s, n - 1);
    if n == j + 1 {
      NotBefore(c, s, j);
    } else {
      SwitchedSince(c, s, j, n - 1);
      if c[n].rec.rdApp && !c[n - 1].rec.rdApp {
        assert EndsAt(c, s, n - 1);
      }
    }
  }

  /** Rec j .. m is one record: it is in progress at every step after j, and over after step m. */
  ghost predicate OneRecord(c: seq<Conn>, j: nat, m: nat)
  {
    && j <= m && m + 1 < |c| && InRecord(c[j], 1) && c[m + 1].rec.hdr == []
    && forall n :: j < n <= m ==> c[n].rec.hdr != []
  }

  /** While a Finished can come the keys are up. */
  lemma {:induction false} KeysOn(c: seq<Conn>, s: seq<Step>, n: nat)
    requires Switching(c, s) && n <= |s| && c[n].hs.phase == WaitHs
    ensures c[n].hs.f.rdOn
  {
    if n > 0 {
      assert SwitchesAt(c, s, n - 1);
      if c[n - 1].hs.phase == WaitHs {
        KeysOn(c, s, n - 1);
      }
    }
  }

  lemma {:induction false} SameKind(c: seq<Conn>, s: seq<Step>, j: nat, m: nat, n: nat)
    requires Switching(c, s) && OneRecord(c, j, m) && FinishesAt(c, j) && j <= n <= m
    ensures c[n].rec.kind == c[j].rec.kind && |c[n].rec.hdr| == 5 && c[n].hs.f.rdOn
  {
    KeysOn(c, s, j);
    if n > j {
      SameKind(c, s, j, m, n - 1);
      assert SwitchesAt(c, s, n - 1);
    }
  }

  /** At the end of the record that held the Finished the keys have switched if and only if that record was encrypted. */
  lemma SwitchOfRecord(c: seq<Conn>, s: seq<Step>, j: nat, m: nat)
    requires Switching(c, s) && FinishesAt(c, j) && OneRecord(c, j, m)
    ensures c[m + 1].rec.rdApp <==> c[j].rec.kind == REC_APPDATA
    ensures !c[m + 1].rec.rdApp ==> c[m + 1].hs.f.rdSwitch
  {
    SwitchedSince(c, s, j, m + 1);
    SameKind(c, s, j, m, m);
    assert SwitchesAt(c, s, m) && SwitchesAt(c, s, j);
    if c[j].rec.kind == REC_APPDATA {
      assert EndsAt(c, s, m);
    } else {
      forall n | j < n < m + 1 ensures !EndsAt(c, s, n) {
        SameKind(c, s, j, m, n);
      }
    }
  }

  /** Every run's states are such. */
  lemma RunSwitches(e: Env, s: seq<Step>)
    ensures Switching(Conns(e, s), s)
  {
    assert s[..0] == [];
    assert Conns(e, s)[0] == After(e, []);
    forall n | 0 <= n < |s| ensures SwitchesAt(Conns(e, s), s, n) {
      SwitchInRun(e, s, n);
    }
  }

  lemma SwitchInRun(e: Env, s: seq<Step>, n: nat)
    requires n < |s|
    ensures SwitchesAt(Conns(e, s), s, n)
  {
    AfterInv(e, s[..n]);
    DoSwitch(e, After(e, s[..n]), s[n]);
    StepLegal(e, s, n);
    AfterSnoc(e, s[..n], s[n]);
    assert s[..n + 1] == s[..n] + [s[n]];
    SwitchTo(e, s, n, After(e, s[..n]), After(e, s[..n + 1]));
  }

  lemma SwitchTo(e: Env, s: seq<Step>, n: nat, t: Conn, u: Conn)
    requires n < |s| && t == Conns(e, s)[n] && u == Conns(e, s)[n + 1]
    requires SwitchLaw(t, s[n], u) && LegalStep(e, t.hs, u.hs, s[n])
    ensures SwitchesAt(Conns(e, s), s, n)
  {
  }

  /** Over every run: the read keys have switched exactly if an encrypted record has ended since a Finished was
      accepted. */
  lemma KeySwitch(e: Env, s: seq<Step>, n: nat)
    requires n <= |s|
    ensures var c := Conns(e, s);
      c[n].rec.rdApp <==> exists j, m :: 0 <= j < m < n && FinishesAt(c, j) && EndsAt(c, s, m)
  {
    var c := Conns(e, s);
    RunSwitches(e, s);
    if c[n].rec.rdApp {
      var j := OnlyFinished(c, s, n);
      SwitchedSince(c, s, j, n);
    }
    forall j, m | 0 <= j < m < n && FinishesAt(c, j) && EndsAt(c, s, m) ensures c[n].rec.rdApp {
      SwitchedSince(c, s, j, n);
    }
  }

  /** And at the end of the record that held the Finished, exactly if that record was encrypted. */
  lemma KeySwitchOfRecord(e: Env, s: seq<Step>, j: nat, m: nat)
    requires FinishesAt(Conns(e, s), j) && OneRecord(Conns(e, s), j, m)
    ensures Conns(e, s)[m + 1].rec.rdApp <==> Conns(e, s)[j].rec.kind == REC_APPDATA
  {
    RunSwitches(e, s);
    SwitchOfRecord(Conns(e, s), s, j, m);
  }

  lemma FinishedBegins(e: Env, h: Hs)
    requires HsOk(h) && h.phase == WaitHs && h.m.pos == 0 && h.f.cvSeen
    ensures var r := HsRun(e, h, FINISHED_HEADER);
            && r == h.(m := r.m)
            && r.m == Message(HS_FINISHED, 32, 4, h.m.buf[..MSG_MAX - 4] + FINISHED_HEADER, h.m.fin, InFin, h.m.cert)
  {
    var h1 := HsByte(e, h, 20);
    var h2 := HsByte(e, h1, 0);
    var h3 := HsByte(e, h2, 0);
    var h4 := HsByte(e, h3, 32);
    assert FINISHED_HEADER[1..] == [0, 0, 32] && FINISHED_HEADER[1..][1..] == [0, 32];
    assert FINISHED_HEADER[1..][1..][1..] == [32] && FINISHED_HEADER[1..][1..][1..][1..] == [];
    assert h4.m.buf == h.m.buf[..MSG_MAX - 4] + FINISHED_HEADER;
    assert HsRun(e, h3, [32]) == HsRun(e, h4, []);
  }

  /** The right Finished is accepted. */
  lemma RightFinished(e: Env, h: Hs, fin: seq<u8>)
    requires HsOk(h) && h.phase == WaitHs && h.m.pos == 0 && h.f.cvSeen
    requires |fin| == 32 && fin == e.finished(h.k.keys, true, e.hash(h.k.transcript))
    requires |h.out| + 66 + |h.f.reqCtx| <= e.outCap
    ensures var r := HsRun(e, h, FINISHED_HEADER + fin); r.phase == Verifying && r.f.rdSwitch
  {
    var h4 := HsRun(e, h, FINISHED_HEADER);
    FinishedBegins(e, h);
    HsRunSplit(e, h, FINISHED_HEADER, fin);
    BodyRun(e, h4, fin);
    assert Read(e.certCap, h4.m, fin).fin == fin;
  }

  /** The other case is real.  A record in the clear may go on behind its ServerHello (TlsPieces.HandshakeRun asks
      nothing of the keys): when the Finished ends it, the connection is verifying, the record is over, and the next
      one will be opened under the handshake keys. */
  lemma ClearFinished(e: Env, t: Conn, fin: seq<u8>)
    requires InRecord(t, 36) && t.rec.kind == REC_HANDSHAKE && t.rec.pos + 36 == t.rec.len && !t.rec.rdApp
    requires t.hs.phase == WaitHs && t.hs.m.pos == 0 && t.hs.f.cvSeen
    requires |fin| == 32 && fin == e.finished(t.hs.k.keys, true, e.hash(t.hs.k.transcript))
    requires |t.hs.out| + 66 + |t.hs.f.reqCtx| <= e.outCap
    ensures var u := Run(e, t, FINISHED_HEADER + fin);
            u.hs.phase == Verifying && u.rec.hdr == [] && !u.rec.rdApp && u.hs.f.rdSwitch
  {
    RightFinished(e, t.hs, fin);
    HandshakeRun(e, t, FINISHED_HEADER + fin);
  }
}
