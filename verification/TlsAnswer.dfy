/** What the client answers once the server's Finished is right (src/tls/tls.c, server_finished): over whole runs, the
    one record it queues then. */
module TlsAnswer {
  import opened Words
  import opened Tls
  import opened TlsMessages
  import opened TlsPieces
  import opened TlsEngine
  import opened TlsRuns
  import opened TlsKeySwitch
  import opened TlsHistory
  import N = TlsNumbers

  /** What this client answers: its empty Certificate if one was asked for, and its own Finished, over everything the
      server said and that Certificate. */
  ghost function Answer(e: Env, y: Client, f: Flags, k: Keys, msgs: seq<seq<u8>>): seq<u8>
    requires f.hrrDone ==> msgs != []
  {
    var c := if f.certRequested then [HS_CERTIFICATE] + Vec24(Vec8(f.reqCtx) + Vec24([])) else [];
    c + FINISHED_HEADER + e.finished(k, false, e.hash(Spoken(y, f.hrrDone, msgs) + c))
  }

  /** One record of it, under a key. */
  ghost function AnswerRecord(e: Env, key: TrafficKey, y: Client, f: Flags, msgs: seq<seq<u8>>): seq<u8>
    requires f.hrrDone ==> msgs != []
  {
    N.ItemBytes(e, N.Record(key, Answer(e, y, f, key.keys, msgs), REC_HANDSHAKE))
  }

  /** A byte on which a handshake is verifying ended its Finished, and queued the answer. */
  lemma FinishAnswers(e: Env, y: Client, h: Hs, msgs: seq<seq<u8>>, x: seq<u8>, c: nat)
    requires Told(e, y, h, msgs, x, c) && Taken(x) && h.phase == WaitHs && h.m.pos == 4 + h.m.len && BodyOk(h.m)
    requires Finish(e, h).phase == Verifying
    ensures x[0] == HS_FINISHED
    ensures Finish(e, h).out == h.out + AnswerRecord(e, TrafficKey(h.k.keys, [], h.k.wrCount), y, h.f, msgs + [x])
    ensures Finish(e, h).f.certRequested == h.f.certRequested && Finish(e, h).f.reqCtx == h.f.reqCtx
    ensures Finish(e, h).f.hrrDone == h.f.hrrDone && Finish(e, h).k.keys == h.k.keys
  {
    FinishedOnly(e, h);
    FinishedSpeaks(e, y, h, msgs, x, c);
    AnswerIs(h.f);
    var key, a := TrafficKey(h.k.keys, [], h.k.wrCount), Answer(e, y, h.f, h.k.keys, msgs + [x]);
    N.SealedIs(e, key, a, REC_HANDSHAKE);
    N.WireOne(e, N.Record(key, a, REC_HANDSHAKE));
  }

  lemma FinishedOnly(e: Env, h: Hs)
    requires h.phase == WaitHs && BodyOk(h.m) && MsgEnd(e, h).phase == Verifying
    ensures h.m.kind == HS_FINISHED && MsgEnd(e, h) == ServerFinished(e, h)
  {
  }

  lemma ByteOut(e: Env, t: Conn, b: u8)
    requires InRecord(t, 1) && !Terminal(Feed(e, t, b).hs.phase)
    ensures Feed(e, t, b).hs.out == HsRun(e, t.hs, Heard(e, t, Byte(b))).out
  {
    if Encrypted(t) {
      N.EndQuiet(e, EncByte(e, t, b));
      if t.rec.pos + 1 < t.rec.len - 16 && t.hs.phase != Connected {
        EncByteKeeps(e, t, b);
      }
    } else {
      assert HsRun(e, t.hs, [b]) == HsByte(e, t.hs, b);
      PlainLeaves(e, t, b);
      N.EndQuiet(e, PlainByte(e, t, b));
    }
  }

  /** The byte that ended the Finished. */
  lemma ByteAnswers(e: Env, y: Client, h: Hs, msgs: seq<seq<u8>>, x: seq<u8>, c: nat, b: u8)
    requires Told(e, y, h, msgs, x, c) && HsInv(e, h) && h.phase == WaitHs && HsByte(e, h, b).phase == Verifying
    ensures var r := HsByte(e, h, b);
            && r.f.hrrDone == h.f.hrrDone
            && r.out == h.out + AnswerRecord(e, TrafficKey(r.k.keys, [], h.k.wrCount), y, r.f, msgs + [x + [b]])
  {
    ByteIs(e, h, b);
    var h1 := Stepped(e, h, b);
    N.SteppedQuiet(e, h, b);
    SteppedTold(e, y, h, msgs, x, c, b);
    FramedMessage(h1.m, x + [b]);
    FinishAnswers(e, y, h1, msgs, x + [b], c);
  }

  /** Whenever a step makes a handshake verifying, everything heard is whole messages, and one record is queued: the
      client's empty Certificate, if one was asked for, with the context of the request, and its Finished over all those
      messages and that Certificate, sealed under the handshake key of the client's side. */
  lemma Answered(e: Env, s: seq<Step>) returns (msgs: seq<seq<u8>>)
    requires s != [] && After(e, s[..|s| - 1]).hs.phase == WaitHs && After(e, s).hs.phase == Verifying
    ensures var h, r := After(e, s[..|s| - 1]).hs, After(e, s).hs;
            && History(e, s) == Flat(msgs) && msgs != []
            && r.out == h.out + AnswerRecord(e, TrafficKey(r.k.keys, [], h.k.wrCount), ClientOf(e), r.f, msgs)
  {
    var q, st := s[..|s| - 1], s[|s| - 1];
    var t := After(e, q);
    var x, c;
    msgs, x, c := Transcript(e, q);
    AfterInv(e, q);
    AfterLast(e, s);
    StepCarries(e, t, st);
    var b := AnswerByte(e, t, st);
    ByteAnswers(e, ClientOf(e), t.hs, msgs, x, c, b);
    ParsedMore(History(e, q), msgs, x, b);
    ParsedEnd(History(e, q) + [b], msgs, x + [b]);
    msgs := msgs + [x + [b]];
    assert Flat(msgs) + [] == Flat(msgs);
  }

  lemma AnswerByte(e: Env, t: Conn, s: Step) returns (b: u8)
    requires ConnOk(t) && HsInv(e, t.hs) && t.hs.phase == WaitHs && Do(e, t, s).hs.phase == Verifying
    requires Carried(HsRun(e, t.hs, Heard(e, t, s)), Do(e, t, s).hs)
    ensures Heard(e, t, s) == [b]
    ensures var r, u := HsByte(e, t.hs, b), Do(e, t, s).hs;
            r.phase == Verifying && u.out == r.out && u.k.keys == r.k.keys
            && u.f.hrrDone == r.f.hrrDone && u.f.certRequested == r.f.certRequested && u.f.reqCtx == r.f.reqCtx
  {
    var p := Heard(e, t, s);
    assert p != [] && p == [p[0]];
    b := p[0];
    assert HsRun(e, t.hs, p) == HsByte(e, t.hs, b);
    ByteOut(e, t, s.b);
  }
}
