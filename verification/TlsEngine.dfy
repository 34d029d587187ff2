/** The engine as the source has it (src/tls/tls.c): pieces of any size, decrypted in place.  It reaches the states
    of the byte-at-a-time machine of Tls, however a stream is cut. */
module TlsEngine {
  import opened Words
  import opened Tls
  import opened TlsPieces

  /** A plaintext alert record of which a first byte has already been passed over. */
  predicate AlertCut(t: Conn)
  {
    !Terminal(t.hs.phase) && |t.rec.hdr| == 5 && t.rec.kind == REC_ALERT && t.rec.pos >= 1
  }

  /** One call of tls_in.  Only a call that begins inside a plaintext alert differs from its bytes one by one: the
      alert is then looked for in the second byte of the piece. */
  function In(e: Env, t: Conn, p: seq<u8>): (r: Conn)
    requires ConnOk(t)
    ensures ConnOk(r)
  {
    if AlertCut(t) && p != [] then
      var n := Least(t.rec.len - t.rec.pos, |p|);
      Run(e, Ended(e, AlertPiece(t, p[..n])), p[n..])
    else Run(e, t, p)
  }

  lemma Slices(s: seq<u8>, i: nat, n: nat, to: nat)
    requires i + n <= to <= |s|
    ensures s[i..to][..n] == s[i..i + n] && s[i..to][n..] == s[i + n..to]
  {
  }

  class Engine {
    const e: Env
    var hs: Hs
    var rec: Rec
    var events: seq<Event>

    ghost function State(): Conn
      reads this
    {
      Conn(hs, rec, events)
    }

    /** tls_start. */
    constructor (e: Env)
      ensures this.e == e && State() == StartConn(e)
    {
      this.e := e;
      hs := Start(e);
      rec := StartConn(e).rec;
      events := [];
    }

    /** cert_stream. */
    method CertStream(p: array<u8>, o: nat, n: nat)
      requires o + n <= p.Length && hs.m.cert.error == NoError && hs.phase != Failed
      modifies this`hs
      ensures hs.m == old(hs.m).(cert := CertRun(e.certCap, old(hs.m.cert), p[o..o + n]))
      ensures hs == (if hs.m.cert.error != NoError then Fail(old(hs).(m := hs.m), hs.m.cert.error) else old(hs).(m := hs.m))
    {
      var c := CertPieces(e.certCap, hs.m.cert, p, o, n);
      hs := hs.(m := hs.m.(cert := c));
      if c.error != NoError {
        hs := Fail(hs, c.error);
      }
    }

    /** A piece of one message's body, and its end. */
    method BodyFeed(p: array<u8>, o: nat, n: nat)
      requires o + n <= p.Length && HsOk(hs) && hs.phase != Failed && hs.m.pos >= 4
      requires 0 < n && hs.m.pos - 4 + n <= hs.m.len
      modifies this`hs
      ensures hs == BodyPiece(e, old(hs), p[o..o + n])
    {
      ghost var h0 := hs;
      var at := hs.m.pos - 4;
      hs := hs.(k := Hashed(hs.k, hs.m.kind, p[o..o + n]));
      if hs.m.whole == Buffered {
        hs := hs.(m := hs.m.(buf := Splice(hs.m.buf, at, p[o..o + n])));
      } else if hs.m.whole == InFin {
        hs := hs.(m := hs.m.(fin := Splice(hs.m.fin, at, p[o..o + n])));
      } else {
        CertStream(p, o, n);
      }
      hs := hs.(m := hs.m.(pos := hs.m.pos + n));
      assert hs == Body(e, h0, p[o..o + n]);
      if hs.m.pos - 4 == hs.m.len {
        hs := Finish(e, hs);
      }
    }

    /** hs_feed. */
    method HsFeed(p: array<u8>, o: nat, n: nat)
      requires o + n <= p.Length && HsOk(hs)
      modifies this`hs
      ensures HsOk(hs) && SameHs(hs, HsRun(e, old(hs), p[o..o + n]))
    {
      var i := o;
      ghost var goal := HsRun(e, hs, p[o..o + n]);
      while i < o + n && hs.phase != Failed
        invariant o <= i <= o + n && HsOk(hs) && SameHs(HsRun(e, hs, p[i..o + n]), goal)
      {
        i := HsTurn(p, i, o + n, goal);
      }
      if hs.phase == Failed {
        HsStuck(e, hs, p[i..o + n]);
      } else {
        assert p[i..o + n] == [];
      }
    }

    /** One turn of its loop: a byte of a header, or a piece of a body. */
    method HsTurn(p: array<u8>, i: nat, to: nat, ghost goal: Hs) returns (j: nat)
      requires i < to <= p.Length && HsOk(hs) && hs.phase != Failed && SameHs(HsRun(e, hs, p[i..to]), goal)
      modifies this`hs
      ensures i < j <= to && HsOk(hs) && SameHs(HsRun(e, hs, p[j..to]), goal)
    {
      ghost var rest := p[i..to];
      if hs.m.pos < 4 {
        hs := HsByte(e, hs, p[i]);
        j := i + 1;
        Slices(p[..], i, 1, to);
      } else {
        var take := Least(hs.m.len - (hs.m.pos - 4), to - i);
        j := i + take;
        Slices(p[..], i, take, to);
        BodyStep(e, hs, rest, take, goal);
        BodyFeed(p, i, take);
      }
    }

    /** tk_open_data: n bytes decrypted in place. */
    method OpenData(p: array<u8>, o: nat, n: nat) returns (d: seq<u8>)
      requires o + n <= p.Length
      modifies p, this`rec
      ensures d == Plains(e, rec.openKey, old(rec.taken), old(p[o..o + n])) && p[o..o + n] == d
      ensures rec == old(rec).(taken := old(rec.taken) + old(p[o..o + n]))
      ensures forall k :: 0 <= k < p.Length && !(o <= k < o + n) ==> p[k] == old(p[k])
    {
      ghost var c := p[o..o + n];
      ghost var r0 := rec;
      var i := 0;
      d := [];
      assert r0.taken + c[..0] == r0.taken;
      while i < n
        invariant 0 <= i <= n && rec == r0.(taken := r0.taken + c[..i])
        invariant p[o + i..o + n] == c[i..] && d == Plains(e, r0.openKey, r0.taken, c)[..i] && p[o..o + i] == d
        invariant p[..o] == old(p[..o]) && p[o + n..] == old(p[o + n..])
      {
        assert p[o + i] == p[o + i..o + n][0] == c[i];
        d := OpenByte(p, o, i, d);
        assert r0.taken + c[..i] + [c[i]] == r0.taken + c[..i + 1];
        assert p[o + i + 1..o + n] == c[i..][1..];
        i := i + 1;
      }
      assert c[..n] == c;
    }

    /** One of them. */
    method OpenByte(p: array<u8>, o: nat, i: nat, d: seq<u8>) returns (d': seq<u8>)
      requires o + i < p.Length && p[o..o + i] == d
      modifies p, this`rec
      ensures d' == d + [e.plain(old(rec).openKey, old(rec).taken, old(p[o + i]))] && p[o..o + i + 1] == d'
      ensures rec == old(rec).(taken := old(rec).taken + [old(p[o + i])])
      ensures p[..o] == old(p[..o]) && p[o + i + 1..] == old(p[o + i + 1..])
    {
      var b := p[o + i];
      p[o + i] := e.plain(rec.openKey, rec.taken, b);
      d' := d + [p[o + i]];
      rec := rec.(taken := rec.taken + [b]);
    }

    /** A piece of ciphertext decrypted; how much of it is content. */
    method OpenPiece(p: array<u8>, o: nat, n: nat) returns (content: nat)
      requires o + n <= p.Length && 0 < n && rec.len >= 17 && rec.pos + n <= rec.len - 16
      modifies p, this`rec
      ensures content <= n
      ensures var d := Plains(e, old(rec.openKey), old(rec.taken), old(p[o..o + n]));
              && p[o..o + content] == Content(old(rec), d)
              && rec == Opened(old(rec), old(p[o..o + n]), Content(old(rec), d), InnerType(old(rec), d))
      ensures forall k :: 0 <= k < p.Length && !(o <= k < o + n) ==> p[k] == old(p[k])
    {
      ghost var r0, c := rec, p[o..o + n];
      var d := OpenData(p, o, n);
      content := n;
      if rec.pos + n == rec.len - 16 {
        rec := rec.(inner := d[n - 1]);
        content := n - 1;
      }
      ghost var q := p[o..o + content];
      assert q == Content(r0, d);
      assert forall k :: 0 <= k < content ==> q[k] == p[o + k];
      if content >= 2 {
        var last0, last1 := p[o + (content - 2)], p[o + (content - 1)];
        assert last0 == q[content - 2] && last1 == q[content - 1];
        rec := rec.(last0 := last0, last1 := last1);
      } else if content == 1 {
        assert q[0] == p[o];
        rec := rec.(last0 := rec.last1, last1 := p[o]);
      }
      rec := rec.(pos := rec.pos + n);
    }

    /** Decrypted content handed to whoever is reading this phase. */
    method Hand(p: array<u8>, o: nat, n: nat)
      requires o + n <= p.Length && HsOk(hs)
      modifies this`hs, this`events
      ensures HsOk(hs) && SameHs(hs, Deliver(e, old(State()), p[o..o + n]).hs)
      ensures events == Deliver(e, old(State()), p[o..o + n]).events
    {
      if n == 0 {
        assert p[o..o + n] == [];
        assert events + DataEvents([]) == events;
      } else if hs.phase == Connected {
        events := events + DataEvents(p[o..o + n]);
      } else {
        HsFeed(p, o, n);
      }
    }

    /** A piece of ciphertext: decrypted, then handed on. */
    method CtFeed(p: array<u8>, o: nat, n: nat, ghost from: nat, ghost to: nat)
      requires from <= o && o + n <= to <= p.Length && 0 < n && HsOk(hs) && rec.len >= 17 && rec.pos + n <= rec.len - 16
      modifies p, this`hs, this`rec, this`events
      ensures HsOk(hs) && rec == CtPiece(e, old(State()), old(p[o..o + n])).rec
      ensures SameEnc(State(), CtPiece(e, old(State()), old(p[o..o + n])))
      ensures p[..from] == old(p[..from]) && p[o + n..to] == old(p[o + n..to]) && p[to..] == old(p[to..])
    {
      ghost var t, c := State(), p[o..o + n];
      var content := OpenPiece(p, o, n);
      ghost var t1 := State();
      Hand(p, o, content);
      assert CtPiece(e, t, c) == Deliver(e, t1, p[o..o + content]);
    }

    /** One turn of enc_feed's loop, from offset i of bytes that end at `to`. */
    method EncStep(p: array<u8>, i: nat, to: nat, ghost from: nat) returns (j: nat)
      requires from <= i < to <= p.Length && Reading(State(), to - i)
      modifies p, this`hs, this`rec, this`events
      ensures i < j <= to && HsOk(hs) && rec.len == old(rec.len) && rec.hdr == old(rec.hdr) && rec.kind == old(rec.kind)
      ensures hs.phase == Failed ==>
                rec.pos < rec.len && SameEnc(State(), EncRun(e, old(State()), old(p[i..to])))
      ensures hs.phase != Failed ==>
                Reading(State(), to - j) && EncRun(e, State(), old(p[j..to])) == EncRun(e, old(State()), old(p[i..to]))
      ensures p[..from] == old(p[..from]) && p[j..to] == old(p[j..to]) && p[to..] == old(p[to..])
    {
      if rec.pos < rec.len - 16 {
        ghost var t, rest := State(), p[i..to];
        var take := Least(rec.len - 16 - rec.pos, to - i);
        j := i + take;
        assert rest[..take] == p[i..i + take] && rest[take..] == p[j..to];
        CtStep(e, t, rest, take);
        CtFeed(p, i, take, from, to);
      } else {
        j := TagFeed(p, i, to);
      }
    }

    /** Bytes of the tag. */
    method TagFeed(p: array<u8>, i: nat, to: nat) returns (j: nat)
      requires i < to <= p.Length && Reading(State(), to - i) && rec.pos >= rec.len - 16
      modifies this`rec
      ensures j == to && rec.len == old(rec.len) && rec.hdr == old(rec.hdr) && rec.kind == old(rec.kind)
      ensures Reading(State(), 0) && EncRun(e, State(), []) == EncRun(e, old(State()), p[i..to])
    {
      ghost var t, rest := State(), p[i..to];
      var take := Least(rec.len - rec.pos, to - i);
      j := i + take;
      TagStep(e, t, rest);
      rec := rec.(tag := rec.tag + p[i..i + take], pos := rec.pos + take);
    }

    /** What is left to do of a piece, up to `to`: the bytes from i, unless the connection has failed. */
    ghost predicate EncLeft(p: array<u8>, i: nat, to: nat, goal: Conn)
      reads this, p
    {
      && HsOk(hs) && i <= to <= p.Length
      && if hs.phase == Failed then rec.pos < rec.len && SameEnc(State(), goal)
         else Reading(State(), to - i) && EncRun(e, State(), p[i..to]) == goal
    }

    method EncTurn(p: array<u8>, i: nat, to: nat, ghost from: nat, ghost goal: Conn) returns (j: nat)
      requires from <= i < to && EncLeft(p, i, to, goal) && hs.phase != Failed
      modifies p, this`hs, this`rec, this`events
      ensures i < j <= to && EncLeft(p, j, to, goal)
      ensures rec.len == old(rec.len) && rec.hdr == old(rec.hdr) && rec.kind == old(rec.kind)
      ensures p[..from] == old(p[..from]) && p[to..] == old(p[to..])
    {
      j := EncStep(p, i, to, from);
    }

    /** enc_feed. */
    method EncFeed(p: array<u8>, o: nat, n: nat)
      requires o + n <= p.Length && Reading(State(), n)
      modifies p, this`hs, this`rec, this`events
      ensures HsOk(hs) && SameEnc(State(), EncRun(e, old(State()), old(p[o..o + n])))
      ensures rec.len == old(rec.len) && rec.hdr == old(rec.hdr) && rec.kind == old(rec.kind)
      ensures hs.phase == Failed ==> rec.pos < rec.len
      ensures p[..o] == old(p[..o]) && p[o + n..] == old(p[o + n..])
    {
      ghost var goal := EncRun(e, State(), p[o..o + n]);
      EncLoop(p, o, o + n, goal);
      assert p[o + n..o + n] == [];
      if hs.phase != Failed {
        NoneLeft(e, State());
      }
    }

    method EncLoop(p: array<u8>, from: nat, to: nat, ghost goal: Conn)
      requires from <= to && EncLeft(p, from, to, goal) && hs.phase != Failed
      modifies p, this`hs, this`rec, this`events
      ensures hs.phase != Failed ==> EncLeft(p, to, to, goal)
      ensures hs.phase == Failed ==> HsOk(hs) && rec.pos < rec.len && SameEnc(State(), goal)
      ensures rec.len == old(rec.len) && rec.hdr == old(rec.hdr) && rec.kind == old(rec.kind)
      ensures p[..from] == old(p[..from]) && p[to..] == old(p[to..])
    {
      var i := from;
      while i < to && hs.phase != Failed
        invariant from <= i <= to && EncLeft(p, i, to, goal)
        invariant rec.len == old(rec.len) && rec.hdr == old(rec.hdr) && rec.kind == old(rec.kind)
        invariant p[..from] == old(p[..from]) && p[to..] == old(p[to..])
      {
        i := EncTurn(p, i, to, from, goal);
      }
    }

    /** A piece of a record in the clear. */
    method PlainFeed(p: array<u8>, o: nat, n: nat)
      requires o + n <= p.Length && 0 < n && HsOk(hs) && hs.phase != Failed && !Encrypted(State())
      modifies this`hs, this`rec
      ensures !Encrypted(State())
      ensures HsOk(hs) && rec == PlainPiece(e, old(State()), p[o..o + n]).rec
      ensures SameEnc(State(), PlainPiece(e, old(State()), p[o..o + n]))
    {
      if rec.kind == REC_HANDSHAKE {
        HsFeed(p, o, n);
      } else if rec.kind == REC_ALERT {
        if n >= 2 {
          hs := AlertIn(hs, p[o + 1]);
        }
      } else if rec.kind != REC_CCS {
        hs := Fail(hs, BadRecord);
      }
      rec := rec.(pos := rec.pos + n);
    }

    /** record_end, if the record has been read to its end.  After a failure, which only a record in the clear brings
        here, it ends without a verdict. */
    method RecordEnds()
      requires HsOk(hs) && rec.pos <= rec.len && |rec.hdr| <= 5 && (Encrypted(State()) ==> rec.len >= 17)
      requires hs.phase == Failed && Encrypted(State()) ==> rec.pos < rec.len
      modifies this`hs, this`rec, this`events
      ensures State() == (if old(hs.phase) != Failed then Ended(e, old(State())) else old(State()).(rec := rec))
    {
      if rec.pos == rec.len {
        if hs.phase == Failed {
          rec := rec.(hdr := []);
        } else {
          var t := EndRecord(e, Conn(hs, rec, events));
          hs, rec, events := t.hs, t.rec, t.events;
        }
      }
    }

    /** One turn of tls_in's loop, from offset i. */
    method Turn(p: array<u8>, i: nat) returns (j: nat)
      requires i < p.Length && ConnOk(State()) && !Terminal(hs.phase)
      modifies p, this`hs, this`rec, this`events
      ensures i < j <= p.Length && ConnOk(State()) && (j < p.Length ==> !AlertCut(State()))
      ensures Same(State(), In(e, old(State()), old(p[..])[i..j]))
      ensures AlertCut(old(State())) ==> j - i == Least(old(rec.len - rec.pos), p.Length - i)
      ensures p[j..] == old(p[..])[j..]
    {
      if |rec.hdr| < 5 {
        j := i + 1;
        FeedOne(e, State(), p[i]);
        assert p[i..j] == [p[i]];
        rec := rec.(hdr := rec.hdr + [p[i]]);
        if |rec.hdr| == 5 {
          var t1 := RecordStart(Conn(hs, rec, events));
          hs, rec := t1.hs, t1.rec;
        }
      } else {
        j := Piece(p, i);
      }
    }

    /** The bytes here of the record being read. */
    method Piece(p: array<u8>, i: nat) returns (j: nat)
      requires i < p.Length && InRecord(State(), 1)
      modifies p, this`hs, this`rec, this`events
      ensures i < j <= p.Length && j - i == Least(old(rec.len - rec.pos), p.Length - i) && ConnOk(State())
      ensures j < p.Length ==> !AlertCut(State())
      ensures Same(State(), In(e, old(State()), old(p[..])[i..j]))
      ensures p[j..] == old(p[..])[j..]
    {
      var take := Least(rec.len - rec.pos, p.Length - i);
      j := i + take;
      if hs.f.rdOn && rec.kind == REC_APPDATA {
        EncryptedPiece(p, i, take);
      } else {
        PlainPieces(p, i, take);
      }
    }

    method EncryptedPiece(p: array<u8>, o: nat, n: nat)
      requires o + n <= p.Length && 0 < n && InRecord(State(), n) && Encrypted(State())
      modifies p, this`hs, this`rec, this`events
      ensures ConnOk(State()) && Same(State(), In(e, old(State()), old(p[o..o + n])))
      ensures !AlertCut(State())
      ensures p[o + n..] == old(p[o + n..])
    {
      ghost var u := EncRun(e, State(), p[o..o + n]);
      EncryptedIn(e, State(), p[o..o + n]);
      EncRunKeeps(e, State(), p[o..o + n]);
      EncFeed(p, o, n);
      ghost var a := State();
      RecordEnds();
      EndsSame(e, a, u, State());
    }

    method PlainPieces(p: array<u8>, o: nat, n: nat)
      requires o + n <= p.Length && 0 < n && InRecord(State(), n) && !Encrypted(State())
      modifies this`hs, this`rec, this`events
      ensures ConnOk(State()) && Same(State(), In(e, old(State()), p[o..o + n]))
      ensures old(rec.pos) + n == old(rec.len) ==> !AlertCut(State())
    {
      ghost var u := PlainPiece(e, State(), p[o..o + n]);
      PlainIn(e, State(), p[o..o + n]);
      PlainFeed(p, o, n);
      ghost var a := State();
      RecordEnds();
      EndsSame(e, a, u, State());
    }

    /** tls_in. */
    method TlsIn(p: array<u8>)
      requires ConnOk(State())
      modifies p, this`hs, this`rec, this`events
      ensures ConnOk(State()) && Same(State(), In(e, old(State()), old(p[..])))
    {
      ghost var goal := In(e, State(), p[..]);
      var i := 0;
      assert p[0..] == p[..];
      while i < p.Length && !Terminal(hs.phase)
        invariant 0 <= i <= p.Length && ConnOk(State())
        invariant Same(In(e, State(), p[i..]), goal)
      {
        ghost var t, was := State(), p[..];
        var j := Turn(p, i);
        TurnStep(e, t, State(), was, i, j, goal);
        i := j;
      }
      InStuck(e, State(), p[i..]);
    }
  }

  /** A call that is taken up in two parts, the first of them one turn of the loop. */
  lemma InSplit(e: Env, t: Conn, rest: seq<u8>, n: nat)
    requires ConnOk(t) && 0 < n <= |rest|
    requires AlertCut(t) ==> n == Least(t.rec.len - t.rec.pos, |rest|)
    ensures In(e, t, rest) == Run(e, In(e, t, rest[..n]), rest[n..])
  {
    assert rest[..n] + rest[n..] == rest;
    if AlertCut(t) {
      assert rest[..n][..n] == rest[..n] && rest[..n][n..] == [];
    } else {
      RunSplit(e, t, rest[..n], rest[n..]);
    }
  }

  /** After a turn the rest of the call has the same end to reach. */
  lemma TurnStep(e: Env, t: Conn, s: Conn, p: seq<u8>, i: nat, j: nat, goal: Conn)
    requires ConnOk(t) && ConnOk(s) && i < j <= |p|
    requires AlertCut(t) ==> j - i == Least(t.rec.len - t.rec.pos, |p| - i)
    requires Same(In(e, t, p[i..]), goal) && Same(s, In(e, t, p[i..j])) && (j < |p| ==> !AlertCut(s))
    ensures Same(In(e, s, p[j..]), goal)
  {
    assert p[i..][..j - i] == p[i..j] && p[i..][j - i..] == p[j..];
    InSplit(e, t, p[i..], j - i);
    SameRun(e, s, In(e, t, p[i..j]), p[j..]);
  }

  lemma InStuck(e: Env, t: Conn, p: seq<u8>)
    requires ConnOk(t) && (p == [] || Terminal(t.hs.phase))
    ensures In(e, t, p) == t
  {
    if p != [] {
      RunStuck(e, t, p);
    }
  }

  /** Inside an encrypted record, n bytes of which are here. */
  ghost predicate Reading(t: Conn, n: nat)
  {
    && HsOk(t.hs) && !Terminal(t.hs.phase) && Encrypted(t)
    && |t.rec.hdr| == 5 && t.rec.len >= 17 && t.rec.pos + n <= t.rec.len
  }

  /** Equal, or in all that a failed connection still shows. */
  ghost predicate SameEnc(a: Conn, b: Conn)
  {
    a.events == b.events && SameHs(a.hs, b.hs) && (b.hs.phase != Failed ==> a.rec == b.rec)
  }

  lemma CtStep(e: Env, t: Conn, rest: seq<u8>, take: nat)
    requires Reading(t, |rest|) && 0 < take <= |rest| && t.rec.pos + take <= t.rec.len - 16
    ensures var t1 := CtPiece(e, t, rest[..take]);
            && SameRecord(t.rec, t1.rec, take)
            && (t1.hs.phase != Failed ==>
                  && EncRun(e, t1, rest[take..]) == EncRun(e, t, rest)
                  && Reading(t1, |rest| - take))
            && (t1.hs.phase == Failed ==> SameButRecord(t1, EncRun(e, t, rest)))
  {
    assert rest == rest[..take] + rest[take..];
    EncRunSplit(e, t, rest[..take], rest[take..]);
    CtRun(e, t, rest[..take]);
    EncRunKeeps(e, t, rest[..take]);
  }

  lemma TagStep(e: Env, t: Conn, rest: seq<u8>)
    requires Reading(t, |rest|) && t.rec.pos >= t.rec.len - 16
    ensures EncRun(e, t, rest) == TagPiece(t, rest) && EncRun(e, TagPiece(t, rest), []) == TagPiece(t, rest)
    ensures Reading(TagPiece(t, rest), 0)
  {
    TagRun(e, t, rest);
  }

  lemma NoneLeft(e: Env, t: Conn)
    requires Reading(t, 0)
    ensures EncRun(e, t, []) == t
  {
  }

  lemma BodyStep(e: Env, h: Hs, rest: seq<u8>, take: nat, goal: Hs)
    requires HsOk(h) && h.phase != Failed && h.m.pos >= 4 && 0 < take <= |rest| && h.m.pos - 4 + take <= h.m.len
    requires SameHs(HsRun(e, h, rest), goal)
    ensures var h1 := BodyPiece(e, h, rest[..take]); HsOk(h1) && SameHs(HsRun(e, h1, rest[take..]), goal)
  {
    assert rest == rest[..take] + rest[take..];
    HsRunSplit(e, h, rest[..take], rest[take..]);
    BodyRun(e, h, rest[..take]);
    var h1, h2 := BodyPiece(e, h, rest[..take]), HsRun(e, h, rest[..take]);
    if h2.phase == Failed {
      HsStuck(e, h1, rest[take..]);
      HsStuck(e, h2, rest[take..]);
    }
  }

  /** One turn of cert_stream's loop: a piece of a certificate, a piece of its extensions, or one byte of a length. */
  method CertTurn(cap: nat, c0: Cert, p: array<u8>, i0: nat, to: nat) returns (c: Cert, i: nat)
    requires i0 < to <= p.Length && c0.error == NoError
    ensures i0 <= i <= to && CertRun(cap, c, p[i..to]) == CertRun(cap, c0, p[i0..to])
    ensures i == i0 ==> Waiting(c0) && !Waiting(c)
  {
    ghost var rest := p[i0..to];
    if c0.phase == Der {
      var take := Least(c0.left, to - i0);
      CertTake(cap, c0, rest, take);
      i := i0 + take;
      assert rest[..take] == p[i0..i] && rest[take..] == p[i..to];
      c := DerPiece(cap, c0, p[i0..i]);
    } else if c0.phase == Extensions {
      var take := Least(c0.extLeft, to - i0);
      CertTake(cap, c0, rest, take);
      i := i0 + take;
      assert rest[take..] == p[i..to];
      c := ExtPiece(c0, take);
    } else {
      i := i0 + 1;
      assert rest[0] == p[i0] && rest[1..] == p[i..to];
      c := CertByte(cap, c0, p[i0]);
    }
  }

  /** A certificate or extensions of no bytes: the turn that leaves them takes none. */
  predicate Waiting(c: Cert)
  {
    (c.phase == Der && c.left == 0) || (c.phase == Extensions && c.extLeft == 0)
  }

  /** The loop of cert_stream. */
  method CertPieces(cap: nat, c0: Cert, p: array<u8>, o: nat, n: nat) returns (c: Cert)
    requires o + n <= p.Length && c0.error == NoError
    ensures c == CertRun(cap, c0, p[o..o + n])
  {
    c := c0;
    var i := o;
    ghost var goal := CertRun(cap, c0, p[o..o + n]);
    while i < o + n && c.error == NoError
      invariant o <= i <= o + n
      invariant CertRun(cap, c, p[i..o + n]) == goal
      decreases o + n - i, Waiting(c)
    {
      c, i := CertTurn(cap, c, p, i, o + n);
    }
    if c.error != NoError {
      CertStuck(cap, c, p[i..o + n]);
    }
  }

  lemma CertTake(cap: nat, c: Cert, rest: seq<u8>, take: nat)
    requires c.error == NoError && rest != []
    ensures c.phase == Der && take == Least(c.left, |rest|) ==>
              CertRun(cap, DerPiece(cap, c, rest[..take]), rest[take..]) == CertRun(cap, c, rest)
    ensures c.phase == Extensions && take == Least(c.extLeft, |rest|) ==>
              CertRun(cap, ExtPiece(c, take), rest[take..]) == CertRun(cap, c, rest)
  {
    if take <= |rest| {
      assert rest == rest[..take] + rest[take..];
      CertRunSplit(cap, c, rest[..take], rest[take..]);
      LeaveEmpty(cap, c, rest);
      if c.phase == Der && take == Least(c.left, |rest|) {
        if take > 0 {
          DerRun(cap, c, rest[..take]);
        } else {
          assert Kept(cap, c.store, rest[..0]) == c.store;
        }
      } else if c.phase == Extensions && take == Least(c.extLeft, |rest|) && take > 0 {
        ExtRun(cap, c, rest[..take]);
      }
    }
  }

  /** A piece of a record in the clear, all at once. */
  function PlainPiece(e: Env, t: Conn, c: seq<u8>): (r: Conn)
    requires HsOk(t.hs) && t.hs.phase != Failed
    ensures HsOk(r.hs) && SameRecord(t.rec, r.rec, |c|)
  {
    if t.rec.kind == REC_HANDSHAKE then HandshakePiece(e, t, c)
    else if t.rec.kind == REC_ALERT then AlertPiece(t, c)
    else if t.rec.kind == REC_CCS then SkipPiece(t, |c|)
    else FailConn(SkipPiece(t, |c|), BadRecord)
  }

  lemma PlainIn(e: Env, t: Conn, c: seq<u8>)
    requires InRecord(t, |c|) && !Encrypted(t) && c != []
    ensures Same(Ended(e, PlainPiece(e, t, c)), In(e, t, c))
  {
    if t.rec.kind == REC_HANDSHAKE {
      HandshakeRun(e, t, c);
    } else if t.rec.kind == REC_ALERT {
      if t.rec.pos == 0 {
        AlertRun(e, t, c);
      } else {
        assert c[..|c|] == c && c[|c|..] == [];
      }
    } else if t.rec.kind == REC_CCS {
      SkipRun(e, t, c);
    } else {
      OtherRun(e, t, c);
    }
  }

  lemma EncryptedIn(e: Env, t: Conn, c: seq<u8>)
    requires InRecord(t, |c|) && Encrypted(t) && c != []
    ensures EncRun(e, t, c).rec.pos <= t.rec.len && |EncRun(e, t, c).rec.hdr| == 5
    ensures In(e, t, c) == Ended(e, EncRun(e, t, c))
  {
    EncryptedRun(e, t, c);
  }

  lemma FeedOne(e: Env, t: Conn, b: u8)
    requires ConnOk(t) && !AlertCut(t)
    ensures In(e, t, [b]) == Feed(e, t, b)
  {
    assert [b][1..] == [];
    assert Run(e, Feed(e, t, b), []) == Feed(e, t, b);
  }

  lemma EndsSame(e: Env, a: Conn, u: Conn, r: Conn)
    requires HsOk(u.hs) && u.rec.pos <= u.rec.len && |u.rec.hdr| <= 5 && (Encrypted(u) ==> u.rec.len >= 17)
    requires SameEnc(a, u) && HsOk(a.hs)
    requires r == (if a.hs.phase != Failed then Ended(e, u) else a.(rec := r.rec))
    ensures Same(r, Ended(e, u)) && ConnOk(r)
  {
  }

  /** tls_out_consumed: what is left is moved down in place. */
  method OutConsumed(out: array<u8>, len: nat, n: nat) returns (left: nat)
    requires len <= out.Length
    modifies out
    ensures left == (if n >= len then 0 else len - n)
    ensures out[..left] == old(out[len - left..len])
  {
    if n >= len {
      return 0;
    }
    ghost var q, r := out[..len], out[n..len];
    var i := 0;
    while i + n < len
      invariant 0 <= i <= len - n
      invariant forall k :: 0 <= k < i ==> out[k] == r[k]
      invariant forall k :: i + n <= k < len ==> out[k] == q[k]
    {
      assert out[i + n] == q[i + n] == r[i];
      out[i] := out[i + n];
      i := i + 1;
    }
    left := len - n;
    assert out[..left] == r;
  }
}
