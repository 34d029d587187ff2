/** What the hashes of a handshake are hashes of (src/tls/tls.c, hs_feed and the messages it ends): over whole runs, the
    handshake messages the server has sent, in order, with the hellos of this client. */
module TlsHistory {
  import opened Words
  import opened Tls
  import opened TlsMessages
  import opened TlsPieces
  import opened TlsEngine
  import opened TlsRuns
  import opened TlsKeySwitch

  /** The handshake bytes a step delivers: content of an encrypted record, or bytes of a handshake record in the
      clear. */
  ghost function Heard(e: Env, t: Conn, s: Step): seq<u8>
  {
    if !s.Byte? || !InRecord(t, 1) then []
    else if Encrypted(t) then
      if t.rec.pos + 1 < t.rec.len - 16 && t.hs.phase != Connected then [e.plain(t.rec.openKey, t.rec.taken, s.b)]
      else []
    else if t.rec.kind == REC_HANDSHAKE then [s.b]
    else []
  }

  /** The handshake bytes of a run. */
  ghost function History(e: Env, s: seq<Step>): seq<u8>
    decreases |s|
  {
    if s == [] then []
    else History(e, s[..|s| - 1]) + Heard(e, After(e, s[..|s| - 1]), s[|s| - 1])
  }

  /** A whole handshake message: a type, the length of its body in three bytes, the body. */
  predicate IsMessage(x: seq<u8>)
  {
    |x| >= 4 && |x| == 4 + Length3(x[1..4])
  }

  /** A message of a length this client takes: a Certificate of any, a Finished of its own, others that fit the
      buffer. */
  predicate Taken(x: seq<u8>)
  {
    && IsMessage(x)
    && (x[0] == HS_FINISHED ==> |x| == 36)
    && (x[0] != HS_FINISHED && x[0] != HS_CERTIFICATE ==> |x| <= 4 + MSG_MAX)
  }

  ghost predicate Whole(msgs: seq<seq<u8>>)
  {
    forall i :: 0 <= i < |msgs| ==> Taken(msgs[i])
  }

  lemma {:induction false} FlatSnoc(a: seq<seq<u8>>, x: seq<u8>)
    ensures Flat(a + [x]) == Flat(a) + x
  {
    if a == [] {
      assert [x][1..] == [];
    } else {
      FlatSnoc(a[1..], x);
      assert (a + [x])[1..] == a[1..] + [x];
    }
  }

  // ---- what has been said --------------------------------------------------------------------------------------

  /** What a client says of itself: how it hashes, and its two hellos. */
  datatype Client = Client(hash: seq<u8> -> seq<u8>, first: seq<u8>, second: seq<u8>)

  ghost function ClientOf(e: Env): Client
  {
    Client(e.hash, Hello(e.rnd, e.sni, 0x1d, e.pub), Hello(e.rnd, e.sni, 0x17, e.pub256))
  }

  /** The transcript of section 4.4.1 of RFC 8446: the first hello and the server's messages; after a
      HelloRetryRequest, a message holding the first hello's hash, the request, the second hello and the rest. */
  ghost function Spoken(y: Client, retried: bool, msgs: seq<seq<u8>>): seq<u8>
    requires retried ==> msgs != []
  {
    if !retried then y.first + Flat(msgs)
    else [254, 0, 0, 32] + y.hash(y.first) + msgs[0] + y.second + Flat(msgs[1..])
  }

  lemma SpokenSnoc(y: Client, retried: bool, msgs: seq<seq<u8>>, x: seq<u8>)
    requires retried ==> msgs != []
    ensures Spoken(y, retried, msgs + [x]) == Spoken(y, retried, msgs) + x
  {
    FlatSnoc(msgs, x);
    if retried {
      FlatSnoc(msgs[1..], x);
      assert (msgs + [x])[1..] == msgs[1..] + [x];
    }
  }

  /** The bytes so far of the message being read; those of a Finished wait. */
  function Pending(x: seq<u8>): seq<u8>
  {
    if x == [] || x[0] == HS_FINISHED then [] else x
  }

  /** The server's messages, and the client's empty Certificate once it is sent. */
  ghost function Said(y: Client, p: Phase, f: Flags, msgs: seq<seq<u8>>): seq<u8>
    requires f.hrrDone ==> msgs != []
  {
    Spoken(y, f.hrrDone, msgs) + if Rank(p) >= 3 then EmptyCertificate(f) else []
  }

  /** The transcript is what has been said and the message being read. */
  ghost predicate Spoke(y: Client, p: Phase, f: Flags, transcript: seq<u8>, msgs: seq<seq<u8>>, x: seq<u8>)
  {
    && (f.hrrDone ==> msgs != []) && (p == WaitSh ==> |msgs| + 1 == Hellos(f))
    && transcript == Said(y, p, f, msgs) + Pending(x)
  }

  /** The number a message's header has given so far. */
  function LengthSoFar(x: seq<u8>): nat
  {
    if |x| <= 1 then 0
    else if |x| == 2 then x[1]
    else if |x| == 3 then x[1] as nat * 0x100 + x[2]
    else Length3(x[1..4])
  }

  /** x is what has been read of the message. */
  ghost predicate Framed(m: Message, x: seq<u8>)
  {
    |x| == m.pos && (x != [] ==> x[0] == m.kind && m.len == LengthSoFar(x))
  }

  /** The buffer with a message read over it: a buffered one leaves its body at the start, a Finished its header at the
      end. */
  function Over(buf: MsgBuffer, x: seq<u8>): MsgBuffer
  {
    if x == [] || x[0] == HS_CERTIFICATE then buf
    else if x[0] == HS_FINISHED then var n := if |x| <= 4 then |x| else 4; buf[..MSG_MAX - 4] + x[..n] + buf[MSG_MAX - 4 + n..]
    else if 4 <= |x| <= 4 + MSG_MAX then x[4..] + buf[|x| - 4..]
    else buf
  }

  function Written(msgs: seq<seq<u8>>): MsgBuffer
  {
    if msgs == [] then Zeros(MSG_MAX) else Over(Written(msgs[..|msgs| - 1]), msgs[|msgs| - 1])
  }

  lemma WrittenSnoc(msgs: seq<seq<u8>>, x: seq<u8>)
    ensures Written(msgs + [x]) == Over(Written(msgs), x)
  {
    assert (msgs + [x])[..|msgs + [x]| - 1] == msgs;
  }

  /** The bodies are where they belong. */
  ghost predicate Stored(m: Message, msgs: seq<seq<u8>>, x: seq<u8>)
  {
    && m.buf == Over(Written(msgs), x)
    && (4 <= |x| <= 36 && x[0] == HS_FINISHED ==> m.fin[..|x| - 4] == x[4..])
  }

  /** The c-th message is the first CertificateVerify. */
  ghost predicate FirstVerify(msgs: seq<seq<u8>>, c: nat)
  {
    && c < |msgs| && IsMessage(msgs[c]) && msgs[c][0] == HS_CERT_VERIFY
    && forall i :: 0 <= i < c ==> IsMessage(msgs[i]) && msgs[i][0] != HS_CERT_VERIFY
  }

  /** What is signed is everything before the first CertificateVerify. */
  ghost predicate Vouched(y: Client, p: Phase, f: Flags, hashToCv: seq<u8>, msgs: seq<seq<u8>>, x: seq<u8>, c: nat)
    requires f.hrrDone ==> msgs != []
  {
    if f.cvSeen then
      FirstVerify(msgs, c) && c >= Hellos(f) && hashToCv == y.hash(Spoken(y, f.hrrDone, msgs[..c]))
    else
      && (forall i :: 0 <= i < |msgs| ==> IsMessage(msgs[i]) && msgs[i][0] != HS_CERT_VERIFY)
      && (Rank(p) < 3 && x != [] ==> hashToCv == y.hash(Spoken(y, f.hrrDone, msgs)))
  }

  /** The server's hellos, a retry request among them. */
  function Hellos(f: Flags): nat
  {
    if f.hrrDone then 2 else 1
  }

  /** The last hello, x, has the key share the keys come from, and it is one this client takes. */
  ghost predicate Offered(e: Env, x: seq<u8>, k: Keys)
    requires k.Keys?
  {
    |x| >= 4 && x[0] == HS_SERVER_HELLO && Wanted(e, k.group, k.share) && HelloGives(x[4..], k.group, k.share)
  }

  predicate VeilOffer(k: nat)
  {
    true
  }

  /** The same behind a veil. */
  ghost predicate OfferedBy(e: Env, x: seq<u8>, k: Keys)
  {
    forall j :: VeilOffer(j) ==> k.Keys? && Offered(e, x, k)
  }

  /** The handshake keys come from the hellos, the application keys from everything up to the server's Finished, which
      is the last message and the one for everything before it. */
  ghost predicate Derived(e: Env, y: Client, p: Phase, f: Flags, k: Secrets, msgs: seq<seq<u8>>)
  {
    && (Rank(p) < 3 ==> k.master == [])
    && (2 <= Rank(p) <= 4 ==>
          && |msgs| >= Hellos(f) && k.keys.Keys? && k.keys.hash == y.hash(Spoken(y, f.hrrDone, msgs[..Hellos(f)]))
          && OfferedBy(e, msgs[Hellos(f) - 1], k.keys))
    && (3 <= Rank(p) <= 4 ==>
          && |msgs| > Hellos(f) && k.master == k.hashToSfin == y.hash(Spoken(y, f.hrrDone, msgs))
          && var n := |msgs| - 1;
             msgs[n] == FINISHED_HEADER + e.finished(k.keys, true, y.hash(Spoken(y, f.hrrDone, msgs[..n]))))
  }

  /** A handshake that has been told whole messages, the c-th the first CertificateVerify, and x of the next one. */
  ghost predicate Told(e: Env, y: Client, h: Hs, msgs: seq<seq<u8>>, x: seq<u8>, c: nat)
  {
    && y.hash == e.hash && 1 <= Rank(h.phase) <= 4 && Whole(msgs) && Framed(h.m, x) && Stored(h.m, msgs, x)
    && Spoke(y, h.phase, h.f, h.k.transcript, msgs, x) && Vouched(y, h.phase, h.f, h.k.hashToCv, msgs, x, c)
    && Derived(e, y, h.phase, h.f, h.k, msgs)
  }

  // ---- one byte ------------------------------------------------------------------------------------------------

  lemma HeaderFrames(e: Env, h: Hs, msgs: seq<seq<u8>>, x: seq<u8>, b: u8)
    requires h.m.pos < 4 && Framed(h.m, x) && Stored(h.m, msgs, x)
    ensures Framed(Header(e, h, b).m, x + [b]) && Stored(Header(e, h, b).m, msgs, x + [b])
  {
  }

  /** One more byte of a message goes on to what was said, or waits. */
  lemma PendingSnoc(said: seq<u8>, x: seq<u8>, b: u8)
    ensures said + Pending(x + [b]) == if (x + [b])[0] == HS_FINISHED then said + Pending(x) else said + Pending(x) + [b]
  {
    if (x + [b])[0] != HS_FINISHED {
      assert Pending(x + [b]) == Pending(x) + [b];
    }
  }

  lemma HeaderSpeaks(e: Env, y: Client, h: Hs, msgs: seq<seq<u8>>, x: seq<u8>, b: u8)
    requires h.m.pos < 4 && Framed(h.m, x) && Spoke(y, h.phase, h.f, h.k.transcript, msgs, x)
    ensures Spoke(y, h.phase, h.f, Header(e, h, b).k.transcript, msgs, x + [b])
  {
    PendingSnoc(Said(y, h.phase, h.f, msgs), x, b);
  }

  lemma HeaderVouches(e: Env, y: Client, h: Hs, msgs: seq<seq<u8>>, x: seq<u8>, b: u8, c: nat)
    requires h.m.pos < 4 && Framed(h.m, x) && Rank(h.phase) <= 4 && y.hash == e.hash
    requires Spoke(y, h.phase, h.f, h.k.transcript, msgs, x) && Vouched(y, h.phase, h.f, h.k.hashToCv, msgs, x, c)
    ensures Vouched(y, h.phase, h.f, Header(e, h, b).k.hashToCv, msgs, x + [b], c)
  {
    if x == [] && Rank(h.phase) < 3 {
      assert Said(y, h.phase, h.f, msgs) + Pending(x) == Spoken(y, h.f.hrrDone, msgs);
    }
  }

  lemma HeaderTold(e: Env, y: Client, h: Hs, msgs: seq<seq<u8>>, x: seq<u8>, c: nat, b: u8)
    requires Told(e, y, h, msgs, x, c) && h.m.pos < 4
    ensures Told(e, y, Header(e, h, b), msgs, x + [b], c)
  {
    HeaderFrames(e, h, msgs, x, b);
    HeaderSpeaks(e, y, h, msgs, x, b);
    HeaderVouches(e, y, h, msgs, x, b, c);
  }

  lemma BodyFrames(cap: nat, m: Message, msgs: seq<seq<u8>>, x: seq<u8>, b: u8)
    requires BodyOk(m) && 4 <= m.pos < 4 + m.len && Framed(m, x) && Stored(m, msgs, x)
    ensures Framed(Read(cap, m, [b]), x + [b]) && Stored(Read(cap, m, [b]), msgs, x + [b])
  {
    assert (x + [b])[1..4] == x[1..4];
    BodyHeld(cap, m, msgs, x, b);
  }

  lemma BodyHeld(cap: nat, m: Message, msgs: seq<seq<u8>>, x: seq<u8>, b: u8)
    requires BodyOk(m) && 4 <= m.pos < 4 + m.len && Framed(m, x) && Stored(m, msgs, x)
    ensures Stored(Read(cap, m, [b]), msgs, x + [b])
  {
    var r := Read(cap, m, [b]);
    if m.whole == Buffered {
      assert r.buf == (x + [b])[4..] + Written(msgs)[|x| + 1 - 4..];
    }
  }

  lemma BodySpeaks(e: Env, y: Client, h: Hs, msgs: seq<seq<u8>>, x: seq<u8>, b: u8)
    requires BodyOk(h.m) && 4 <= h.m.pos < 4 + h.m.len && Framed(h.m, x)
    requires Spoke(y, h.phase, h.f, h.k.transcript, msgs, x)
    ensures Spoke(y, h.phase, h.f, Hashed(h.k, h.m.kind, [b]).transcript, msgs, x + [b])
  {
    PendingSnoc(Said(y, h.phase, h.f, msgs), x, b);
  }

  lemma BodyTold(e: Env, y: Client, h: Hs, msgs: seq<seq<u8>>, x: seq<u8>, c: nat, b: u8)
    requires Told(e, y, h, msgs, x, c) && BodyOk(h.m) && 4 <= h.m.pos < 4 + h.m.len
    requires Body(e, h, [b]).phase != Failed
    ensures Told(e, y, Body(e, h, [b]), msgs, x + [b], c)
  {
    BodyFrames(e.certCap, h.m, msgs, x, b);
    BodySpeaks(e, y, h, msgs, x, b);
  }

  // ---- the end of a message ------------------------------------------------------------------------------------

  lemma EndFrames(m: Message, msgs: seq<seq<u8>>, x: seq<u8>)
    requires Stored(m, msgs, x)
    ensures Framed(m.(pos := 0), []) && Stored(m.(pos := 0), msgs + [x], [])
  {
    WrittenSnoc(msgs, x);
  }

  /** A message that is neither a hello nor a Finished: the handshake goes on, with other flags g. */
  lemma TakenTold(e: Env, y: Client, h: Hs, g: Flags, msgs: seq<seq<u8>>, x: seq<u8>, c: nat) returns (d: nat)
    requires Told(e, y, h, msgs, x, c) && Taken(x) && h.phase == WaitHs && x[0] != HS_FINISHED
    requires g.hrrDone == h.f.hrrDone && g.cvSeen == (h.f.cvSeen || x[0] == HS_CERT_VERIFY)
    ensures Told(e, y, h.(f := g, m := h.m.(pos := 0)), msgs + [x], [], d)
  {
    d := if h.f.cvSeen then c else |msgs|;
    EndFrames(h.m, msgs, x);
    TakenVouched(e, y, h, g, msgs, x, c, d);
    TakenSpeaks(y, h.f, g, h.k.transcript, msgs, x);
    TakenDerived(e, y, h.f, g, h.k, msgs, x);
  }

  lemma TakenDerived(e: Env, y: Client, f: Flags, g: Flags, k: Secrets, msgs: seq<seq<u8>>, x: seq<u8>)
    requires Derived(e, y, WaitHs, f, k, msgs) && g.hrrDone == f.hrrDone
    ensures Derived(e, y, WaitHs, g, k, msgs + [x])
  {
    assert (msgs + [x])[..Hellos(g)] == msgs[..Hellos(g)];
    assert (msgs + [x])[Hellos(g) - 1] == msgs[Hellos(g) - 1];
  }

  lemma TakenSpeaks(y: Client, f: Flags, g: Flags, transcript: seq<u8>, msgs: seq<seq<u8>>, x: seq<u8>)
    requires Spoke(y, WaitHs, f, transcript, msgs, x) && g.hrrDone == f.hrrDone && x != [] && x[0] != HS_FINISHED
    ensures Spoke(y, WaitHs, g, transcript, msgs + [x], [])
  {
    SpokenSnoc(y, f.hrrDone, msgs, x);
    assert Said(y, WaitHs, g, msgs + [x]) + Pending([]) == Said(y, WaitHs, f, msgs) + Pending(x);
  }

  lemma TakenVouched(e: Env, y: Client, h: Hs, g: Flags, msgs: seq<seq<u8>>, x: seq<u8>, c: nat, d: nat)
    requires Told(e, y, h, msgs, x, c) && Taken(x) && h.phase == WaitHs
    requires g.hrrDone == h.f.hrrDone && g.cvSeen == (h.f.cvSeen || x[0] == HS_CERT_VERIFY)
    requires d == if h.f.cvSeen then c else |msgs|
    ensures Vouched(y, WaitHs, g, h.k.hashToCv, msgs + [x], [], d)
  {
    if g.cvSeen {
      assert (msgs + [x])[..d] == msgs[..d];
      assert msgs[..|msgs|] == msgs;
    }
  }

  /** The ServerHello: the handshake keys. */
  lemma KeysTold(e: Env, y: Client, h: Hs, group: u16, share: seq<u8>, msgs: seq<seq<u8>>, x: seq<u8>, c: nat)
    requires Told(e, y, h, msgs, x, c) && Taken(x) && h.phase == WaitSh && x[0] == HS_SERVER_HELLO && !h.f.cvSeen
    requires OfferedBy(e, x, Keys(group, share, e.hash(h.k.transcript)))
    ensures var r := KeysUp(e, h, group, share); Told(e, y, r.(m := r.m.(pos := 0)), msgs + [x], [], c)
  {
    EndFrames(h.m, msgs, x);
    SpokenSnoc(y, h.f.hrrDone, msgs, x);
    assert Said(y, WaitHs, h.f, msgs + [x]) + Pending([]) == Said(y, WaitSh, h.f, msgs) + Pending(x);
    assert (msgs + [x])[..Hellos(h.f)] == msgs + [x];
    assert h.k.transcript == Spoken(y, h.f.hrrDone, msgs + [x]);
  }

  /** A header's three bytes are its length's. */
  lemma LengthBytes(x: seq<u8>)
    requires IsMessage(x)
    ensures var n := |x| - 4; x == [x[0], n / 0x1_0000 % 0x100, n / 0x100 % 0x100, n % 0x100] + x[4..]
  {
    var n := |x| - 4;
    assert n == x[1] as int * 0x1_0000 + x[2] as int * 0x100 + x[3];
    assert n / 0x100 == x[1] as int * 0x100 + x[2];
    assert n / 0x1_0000 == x[1];
  }

  /** The handshake as a retry leaves it. */
  function Again(h: Hs, transcript: seq<u8>, out: seq<u8>): Hs
  {
    h.(f := h.f.(hrrDone := true), k := h.k.(transcript := transcript), out := out, phase := WaitSh)
  }

  lemma RetryIs(e: Env, y: Client, h: Hs, m: seq<u8>, ext: Exts) returns (out: seq<u8>)
    requires y.second == Hello(e.rnd, e.sni, 0x17, e.pub256)
    ensures var r := Retry(e, h, m, ext);
            r.phase != Failed ==> !h.f.hrrDone && r == Again(h, Restarted(h.k.hashToCv, m) + y.second, out)
  {
    out := h.out + HelloRecord(y.second);
  }

  /** A HelloRetryRequest: the transcript starts again. */
  lemma AgainTold(e: Env, y: Client, h: Hs, out: seq<u8>, msgs: seq<seq<u8>>, x: seq<u8>, c: nat)
    requires Told(e, y, h, msgs, x, c) && Taken(x) && h.phase == WaitSh && x[0] == HS_SERVER_HELLO
    requires !h.f.hrrDone && !h.f.cvSeen
    ensures var r := Again(h, Restarted(h.k.hashToCv, h.m.buf[..h.m.len]) + y.second, out);
            Told(e, y, r.(m := r.m.(pos := 0)), msgs + [x], [], c)
  {
    EndFrames(h.m, msgs, x);
    assert h.m.buf[..h.m.len] == x[4..];
    RetrySpoken(y, x);
    assert msgs == [] && msgs + [x] == [x];
    assert Spoken(y, false, msgs) == y.first;
  }

  lemma RetryTold(e: Env, y: Client, h: Hs, ext: Exts, msgs: seq<seq<u8>>, x: seq<u8>, c: nat)
    requires Told(e, y, h, msgs, x, c) && Taken(x) && h.phase == WaitSh && x[0] == HS_SERVER_HELLO
    requires !h.f.cvSeen && y.second == Hello(e.rnd, e.sni, 0x17, e.pub256)
    ensures var r := Retry(e, h, h.m.buf[..h.m.len], ext);
            r.phase != Failed ==> Told(e, y, r.(m := r.m.(pos := 0)), msgs + [x], [], c)
  {
    var out := RetryIs(e, y, h, h.m.buf[..h.m.len], ext);
    if !h.f.hrrDone {
      AgainTold(e, y, h, out, msgs, x, c);
    }
  }

  lemma RetrySpoken(y: Client, x: seq<u8>)
    requires IsMessage(x) && x[0] == HS_SERVER_HELLO
    ensures Spoken(y, true, [x])
         == Restarted(y.hash(y.first), x[4..]) + y.second
  {
    LengthBytes(x);
    assert [x][1..] == [];
  }

  /** The server's Finished. */
  lemma FinishedTold(e: Env, y: Client, h: Hs, msgs: seq<seq<u8>>, x: seq<u8>, c: nat)
    requires Told(e, y, h, msgs, x, c) && Taken(x) && h.phase == WaitHs && x[0] == HS_FINISHED
    ensures var r := ServerFinished(e, h);
            r.phase != Failed ==> Told(e, y, r.(m := r.m.(pos := 0)), msgs + [x], [], c)
  {
    var r := ServerFinished(e, h);
    if r.phase != Failed {
      EndFrames(h.m, msgs, x);
      FinishedVouched(e, y, h, msgs, x, c);
      FinishedSaid(e, y, h, r, msgs, x, c);
      FinishedDerived(e, y, h, r, msgs, x, c);
    }
  }

  lemma FinishedSaid(e: Env, y: Client, h: Hs, r: Hs, msgs: seq<seq<u8>>, x: seq<u8>, c: nat)
    requires Told(e, y, h, msgs, x, c) && Taken(x) && h.phase == WaitHs && x[0] == HS_FINISHED
    requires r == ServerFinished(e, h) && r.phase != Failed
    ensures Spoke(y, r.phase, r.f, r.k.transcript, msgs + [x], [])
  {
    FinishedSpeaks(e, y, h, msgs, x, c);
    assert r.k.transcript == h.k.transcript + FINISHED_HEADER + h.m.fin + EmptyCertificate(h.f);
    assert Said(y, Verifying, r.f, msgs + [x]) + Pending([]) == Said(y, Verifying, r.f, msgs + [x]);
  }

  lemma FinishedSpeaks(e: Env, y: Client, h: Hs, msgs: seq<seq<u8>>, x: seq<u8>, c: nat)
    requires Told(e, y, h, msgs, x, c) && Taken(x) && h.phase == WaitHs && x[0] == HS_FINISHED
    ensures x == FINISHED_HEADER + h.m.fin && h.k.transcript == Spoken(y, h.f.hrrDone, msgs)
    ensures Spoken(y, h.f.hrrDone, msgs + [x]) == h.k.transcript + FINISHED_HEADER + h.m.fin
  {
    LengthBytes(x);
    SpokenSnoc(y, h.f.hrrDone, msgs, x);
    assert x[4..] == h.m.fin;
  }

  lemma FinishedDerived(e: Env, y: Client, h: Hs, r: Hs, msgs: seq<seq<u8>>, x: seq<u8>, c: nat)
    requires Told(e, y, h, msgs, x, c) && Taken(x) && h.phase == WaitHs && x[0] == HS_FINISHED
    requires r == ServerFinished(e, h) && r.phase != Failed
    ensures Derived(e, y, r.phase, r.f, r.k, msgs + [x])
  {
    FinishedSpeaks(e, y, h, msgs, x, c);
    assert (msgs + [x])[..Hellos(h.f)] == msgs[..Hellos(h.f)];
    assert (msgs + [x])[..|msgs|] == msgs;
  }

  lemma FinishedVouched(e: Env, y: Client, h: Hs, msgs: seq<seq<u8>>, x: seq<u8>, c: nat)
    requires Told(e, y, h, msgs, x, c) && Taken(x) && h.phase == WaitHs && x[0] == HS_FINISHED
    ensures Vouched(y, Verifying, h.f, h.k.hashToCv, msgs + [x], [], c)
  {
    if h.f.cvSeen {
      assert (msgs + [x])[..c] == msgs[..c];
    }
  }

  /** The end of any message. */
  lemma EndTold(e: Env, y: Client, h: Hs, msgs: seq<seq<u8>>, x: seq<u8>, c: nat) returns (d: nat)
    requires Told(e, y, h, msgs, x, c) && Taken(x) && h.m.pos == 4 + h.m.len && BodyOk(h.m)
    requires Expected(h.phase, h.m.kind) && y == ClientOf(e) && (h.phase == WaitSh ==> !h.f.cvSeen)
    ensures Finish(e, h).phase != Failed ==> Told(e, y, Finish(e, h), msgs + [x], [], d)
  {
    d := c;
    if h.m.kind == HS_SERVER_HELLO {
      HelloTold(e, y, h, msgs, x, c);
    } else if h.m.kind == HS_FINISHED {
      FinishedTold(e, y, h, msgs, x, c);
    } else if MsgEnd(e, h).phase != Failed {
      d := TakenTold(e, y, h, MsgEnd(e, h).f, msgs, x, c);
    }
  }

  lemma HelloTold(e: Env, y: Client, h: Hs, msgs: seq<seq<u8>>, x: seq<u8>, c: nat)
    requires Told(e, y, h, msgs, x, c) && Taken(x) && h.phase == WaitSh && x[0] == HS_SERVER_HELLO
    requires h.m.len == |x| - 4 && y == ClientOf(e) && !h.f.cvSeen
    ensures var r := ServerHello(e, h);
            r.phase != Failed ==> Told(e, y, r.(m := r.m.(pos := 0)), msgs + [x], [], c)
  {
    var ext, g, share := ServerHelloEnds(e, h);
    assert h.m.buf[..h.m.len] == x[4..];
    if ServerHello(e, h).phase == WaitHs {
      HelloGave(e, h);
      var k := ServerHello(e, h).k.keys;
      assert OfferedBy(e, x, k);
      KeysTold(e, y, h, k.group, k.share, msgs, x, c);
    } else {
      RetryTold(e, y, h, ext, msgs, x, c);
    }
  }

  // ---- over a run ----------------------------------------------------------------------------------------------

  /** What a byte does before its message, if it ends one, is taken. */
  function Stepped(e: Env, h: Hs, b: u8): Hs
    requires HsOk(h) && h.phase != Failed
  {
    if h.m.pos < 4 then var h1 := Header(e, h, b); if h1.m.pos < 4 then h1 else MsgBegin(h1)
    else Body(e, h, [b])
  }

  predicate EndsMessage(m: Message)
  {
    m.pos >= 4 && m.pos == 4 + m.len
  }

  lemma ByteIs(e: Env, h: Hs, b: u8)
    requires HsInv(e, h) && !Terminal(h.phase)
    ensures var h1 := Stepped(e, h, b);
            && (h1.phase != Failed && h1.m.pos >= 4 ==> BodyOk(h1.m) && Expected(h1.phase, h1.m.kind))
            && HsByte(e, h, b) == if EndsMessage(h1.m) then Finish(e, h1) else h1
  {
  }

  lemma BeginTold(e: Env, y: Client, h: Hs, msgs: seq<seq<u8>>, x: seq<u8>, c: nat)
    requires Told(e, y, h, msgs, x, c) && MsgBegin(h).phase != Failed
    ensures Told(e, y, MsgBegin(h), msgs, x, c) && MsgBegin(h).f == h.f && MsgBegin(h).phase == h.phase
  {
    var r := MsgBegin(h);
    assert r.k == h.k && r.f == h.f && r.m == h.m.(whole := r.m.whole, cert := r.m.cert);
  }

  lemma SteppedTold(e: Env, y: Client, h: Hs, msgs: seq<seq<u8>>, x: seq<u8>, c: nat, b: u8)
    requires Told(e, y, h, msgs, x, c) && HsOk(h) && Stepped(e, h, b).phase != Failed
    ensures Told(e, y, Stepped(e, h, b), msgs, x + [b], c) && Stepped(e, h, b).f == h.f
    ensures Stepped(e, h, b).phase == h.phase
  {
    if h.m.pos < 4 {
      HeaderTold(e, y, h, msgs, x, c, b);
      if h.m.pos == 3 {
        BeginTold(e, y, Header(e, h, b), msgs, x + [b], c);
      }
    } else {
      BodyTold(e, y, h, msgs, x, c, b);
    }
  }

  /** The bytes are these messages and x of the next. */
  ghost predicate Parsed(told: seq<u8>, msgs: seq<seq<u8>>, x: seq<u8>)
  {
    told == Flat(msgs) + x
  }

  lemma ParsedMore(told: seq<u8>, msgs: seq<seq<u8>>, x: seq<u8>, b: u8)
    requires Parsed(told, msgs, x)
    ensures Parsed(told + [b], msgs, x + [b])
  {
  }

  lemma ParsedEnd(told: seq<u8>, msgs: seq<seq<u8>>, x: seq<u8>)
    requires Parsed(told, msgs, x)
    ensures Parsed(told, msgs + [x], [])
  {
    FlatSnoc(msgs, x);
  }

  /** The messages of a handshake that has been told x of the next, and now b. */
  lemma HsByteTold(e: Env, y: Client, h: Hs, told: seq<u8>, msgs: seq<seq<u8>>, x: seq<u8>, c: nat, b: u8)
    returns (msgs': seq<seq<u8>>, x': seq<u8>, d: nat)
    requires Told(e, y, h, msgs, x, c) && Parsed(told, msgs, x) && HsInv(e, h) && y == ClientOf(e)
    ensures HsByte(e, h, b).phase != Failed ==> Told(e, y, HsByte(e, h, b), msgs', x', d)
    ensures Parsed(told + [b], msgs', x')
  {
    ByteIs(e, h, b);
    ParsedMore(told, msgs, x, b);
    var h1 := Stepped(e, h, b);
    if h1.phase == Failed {
      msgs', x', d := msgs, x + [b], c;
    } else {
      SteppedTold(e, y, h, msgs, x, c, b);
      msgs', x', d := SteppedEnds(e, y, h1, told + [b], msgs, x + [b], c);
    }
  }

  lemma SteppedEnds(e: Env, y: Client, h: Hs, told: seq<u8>, msgs: seq<seq<u8>>, x: seq<u8>, c: nat)
    returns (msgs': seq<seq<u8>>, x': seq<u8>, d: nat)
    requires Told(e, y, h, msgs, x, c) && Parsed(told, msgs, x) && y == ClientOf(e)
    requires h.m.pos >= 4 ==> BodyOk(h.m) && Expected(h.phase, h.m.kind)
    ensures var r := if EndsMessage(h.m) then Finish(e, h) else h;
            r.phase != Failed ==> Told(e, y, r, msgs', x', d)
    ensures Parsed(told, msgs', x')
  {
    msgs', x', d := msgs, x, c;
    if EndsMessage(h.m) {
      FramedMessage(h.m, x);
      d := EndTold(e, y, h, msgs, x, c);
      ParsedEnd(told, msgs, x);
      msgs', x' := msgs + [x], [];
    }
  }

  lemma FramedMessage(m: Message, x: seq<u8>)
    requires Framed(m, x) && EndsMessage(m) && BodyOk(m)
    ensures Taken(x)
  {
  }

  /** The record layer and the calls of tls.h change the handshake no further than this. */
  ghost predicate Carried(a: Hs, b: Hs)
  {
    || Terminal(b.phase)
    || (&& b.m == a.m && b.k == a.k.(wrCount := b.k.wrCount)
        && b.f == a.f.(sigState := b.f.sigState, rdSwitch := b.f.rdSwitch)
        && (b.phase == a.phase || (a.phase == Verifying && b.phase == Connected)))
  }

  lemma EncCarries(e: Env, t: Conn, b: u8)
    requires InRecord(t, 1) && Encrypted(t)
    ensures Carried(HsRun(e, t.hs, Heard(e, t, Byte(b))), Ended(e, EncByte(e, t, b)).hs)
  {
    if t.rec.pos + 1 < t.rec.len - 16 && t.hs.phase != Connected {
      EncByteKeeps(e, t, b);
      assert Ended(e, EncByte(e, t, b)) == EncByte(e, t, b);
    } else {
      assert EncByte(e, t, b).hs == t.hs;
      EndCarries(e, EncByte(e, t, b));
    }
  }

  lemma JudgedIs(h: Hs, r: Rec, ok: bool)
    requires HsOk(h) && h.phase != Failed
    ensures Terminal(Judged(h, r, ok).phase) || Judged(h, r, ok) == h
  {
  }

  lemma EndCarries(e: Env, t: Conn)
    requires HsOk(t.hs) && t.rec.pos <= t.rec.len && |t.rec.hdr| <= 5 && (Encrypted(t) ==> t.rec.len >= 17)
    ensures Carried(t.hs, Ended(e, t).hs)
  {
    if t.hs.phase != Failed && t.rec.pos == t.rec.len && Encrypted(t) {
      var u := Switched(t.(rec := t.rec.(hdr := [])));
      assert u.hs == t.hs.(f := t.hs.f.(rdSwitch := false));
      JudgedIs(u.hs, t.rec, e.check(t.rec.openKey, t.rec.taken, t.rec.tag));
      assert Ended(e, t).hs == Judged(u.hs, t.rec, e.check(t.rec.openKey, t.rec.taken, t.rec.tag));
    }
  }

  lemma PlainCarries(e: Env, t: Conn, b: u8)
    requires InRecord(t, 1) && !Encrypted(t)
    ensures Carried(HsRun(e, t.hs, Heard(e, t, Byte(b))), Ended(e, PlainByte(e, t, b)).hs)
  {
    assert HsRun(e, t.hs, [b]) == HsByte(e, t.hs, b);
    var u := PlainByte(e, t, b);
    PlainLeaves(e, t, b);
    if u.hs.phase != Failed && u.rec.pos == u.rec.len {
      assert Ended(e, u) == EndRecord(e, u);
      EndCarries(e, u);
    }
  }

  lemma PlainLeaves(e: Env, t: Conn, b: u8)
    requires InRecord(t, 1) && !Encrypted(t)
    ensures var h := PlainByte(e, t, b).hs;
            Terminal(h.phase) || h == if t.rec.kind == REC_HANDSHAKE then HsByte(e, t.hs, b) else t.hs
  {
  }

  lemma StepCarries(e: Env, t: Conn, s: Step)
    requires ConnOk(t)
    ensures Carried(HsRun(e, t.hs, Heard(e, t, s)), Do(e, t, s).hs)
  {
    if !s.Byte? {
      CallCarries(e, t, s);
    } else if InRecord(t, 1) {
      if Encrypted(t) {
        EncCarries(e, t, s.b);
      } else {
        PlainCarries(e, t, s.b);
      }
    }
  }

  lemma CallCarries(e: Env, t: Conn, s: Step)
    requires ConnOk(t) && !s.Byte?
    ensures Carried(t.hs, Do(e, t, s).hs)
  {
    if s.CutAlert? && Do(e, t, s) != t {
      EndCarries(e, AlertPiece(t, s.p));
    }
  }

  lemma CarriedDerived(e: Env, y: Client, a: Hs, b: Hs, msgs: seq<seq<u8>>)
    requires Derived(e, y, a.phase, a.f, a.k, msgs) && Carried(a, b) && !Terminal(b.phase)
    ensures Derived(e, y, b.phase, b.f, b.k, msgs)
  {
    assert Hellos(b.f) == Hellos(a.f) && b.k.keys == a.k.keys;
    assert b.phase == a.phase || (Rank(a.phase) == 3 && Rank(b.phase) == 4);
  }

  lemma CarriedSpoke(y: Client, a: Hs, b: Hs, msgs: seq<seq<u8>>, x: seq<u8>, c: nat)
    requires Spoke(y, a.phase, a.f, a.k.transcript, msgs, x) && Vouched(y, a.phase, a.f, a.k.hashToCv, msgs, x, c)
    requires Carried(a, b) && !Terminal(b.phase)
    ensures Spoke(y, b.phase, b.f, b.k.transcript, msgs, x) && Vouched(y, b.phase, b.f, b.k.hashToCv, msgs, x, c)
  {
  }

  lemma CarriedTold(e: Env, y: Client, a: Hs, b: Hs, msgs: seq<seq<u8>>, x: seq<u8>, c: nat)
    requires Told(e, y, a, msgs, x, c) && Carried(a, b) && !Terminal(b.phase)
    ensures Told(e, y, b, msgs, x, c)
  {
    CarriedDerived(e, y, a, b, msgs);
    CarriedSpoke(y, a, b, msgs, x, c);
  }

  lemma StepTold(e: Env, y: Client, t: Conn, s: Step, told: seq<u8>, msgs: seq<seq<u8>>, x: seq<u8>, c: nat)
    returns (msgs': seq<seq<u8>>, x': seq<u8>, d: nat)
    requires Told(e, y, t.hs, msgs, x, c) && Parsed(told, msgs, x) && ConnOk(t) && HsInv(e, t.hs) && y == ClientOf(e)
    ensures !Terminal(Do(e, t, s).hs.phase) ==> Told(e, y, Do(e, t, s).hs, msgs', x', d)
    ensures Parsed(told + Heard(e, t, s), msgs', x')
  {
    StepCarries(e, t, s);
    var p := Heard(e, t, s);
    if p == [] {
      assert told + p == told;
      msgs', x', d := msgs, x, c;
    } else {
      assert p == [p[0]] && HsRun(e, t.hs, p) == HsByte(e, t.hs, p[0]);
      msgs', x', d := HsByteTold(e, y, t.hs, told, msgs, x, c, p[0]);
    }
    if !Terminal(Do(e, t, s).hs.phase) {
      CarriedTold(e, y, HsRun(e, t.hs, p), Do(e, t, s).hs, msgs', x', d);
    }
  }

  /** What a run has been told, as long as it goes on. */
  ghost predicate RunTold(e: Env, s: seq<Step>, msgs: seq<seq<u8>>, x: seq<u8>, c: nat)
  {
    var h := After(e, s).hs;
    1 <= Rank(h.phase) <= 4 ==> Parsed(History(e, s), msgs, x) && Told(e, ClientOf(e), h, msgs, x, c)
  }

  lemma StartTold(e: Env, y: Client)
    requires y.first == Hello(e.rnd, e.sni, 0x1d, e.pub) && y.hash == e.hash
    ensures Start(e).phase == WaitSh ==> Told(e, y, Start(e), [], [], 0)
    ensures Start(e).phase == WaitSh || Start(e).phase == Idle
  {
  }

  /** Every run that has not ended has been told whole messages in order, and everything it has hashed is the
      transcript of these. */
  lemma {:induction false} Transcript(e: Env, s: seq<Step>) returns (msgs: seq<seq<u8>>, x: seq<u8>, c: nat)
    ensures RunTold(e, s, msgs, x, c)
    decreases |s|
  {
    if s == [] {
      msgs, x, c := [], [], 0;
      StartTold(e, ClientOf(e));
    } else {
      var q := s[..|s| - 1];
      msgs, x, c := Transcript(e, q);
      msgs, x, c := TranscriptNext(e, s, q, msgs, x, c);
    }
  }

  /** A handshake that goes on was going on. */
  lemma WentOn(e: Env, t: Conn, s: Step)
    requires ConnOk(t) && HsInv(e, t.hs) && 1 <= Rank(Do(e, t, s).hs.phase) <= 4
    ensures 1 <= Rank(t.hs.phase) <= 4
  {
    DoLegal(e, t, s);
  }

  lemma TranscriptNext(e: Env, s: seq<Step>, q: seq<Step>, msgs: seq<seq<u8>>, x: seq<u8>, c: nat)
    returns (msgs': seq<seq<u8>>, x': seq<u8>, d: nat)
    requires s != [] && q == s[..|s| - 1] && RunTold(e, q, msgs, x, c)
    ensures RunTold(e, s, msgs', x', d)
  {
    AfterInv(e, q);
    AfterLast(e, s);
    msgs', x', d := msgs, x, c;
    if 1 <= Rank(After(e, s).hs.phase) <= 4 {
      WentOn(e, After(e, q), s[|s| - 1]);
      msgs', x', d := StepTold(e, ClientOf(e), After(e, q), s[|s| - 1], History(e, q), msgs, x, c);
    }
  }

  // ---- what is checked -----------------------------------------------------------------------------------------

  /** Once the server's Finished is accepted: the handshake bytes are whole messages, the last of which is that
      Finished.  Its value is the one for the hash of all messages before it, the handshake keys are derived from the
      hellos and from the key share in the last of them, the application keys from all messages, and what is signed is
      everything before the first CertificateVerify. */
  lemma Hashes(e: Env, s: seq<Step>) returns (msgs: seq<seq<u8>>, x: seq<u8>, c: nat)
    requires 3 <= Rank(After(e, s).hs.phase) <= 4
    ensures History(e, s) == Flat(msgs) + x && |x| < 4 && Whole(msgs)
    ensures var y, h, n := ClientOf(e), After(e, s).hs, |msgs| - 1;
      && n >= Hellos(h.f)
      && h.k.keys.Keys? && h.k.keys.hash == e.hash(Spoken(y, h.f.hrrDone, msgs[..Hellos(h.f)]))
      && Offered(e, msgs[Hellos(h.f) - 1], h.k.keys)
      && msgs[n] == FINISHED_HEADER + e.finished(h.k.keys, true, e.hash(Spoken(y, h.f.hrrDone, msgs[..n])))
      && h.k.master == e.hash(Spoken(y, h.f.hrrDone, msgs))
      && (h.f.cvSeen ==>
            && FirstVerify(msgs, c) && Hellos(h.f) <= c < n
            && h.k.hashToCv == e.hash(Spoken(y, h.f.hrrDone, msgs[..c])))
      && h.m.buf == Over(Written(msgs), x)
  {
    msgs, x, c := Transcript(e, s);
    AfterInv(e, s);
    Unveil(e, msgs[Hellos(After(e, s).hs.f) - 1], After(e, s).hs.k.keys);
  }

  lemma Unveil(e: Env, x: seq<u8>, k: Keys)
    requires OfferedBy(e, x, k)
    ensures k.Keys? && Offered(e, x, k)
  {
    assert VeilOffer(0);
  }

  /** The kit does not find the signature wrong: over what was said before message c, and in the buffer these messages
      leave. */
  ghost predicate Checked(e: Env, y: Client, h: Hs, msgs: seq<seq<u8>>, x: seq<u8>, c: nat)
  {
    && FirstVerify(msgs, c) && (h.f.hrrDone ==> c > 0)
    && var buf := Over(Written(msgs), x);
       e.verify(h.m.cert.store, h.f.sigScheme, e.hash(Spoken(y, h.f.hrrDone, msgs[..c])), buf, At16(buf, 2)) != Wrong
  }

  /** So a connected client has checked, at some step k, the signature over everything said before the first
      CertificateVerify. */
  lemma SignedOver(e: Env, s: seq<Step>) returns (k: nat, msgs: seq<seq<u8>>, x: seq<u8>, c: nat)
    requires After(e, s).hs.phase == Connected
    ensures k < |s| && s[k] == VerifyStep && History(e, s[..k]) == Flat(msgs) + x
    ensures Checked(e, ClientOf(e), After(e, s[..k]).hs, msgs, x, c)
  {
    k := VerifiedOnce(e, s);
    msgs, x, c := Hashes(e, s[..k]);
  }

  lemma VerifiedOnce(e: Env, s: seq<Step>) returns (k: nat)
    requires After(e, s).hs.phase == Connected
    ensures k < |s| && s[k] == VerifyStep
    ensures var h := After(e, s[..k]).hs; h.phase == Verifying && h.f.cvSeen && Signature(e, h) != Wrong
  {
    var i, c, j;
    i, c, j, k := Handshake(e, s);
    assert s[..|s|] == s;
    assert Trace(e, s)[|s|] == After(e, s).hs;
    assert VerifiedAt(e, Trace(e, s), s, k);
  }

  ghost predicate NoVerify(msgs: seq<seq<u8>>)
  {
    forall i :: 0 <= i < |msgs| ==> IsMessage(msgs[i]) && msgs[i][0] != HS_CERT_VERIFY
  }

  /** And whenever the handshake is verifying, tls_verify completes it exactly if there was a CertificateVerify and the
      kit does not find its signature wrong; a signature the kit cannot check counts as not wrong. */
  lemma VerifyDecides(e: Env, s: seq<Step>) returns (msgs: seq<seq<u8>>, x: seq<u8>, c: nat)
    requires After(e, s).hs.phase == Verifying
    ensures History(e, s) == Flat(msgs) + x
    ensures var h, r := After(e, s).hs, After(e, s + [VerifyStep]).hs;
            if NoVerify(msgs) then r.phase == Failed && r.error == BadMessage
            else if Checked(e, ClientOf(e), h, msgs, x, c) then r.phase == Connected
            else r.phase == Failed && r.error == BadSignature
  {
    msgs, x, c := Transcript(e, s);
    AfterSnoc(e, s, VerifyStep);
    assert After(e, s + [VerifyStep]).hs == Verify(e, After(e, s).hs);
  }

  /** The message leaves the buffer alone: a Certificate, or an empty body. */
  predicate NoBody(x: seq<u8>)
  {
    Taken(x) && (x[0] == HS_CERTIFICATE || |x| == 4)
  }

  lemma {:induction false} NoneWritten(msgs: seq<seq<u8>>, c: nat, n: nat)
    requires c <= n <= |msgs| && forall i :: c <= i < n ==> NoBody(msgs[i])
    ensures Written(msgs[..n]) == Written(msgs[..c])
    decreases n
  {
    if c < n {
      NoneWritten(msgs, c, n - 1);
      assert msgs[..n] == msgs[..n - 1] + [msgs[n - 1]];
      WrittenSnoc(msgs[..n - 1], msgs[n - 1]);
      assert NoBody(msgs[n - 1]);
    }
  }

  /** The buffer's last four bytes after the Finished, when x of another message has come. */
  function Tail(x: seq<u8>): seq<u8>
    requires |x| < 4
  {
    if x != [] && x[0] == HS_FINISHED then x + FINISHED_HEADER[|x|..] else FINISHED_HEADER
  }

  lemma OverFinished(b: MsgBuffer, f: seq<u8>, w: MsgBuffer, x: seq<u8>)
    requires Taken(f) && f[0] == HS_FINISHED && |x| < 4 && w == Over(b, f)
    ensures Over(w, x) == b[..MSG_MAX - 4] + Tail(x)
  {
    LengthBytes(f);
    assert f[..4] == FINISHED_HEADER;
    assert w == b[..MSG_MAX - 4] + FINISHED_HEADER;
  }

  /** The buffer at the time of tls_verify: the bodies up to message a, and the last four bytes. */
  lemma BufferIs(msgs: seq<seq<u8>>, x: seq<u8>, a: nat)
    requires a + 1 < |msgs| && |x| < 4 && (forall i :: a < i < |msgs| - 1 ==> NoBody(msgs[i]))
    requires Taken(msgs[|msgs| - 1]) && msgs[|msgs| - 1][0] == HS_FINISHED
    ensures Over(Written(msgs), x) == Written(msgs[..a + 1])[..MSG_MAX - 4] + Tail(x)
  {
    LastAfter(msgs, a);
    OverFinished(Written(msgs[..a + 1]), msgs[|msgs| - 1], Written(msgs), x);
  }

  lemma LastAfter(msgs: seq<seq<u8>>, a: nat)
    requires a + 1 < |msgs| && (forall i :: a < i < |msgs| - 1 ==> NoBody(msgs[i]))
    ensures Written(msgs) == Over(Written(msgs[..a + 1]), msgs[|msgs| - 1])
  {
    NoneWritten(msgs, a + 1, |msgs| - 1);
    LastWritten(msgs);
  }

  lemma LastWritten(msgs: seq<seq<u8>>)
    requires msgs != []
    ensures Written(msgs) == Over(Written(msgs[..|msgs| - 1]), msgs[|msgs| - 1])
  {
  }

  /** A message with a body is in the buffer when it has ended. */
  lemma BodyWritten(msgs: seq<seq<u8>>, a: nat)
    requires a < |msgs| && Taken(msgs[a]) && msgs[a][0] != HS_FINISHED && msgs[a][0] != HS_CERTIFICATE
    ensures Written(msgs[..a + 1]) == msgs[a][4..] + Written(msgs[..a])[|msgs[a]| - 4..]
  {
    assert msgs[..a + 1] == msgs[..a] + [msgs[a]];
    WrittenSnoc(msgs[..a], msgs[a]);
  }

  /** The message verified is the one received. */
  ghost predicate Intact(buf: MsgBuffer, cv: seq<u8>)
  {
    |cv| <= MSG_MAX && buf[..|cv|] == cv
  }

  /** A CertificateVerify short enough for the headers after it, or ending as they do. */
  predicate Clear(cv: seq<u8>, x: seq<u8>)
    requires |x| < 4 && |cv| <= MSG_MAX
  {
    |cv| <= MSG_MAX - 4 || cv[MSG_MAX - 4..] == Tail(x)[..|cv| - (MSG_MAX - 4)]
  }

  lemma BodyIntact(msgs: seq<seq<u8>>, x: seq<u8>, c: nat)
    requires Whole(msgs) && FirstVerify(msgs, c) && c + 1 < |msgs| && |x| < 4
    requires msgs[|msgs| - 1][0] == HS_FINISHED && forall i :: c < i < |msgs| - 1 ==> NoBody(msgs[i])
    ensures |msgs[c]| - 4 <= MSG_MAX
    ensures Intact(Over(Written(msgs), x), msgs[c][4..]) <==> Clear(msgs[c][4..], x)
  {
    var cv, n := msgs[c][4..], MSG_MAX - 4;
    BufferIs(msgs, x, c);
    BodyWritten(msgs, c);
    var buf := Over(Written(msgs), x);
    if |cv| <= n {
      assert buf[..|cv|] == cv;
    } else {
      assert buf[..|cv|] == cv[..n] + Tail(x)[..|cv| - n];
      assert cv == cv[..n] + cv[n..];
    }
  }

  /** In every run, the CertificateVerify, message c, waits in the buffer for tls_verify.  When no later message but the
      Finished has a body that is buffered, the message verified is the one received if and only if it is at most 524
      bytes long or its last bytes are those the headers after it leave; msg_begin accepts up to 528. */
  lemma SignatureIntact(e: Env, s: seq<Step>) returns (msgs: seq<seq<u8>>, x: seq<u8>, c: nat)
    requires 3 <= Rank(After(e, s).hs.phase) <= 4 && After(e, s).hs.f.cvSeen
    ensures History(e, s) == Flat(msgs) + x && |x| < 4 && Whole(msgs) && FirstVerify(msgs, c) && |msgs[c]| - 4 <= MSG_MAX
    ensures (forall i :: c < i < |msgs| - 1 ==> NoBody(msgs[i])) ==>
              (Intact(After(e, s).hs.m.buf, msgs[c][4..]) <==> Clear(msgs[c][4..], x))
  {
    msgs, x, c := Hashes(e, s);
    assert Taken(msgs[c]);
    if forall i :: c < i < |msgs| - 1 ==> NoBody(msgs[i]) {
      BodyIntact(msgs, x, c);
    }
  }

  /** When one later message, a, has a body, it is this body that is in the buffer: a signature of at most 524 bytes is
      intact if and only if the two agree as far as both reach. */
  lemma Overwritten(msgs: seq<seq<u8>>, x: seq<u8>, c: nat, a: nat)
    requires Whole(msgs) && FirstVerify(msgs, c) && c < a < |msgs| - 1 && |x| < 4
    requires msgs[|msgs| - 1][0] == HS_FINISHED && forall i :: c < i < |msgs| - 1 && i != a ==> NoBody(msgs[i])
    requires msgs[a][0] != HS_FINISHED && msgs[a][0] != HS_CERTIFICATE
    ensures var cv, other := msgs[c][4..], msgs[a][4..];
            var m := if |other| <= |cv| then |other| else |cv|;
            |cv| <= MSG_MAX - 4 ==> (Over(Written(msgs), x)[..|cv|] == cv <==> other[..m] == cv[..m])
  {
    var cv, other := msgs[c][4..], msgs[a][4..];
    if |cv| <= MSG_MAX - 4 {
      BufferIs(msgs, x, a);
      BodyWritten(msgs, a);
      NoneWritten(msgs, c + 1, a);
      BodyWritten(msgs, c);
      OverCommon(cv, other, Written(msgs[..c]), Over(Written(msgs), x)[..|cv|]);
    }
  }

  lemma OverCommon(cv: seq<u8>, other: seq<u8>, was: MsgBuffer, now: seq<u8>)
    requires |cv| <= MSG_MAX - 4 && |other| <= MSG_MAX
    requires now == (other + (cv + was[|cv|..])[|other|..])[..|cv|]
    ensures var m := if |other| <= |cv| then |other| else |cv|; now == cv <==> other[..m] == cv[..m]
  {
    var m := if |other| <= |cv| then |other| else |cv|;
    assert now == other[..m] + cv[m..];
    assert cv == cv[..m] + cv[m..];
  }

  /** Such a message is real: EncryptedExtensions of two bytes, behind the CertificateVerify, is taken and overwrites
      the signature's scheme. */
  lemma OtherMessage(e: Env, h: Hs, x: u8, y: u8)
    requires HsOk(h) && h.phase == WaitHs && h.m.pos == 0 && h.f.cvSeen
    ensures var r := HsRun(e, h, [HS_ENCRYPTED_EXT, 0, 0, 2, x, y]);
            r.phase == WaitHs && r.f.cvSeen && r.m.pos == 0 && r.m.buf == [x, y] + h.m.buf[2..]
  {
    var h4 := OtherBegins(e, h);
    HsRunSplit(e, h, [HS_ENCRYPTED_EXT, 0, 0, 2], [x, y]);
    assert [HS_ENCRYPTED_EXT, 0, 0, 2] + [x, y] == [HS_ENCRYPTED_EXT, 0, 0, 2, x, y];
    BodyRun(e, h4, [x, y]);
  }

  lemma OtherBegins(e: Env, h: Hs) returns (r: Hs)
    requires HsOk(h) && h.phase == WaitHs && h.m.pos == 0 && h.f.cvSeen
    ensures r == HsRun(e, h, [HS_ENCRYPTED_EXT, 0, 0, 2]) && HsOk(r)
    ensures r.phase == WaitHs && r.f == h.f
    ensures r.m == h.m.(kind := HS_ENCRYPTED_EXT, len := 2, pos := 4, whole := Buffered)
  {
    var p := [HS_ENCRYPTED_EXT, 0, 0, 2];
    assert p[1..] == [0, 0, 2] && p[1..][1..] == [0, 2] && p[1..][1..][1..] == [2] && p[1..][1..][1..][1..] == [];
    var h1 := HsByte(e, h, p[0]);
    var h2 := HsByte(e, h1, 0);
    var h3 := HsByte(e, h2, 0);
    r := HsByte(e, h3, 2);
    assert HsRun(e, h, p) == HsRun(e, h1, [0, 0, 2]);
    assert HsRun(e, h1, [0, 0, 2]) == HsRun(e, h2, [0, 2]);
    assert HsRun(e, h2, [0, 2]) == HsRun(e, h3, [2]);
    assert HsRun(e, h3, [2]) == HsRun(e, r, []);
  }
}
