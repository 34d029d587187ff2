/** The TLS 1.3 engine's message and record layers (src/tls/tls.c), one byte at a time.  Every step is a function of
    the connection's state; TlsEngine proves that the engine, which takes pieces of any size, computes these. */
module Tls {
  import opened Words

  datatype Phase = Idle | WaitSh | WaitHs | Verifying | Connected | Closed | Failed

  datatype Error =
    | NoError | BadVersion | BadSuite | AlertReceived | BadRecord | BadMessage | BadTag | BadFinished | BadCert
    | BadSignature | BufferFull | RetryRefused

  datatype Verdict = Wrong | Verified | Unchecked

  /** What the handshake secrets were derived from. */
  datatype Keys = NoKeys | Keys(group: u16, share: seq<u8>, hash: seq<u8>)

  /** One direction's traffic key and record number; `master` is empty before the application keys. */
  datatype TrafficKey = TrafficKey(keys: Keys, master: seq<u8>, count: nat)

  function Zeros(n: nat): seq<u8>
  {
    seq<u8>(n, _ => 0)
  }

  /** The kit's answers, which this model does not interpret, and what a connection was started with. */
  datatype Env = Env(
    hash: seq<u8> -> seq<u8>,                                  // of the transcript
    finished: (Keys, bool, seq<u8>) -> seq<u8>,                // verify_data: keys, server side?, hash
    verify: (seq<u8>, u16, seq<u8>, seq<u8>, nat) -> Verdict,  // certificates, scheme, hash, msg and signature length
    plain: (TrafficKey, seq<u8>, u8) -> u8,                    // a ciphertext byte decrypted, after those before it
    check: (TrafficKey, seq<u8>, seq<u8>) -> bool,             // a record's tag
    seal: (TrafficKey, seq<u8>, seq<u8>) -> seq<u8>,           // header, plaintext
    onCurve: seq<u8> -> bool,
    rnd: seq<u8>, sni: seq<u8>, pub: seq<u8>, pub256: seq<u8>,
    outCap: nat, certCap: nat)

  const MSG_MAX := 528
  const REC_MAX := 16640
  const REC_CCS: u8 := 20
  const REC_ALERT: u8 := 21
  const REC_HANDSHAKE: u8 := 22
  const REC_APPDATA: u8 := 23
  const HS_SERVER_HELLO: u8 := 2
  const HS_ENCRYPTED_EXT: u8 := 8
  const HS_CERTIFICATE: u8 := 11
  const HS_CERT_REQUEST: u8 := 13
  const HS_CERT_VERIFY: u8 := 15
  const HS_FINISHED: u8 := 20
  const FINISHED_HEADER: seq<u8> := [20, 0, 0, 32]

  // ---- the streamed Certificate message ------------------------------------------------------------------------

  datatype CertPhase = Context | ListLength | EntryLength | Der | ExtLength | Extensions

  /** The state of cert_stream; `error` is what it failed with, `lenbuf` the bytes of a length so far. */
  datatype Cert = Cert(error: Error, phase: CertPhase, listLeft: nat, left: nat, extLeft: nat, index: u8,
                       lenbuf: seq<u8>, leafLen: nat, store: seq<u8>)

  /** Bytes appended to the kit's certificate store, as far as it holds. */
  function Kept(cap: nat, s: seq<u8>, p: seq<u8>): seq<u8>
  {
    if |s| >= cap then s else if |s| + |p| <= cap then s + p else s + p[..cap - |s|]
  }

  function Length3(b: seq<u8>): nat
    requires |b| >= 3
  {
    b[0] as int * 0x1_0000 + b[1] as int * 0x100 + b[2]
  }

  function Length2(b: seq<u8>): nat
    requires |b| >= 2
  {
    b[0] as int * 0x100 + b[1]
  }

  function NextEntry(c: Cert): Cert
  {
    c.(phase := EntryLength, index := (c.index + 1) % 0x100)
  }

  /** One byte of a Certificate body.  An empty certificate or an empty extension block is left when the next byte
      comes. */
  function CertByte(cap: nat, c: Cert, b: u8): Cert
    decreases c.phase.Der? || c.phase.Extensions?
  {
    if c.error != NoError then c else
    match c.phase
    case Context =>
      if b != 0 then c.(error := BadMessage) else c.(phase := ListLength, lenbuf := [])
    case ListLength =>
      var l := c.lenbuf + [b];
      if |l| < 3 then c.(lenbuf := l)
      else c.(lenbuf := [], phase := EntryLength, listLeft := Length3(l),
              error := if Length3(l) == 0 then BadCert else NoError)
    case EntryLength =>
      var l := c.lenbuf + [b];
      if |l| < 3 then c.(lenbuf := l)
      else c.(lenbuf := [], phase := Der, left := Length3(l),
              leafLen := if c.index == 0 then (if Length3(l) > 0xffff then 0xffff else Length3(l)) else c.leafLen)
    case Der =>
      if c.left == 0 then CertByte(cap, c.(phase := ExtLength), b)
      else c.(store := Kept(cap, c.store, [b]), left := c.left - 1, phase := if c.left == 1 then ExtLength else Der)
    case ExtLength =>
      var l := c.lenbuf + [b];
      if |l| < 2 then c.(lenbuf := l) else c.(lenbuf := [], phase := Extensions, extLeft := Length2(l))
    case Extensions =>
      if c.extLeft == 0 then CertByte(cap, NextEntry(c), b)
      else if c.extLeft == 1 then NextEntry(c.(extLeft := 0))
      else c.(extLeft := c.extLeft - 1)
  }

  function CertRun(cap: nat, c: Cert, p: seq<u8>): Cert
    decreases |p|
  {
    if p == [] then c else CertRun(cap, CertByte(cap, c, p[0]), p[1..])
  }

  // ---- handshake messages --------------------------------------------------------------------------------------

  type MsgBuffer = s: seq<u8> | |s| == 528 witness Zeros(528)

  type Bytes32 = s: seq<u8> | |s| == 32 witness Zeros(32)

  type ReqContext = s: seq<u8> | |s| <= 32

  datatype Whole = Streamed | Buffered | InFin

  /** The handshake message being read: `buf` holds its body unless it is a Finished, in `fin`, or a Certificate,
      streamed. */
  datatype Message = Message(kind: u8, len: nat, pos: nat, buf: MsgBuffer, fin: Bytes32, whole: Whole, cert: Cert)

  /** The transcript of handshake messages and what was derived from it; `master` is empty before the Finished. */
  datatype Secrets = Secrets(transcript: seq<u8>, keys: Keys, master: seq<u8>, wrCount: nat,
                             hashChSh: seq<u8>, hashToCv: seq<u8>, hashToSfin: seq<u8>)

  datatype Flags = Flags(sigState: Verdict, sigScheme: u16, rdOn: bool, wrOn: bool, certRequested: bool,
                         reqCtx: ReqContext, cvSeen: bool, rdSwitch: bool, hrrDone: bool)

  /** Everything above the record layer. */
  datatype Hs = Hs(phase: Phase, error: Error, alert: u8, f: Flags, m: Message, k: Secrets, out: seq<u8>)

  function Fail(h: Hs, e: Error): Hs
  {
    if h.phase == Failed then h else h.(phase := Failed, error := e)
  }

  function WholeOf(msgType: u8): Whole
  {
    if msgType == HS_CERTIFICATE then Streamed else if msgType == HS_FINISHED then InFin else Buffered
  }

  /** A message whose header has been read can be taken. */
  ghost predicate BodyOk(m: Message)
  {
    && m.whole == WholeOf(m.kind)
    && (m.whole == Buffered ==> m.len <= MSG_MAX)
    && (m.whole == InFin ==> m.len == 32)
    && (m.whole == Streamed ==> m.cert.error == NoError)
  }

  ghost predicate HsOk(h: Hs)
  {
    h.phase != Failed && h.m.pos >= 4 ==> h.m.pos - 4 < h.m.len && BodyOk(h.m)
  }

  function U16(x: nat): seq<u8>
  {
    [x / 0x100 % 0x100, x % 0x100]
  }

  /** The ClientHello message, offering a share of one group. */
  function Hello(rnd: seq<u8>, sni: seq<u8>, group: u16, pub: seq<u8>): seq<u8>
  {
    var name := [0, 0] + U16(|sni| + 5) + U16(|sni| + 3) + [0] + U16(|sni|) + sni;
    var groups := [0, 10, 0, 6, 0, 4, 0, 0x1d, 0, 0x17];
    var schemes := [0, 13, 0, 12, 0, 10, 4, 3, 8, 4, 8, 7, 5, 3, 6, 3];
    var versions := [0, 43, 0, 3, 2, 3, 4];
    var share := [0, 51] + U16(|pub| + 6) + U16(|pub| + 4) + U16(group) + U16(|pub|) + pub;
    var exts: seq<u8> := name + groups + schemes + versions + share;
    var body: seq<u8> := [3, 3] + rnd + [0, 0, 2, 0x13, 3, 1, 0] + U16(|exts|) + exts;
    [1, 0] + U16(|body|) + body
  }

  function HelloRecord(hello: seq<u8>): seq<u8>
  {
    [22, 3, 1] + U16(|hello|) + hello
  }

  /** A sealed record: the header names its length, the tag included. */
  function Sealed(e: Env, k: TrafficKey, content: seq<u8>, inner: u8): seq<u8>
  {
    var hdr := [REC_APPDATA, 3, 3] + U16(|content| + 1 + 16);
    hdr + e.seal(k, hdr, content + [inner])
  }

  function WriteKey(k: Secrets): TrafficKey
  {
    TrafficKey(k.keys, k.master, k.wrCount)
  }

  /** The start of a connection: Idle if the out buffer is too small. */
  function Start(e: Env): Hs
  {
    var hello := Hello(e.rnd, e.sni, 0x1d, e.pub);
    var fits := e.outCap >= 200 + |e.sni| && |HelloRecord(hello)| <= e.outCap;
    Hs(if fits then WaitSh else Idle, NoError, 0,
       Flags(Unchecked, 0, false, false, false, [], false, false, false),
       Message(0, 0, 0, Zeros(MSG_MAX), Zeros(32), Streamed, Cert(NoError, Context, 0, 0, 0, 0, [], 0, [])),
       Secrets(if fits then hello else [], NoKeys, [], 0, Zeros(32), Zeros(32), Zeros(32)),
       if fits then HelloRecord(hello) else [])
  }

  /** What the extensions of a ServerHello said. */
  datatype Exts = Exts(error: Error, version: bool, group: u16, shareLen: u16, shareAt: nat, cookie: bool)

  function At16(m: seq<u8>, p: nat): u16
    requires p + 2 <= |m|
  {
    m[p] as int * 0x100 + m[p + 1]
  }

  ghost predicate ShareIn(x: Exts, n: nat)
  {
    x.shareAt + x.shareLen <= n
  }

  /** One extension, its body at p. */
  function Extension(m: seq<u8>, p: nat, kind: u16, len: nat, x: Exts): (r: Exts)
    requires p + len <= |m| && ShareIn(x, |m|)
    ensures ShareIn(r, |m|)
  {
    if kind == 43 then
      if len != 2 || m[p] != 3 || m[p + 1] != 4 then x.(error := BadVersion) else x.(version := true)
    else if kind == 51 then
      if len < 2 then x.(error := BadSuite)
      else if len == 2 then x.(group := At16(m, p))
      else if len < 4 || 4 + At16(m, p + 2) as int != len then x.(group := At16(m, p), error := BadSuite)
      else x.(group := At16(m, p), shareLen := At16(m, p + 2), shareAt := p + 4)
    else if kind == 44 then x.(cookie := true)
    else x
  }

  function ReadExtensions(m: seq<u8>, p: nat, x: Exts): (r: Exts)
    requires p <= |m| && ShareIn(x, |m|)
    ensures ShareIn(r, |m|)
    decreases |m| - p
  {
    if x.error != NoError || p + 4 > |m| then x
    else
      var len := At16(m, p + 2);
      if p + 4 + len > |m| then x.(error := BadMessage)
      else ReadExtensions(m, p + 4 + len, Extension(m, p + 4, At16(m, p), len, x))
  }

  /** A ServerHello's fixed part: the error it fails with, and where its extensions begin. */
  function HelloFixed(m: seq<u8>): (r: (Error, nat))
    ensures r.0 == NoError ==> r.1 <= |m| && |m| >= 38
  {
    if |m| < 38 then (BadMessage, 0)
    else if m[0] != 3 || m[1] != 3 then (BadVersion, 0)
    else
      var p := 35 + m[34] as nat;
      if p + 3 > |m| then (BadMessage, 0)
      else if m[p] != 0x13 || m[p + 1] != 3 || m[p + 2] != 0 then (BadSuite, 0)
      else if p + 5 > |m| || p + 5 + At16(m, p + 3) as nat != |m| then (BadMessage, 0)
      else (NoError, p + 5)
  }

  predicate IsRetry(m: seq<u8>)
    requires |m| >= 38
  {
    m[2..10] == [0xcf, 0x21, 0xad, 0x74, 0xe5, 0x9a, 0x61, 0x11]
  }

  /** The transcript after a HelloRetryRequest: a message of the first hello's hash, then the request. */
  function Restarted(hash: seq<u8>, m: seq<u8>): seq<u8>
  {
    var n := |m|;
    [254, 0, 0, 32] + hash + [HS_SERVER_HELLO, n / 0x1_0000 % 0x100, n / 0x100 % 0x100, n % 0x100] + m
  }

  /** A HelloRetryRequest: the hello is repeated with the other share. */
  function Retry(e: Env, h: Hs, m: seq<u8>, x: Exts): Hs
  {
    if h.f.hrrDone || x.cookie || x.group != 0x17 || x.shareLen != 0 then Fail(h, RetryRefused)
    else
      var hello := Hello(e.rnd, e.sni, 0x17, e.pub256);
      if |h.out| + |HelloRecord(hello)| > e.outCap then Fail(h, BufferFull)
      else
        h.(f := h.f.(hrrDone := true), k := h.k.(transcript := Restarted(h.k.hashToCv, m) + hello),
           out := h.out + HelloRecord(hello), phase := WaitSh)
  }

  function KeysUp(e: Env, h: Hs, group: u16, share: seq<u8>): Hs
  {
    var hash := e.hash(h.k.transcript);
    h.(k := h.k.(hashChSh := hash, keys := Keys(group, share, hash)), f := h.f.(rdOn := true, wrOn := true),
       phase := WaitHs)
  }

  /** server_hello. */
  function ServerHello(e: Env, h: Hs): Hs
    requires h.m.len <= MSG_MAX
  {
    var m := h.m.buf[..h.m.len];
    var fixed := HelloFixed(m);
    if fixed.0 != NoError then Fail(h, fixed.0)
    else
      var x := ReadExtensions(m, fixed.1, Exts(NoError, false, 0, 0, 0, false));
      if x.error != NoError then Fail(h, x.error)
      else if !x.version then Fail(h, BadVersion)
      else if IsRetry(m) then Retry(e, h, m, x)
      else
        var share := m[x.shareAt..x.shareAt + x.shareLen as nat];
        if x.group == 0x17 then
          if |share| != 65 || share[0] != 4 || !e.onCurve(share) then Fail(h, BadSuite)
          else KeysUp(e, h, x.group, share)
        else if x.group != 0x1d || |share| != 32 then Fail(h, BadSuite)
        else KeysUp(e, h, x.group, share)
  }

  /** A CertificateRequest: its context is kept, to be echoed. */
  function CertRequest(h: Hs): Hs
    requires h.m.len <= MSG_MAX
  {
    if h.m.len < 1 || h.m.buf[0] > 32 || 1 + h.m.buf[0] as nat > h.m.len then Fail(h, BadMessage)
    else h.(f := h.f.(certRequested := true, reqCtx := h.m.buf[1..1 + h.m.buf[0] as nat]))
  }

  /** cert_verify: the message stays in the buffer, for tls_verify. */
  function CertVerify(h: Hs): Hs
  {
    if h.m.len < 4 then Fail(h, BadMessage)
    else
      var h1 := h.(f := h.f.(sigScheme := At16(h.m.buf, 0)));
      if 4 + At16(h.m.buf, 2) as nat != h.m.len then Fail(h1, BadMessage) else h1.(f := h1.f.(cvSeen := true))
  }

  /** The client's empty Certificate, if one was asked for: its context echoed. */
  function EmptyCertificate(f: Flags): seq<u8>
  {
    if f.certRequested then [HS_CERTIFICATE, 0] + U16(1 + |f.reqCtx| + 3) + [|f.reqCtx| as u8] + f.reqCtx + [0, 0, 0]
    else []
  }

  /** The client's last flight. */
  function Flight(e: Env, f: Flags, keys: Keys, transcript: seq<u8>): seq<u8>
  {
    var c := EmptyCertificate(f);
    c + FINISHED_HEADER + e.finished(keys, false, e.hash(transcript + c))
  }

  /** server_finished: check, then the client's flight and the application keys. */
  function ServerFinished(e: Env, h: Hs): Hs
  {
    if h.m.len != 32 then Fail(h, BadMessage)
    else if e.finished(h.k.keys, true, e.hash(h.k.transcript)) != h.m.fin then Fail(h, BadFinished)
    else if |h.out| + 5 + 8 + |h.f.reqCtx| + 36 + 1 + 16 > e.outCap then Fail(h, BufferFull)
    else
      var t := h.k.transcript + FINISHED_HEADER + h.m.fin;
      var flight := Flight(e, h.f, h.k.keys, t);
      h.(k := h.k.(transcript := t + EmptyCertificate(h.f), hashToSfin := e.hash(t), master := e.hash(t), wrCount := 0),
         f := h.f.(rdSwitch := true), out := h.out + Sealed(e, WriteKey(h.k), flight, REC_HANDSHAKE),
         phase := Verifying)
  }

  /** The messages that may come. */
  predicate Expected(p: Phase, kind: u8)
  {
    || (p == WaitSh && kind == HS_SERVER_HELLO)
    || (p == WaitHs && (kind == HS_CERTIFICATE || kind == HS_ENCRYPTED_EXT || kind == HS_CERT_REQUEST
                        || kind == HS_CERT_VERIFY || kind == HS_FINISHED))
  }

  function FreshCert(c: Cert): Cert
  {
    c.(error := NoError, phase := Context, index := 0, lenbuf := [], leafLen := 0, store := [])
  }

  /** msg_begin: a header has been read. */
  function MsgBegin(h: Hs): (r: Hs)
    ensures r.phase != Failed ==> BodyOk(r.m)
    ensures r.m.pos == h.m.pos
  {
    if !Expected(h.phase, h.m.kind) then Fail(h, BadMessage)
    else if h.m.kind == HS_CERTIFICATE then h.(m := h.m.(whole := Streamed, cert := FreshCert(h.m.cert)))
    else
      var h1 := h.(m := h.m.(whole := WholeOf(h.m.kind)));
      if (if h.m.kind == HS_FINISHED then h.m.len != 32 else h.m.len > MSG_MAX) then Fail(h1, BadMessage) else h1
  }

  /** msg_end: a whole message has been read. */
  function MsgEnd(e: Env, h: Hs): Hs
    requires h.phase != Failed ==> BodyOk(h.m)
  {
    if h.phase == Failed then h
    else if h.m.kind == HS_SERVER_HELLO then ServerHello(e, h)
    else if h.m.kind == HS_ENCRYPTED_EXT then h
    else if h.m.kind == HS_CERT_REQUEST then CertRequest(h)
    else if h.m.kind == HS_CERTIFICATE then
      if h.m.cert.leafLen == 0 then Fail(h, BadCert) else h
    else if h.m.kind == HS_CERT_VERIFY then CertVerify(h)
    else if h.m.kind == HS_FINISHED then ServerFinished(e, h)
    else Fail(h, BadMessage)
  }

  /** A buffer with p written at an offset. */
  function Splice(buf: seq<u8>, at: nat, p: seq<u8>): (r: seq<u8>)
    requires at + |p| <= |buf|
    ensures |r| == |buf|
  {
    buf[..at] + p + buf[at + |p|..]
  }

  /** Bytes of a message's body, stored. */
  function Read(cap: nat, m: Message, p: seq<u8>): (r: Message)
    requires BodyOk(m) && m.pos >= 4 && m.pos - 4 + |p| <= m.len
    ensures r.kind == m.kind && r.len == m.len && r.pos == m.pos + |p| && r.whole == m.whole
  {
    match m.whole
    case Buffered => m.(pos := m.pos + |p|, buf := Splice(m.buf, m.pos - 4, p))
    case InFin => m.(pos := m.pos + |p|, fin := Splice(m.fin, m.pos - 4, p))
    case Streamed => m.(pos := m.pos + |p|, cert := CertRun(cap, m.cert, p))
  }

  /** Bytes into the transcript; those of a Finished wait until it has been checked. */
  function Hashed(k: Secrets, kind: u8, p: seq<u8>): Secrets
  {
    if kind == HS_FINISHED then k else k.(transcript := k.transcript + p)
  }

  /** Bytes of a message's body. */
  function Body(e: Env, h: Hs, p: seq<u8>): (r: Hs)
    requires BodyOk(h.m) && h.m.pos >= 4 && h.m.pos - 4 + |p| <= h.m.len
    ensures r.m == Read(e.certCap, h.m, p) && (r.phase != Failed ==> BodyOk(r.m))
  {
    var h1 := h.(m := Read(e.certCap, h.m, p), k := Hashed(h.k, h.m.kind, p));
    if h.m.whole == Streamed && h1.m.cert.error != NoError then Fail(h1, h1.m.cert.error) else h1
  }

  /** A byte of a message's header. */
  function Header(e: Env, h: Hs, b: u8): (r: Hs)
    requires h.m.pos < 4
    ensures r.m.pos == h.m.pos + 1
  {
    var k := if h.m.pos == 0 && !h.f.cvSeen then h.k.(hashToCv := e.hash(h.k.transcript)) else h.k;
    var m := if h.m.pos == 0 then h.m.(kind := b, len := 0, pos := 1)
             else h.m.(len := h.m.len * 0x100 + b, pos := h.m.pos + 1);
    h.(k := Hashed(k, m.kind, [b]),
       m := if m.kind == HS_FINISHED then m.(buf := m.buf[MSG_MAX - 4 + h.m.pos := b]) else m)
  }

  /** A message's last byte has been read: the next one begins. */
  function Finish(e: Env, h: Hs): (r: Hs)
    requires h.phase != Failed ==> BodyOk(h.m)
    ensures r.m.pos == 0
  {
    var h1 := MsgEnd(e, h);
    h1.(m := h1.m.(pos := 0))
  }

  /** One byte of the handshake: hs_feed. */
  function HsByte(e: Env, h: Hs, b: u8): (r: Hs)
    requires HsOk(h)
    ensures HsOk(r)
  {
    if h.phase == Failed then h
    else if h.m.pos < 4 then
      var h1 := Header(e, h, b);
      if h1.m.pos < 4 then h1
      else
        var h2 := MsgBegin(h1);
        if h2.m.len == 0 then Finish(e, h2) else h2
    else
      var h1 := Body(e, h, [b]);
      if h1.m.pos - 4 == h1.m.len then Finish(e, h1) else h1
  }

  function HsRun(e: Env, h: Hs, p: seq<u8>): (r: Hs)
    requires HsOk(h)
    ensures HsOk(r)
    decreases |p|
  {
    if p == [] then h else HsRun(e, HsByte(e, h, p[0]), p[1..])
  }

  // ---- records -------------------------------------------------------------------------------------------------

  /** What the caller is told: application data as it is decrypted, and at a record's end whether to keep it. */
  datatype Event = Data(byte: u8) | RecordEnd(keep: bool)

  /** The record being read.  `taken` is what the kit has been given of it: the header, then ciphertext. */
  datatype Rec = Rec(hdr: seq<u8>, len: nat, pos: nat, kind: u8, inner: u8, tag: seq<u8>, last0: u8, last1: u8,
                     connected: bool, openKey: TrafficKey, taken: seq<u8>, rdApp: bool, rdCount: nat)

  datatype Conn = Conn(hs: Hs, rec: Rec, events: seq<Event>)

  predicate Terminal(p: Phase)
  {
    p == Failed || p == Closed
  }

  /** The record being read is an encrypted one. */
  predicate Encrypted(t: Conn)
  {
    t.hs.f.rdOn && t.rec.kind == REC_APPDATA
  }

  ghost predicate ConnOk(t: Conn)
  {
    && HsOk(t.hs)
    && (!Terminal(t.hs.phase) ==>
          && |t.rec.hdr| <= 5
          && (|t.rec.hdr| == 5 ==> t.rec.pos < t.rec.len && (Encrypted(t) ==> t.rec.len >= 17)))
  }

  function StartConn(e: Env): (t: Conn)
    ensures ConnOk(t)
  {
    Conn(Start(e), Rec([], 0, 0, 0, 0, [], 0, 0, false, TrafficKey(NoKeys, [], 0), [], false, 0), [])
  }

  function FailConn(t: Conn, e: Error): Conn
  {
    t.(hs := Fail(t.hs, e))
  }

  function AlertIn(h: Hs, desc: u8): (r: Hs)
    requires HsOk(h) && h.phase != Failed
    ensures HsOk(r)
  {
    if desc == 0 then h.(alert := desc, phase := Closed) else Fail(h.(alert := desc), AlertReceived)
  }

  function ReadKey(t: Conn): TrafficKey
  {
    TrafficKey(t.hs.k.keys, if t.rec.rdApp then t.hs.k.master else [], t.rec.rdCount)
  }

  /** record_start: a record's header has been read. */
  function RecordStart(t: Conn): (r: Conn)
    requires |t.rec.hdr| == 5 && HsOk(t.hs)
    ensures ConnOk(r)
  {
    var hdr := t.rec.hdr;
    var len := At16(hdr, 3);
    var t1 := t.(rec := t.rec.(kind := hdr[0], len := len, pos := 0, tag := [], connected := t.hs.phase == Connected));
    if hdr[1] != 3 || len > REC_MAX then FailConn(t1, BadRecord)
    else if Encrypted(t1) then
      if len < 17 then FailConn(t1, BadRecord) else t1.(rec := t1.rec.(openKey := ReadKey(t), taken := hdr))
    else
      var t2 := if t.hs.f.rdOn && hdr[0] != REC_CCS && hdr[0] != REC_ALERT then FailConn(t1, BadRecord) else t1;
      if len == 0 then t2.(rec := t2.rec.(hdr := [])) else t2
  }

  /** The read keys switch at the end of the record whose Finished asked for it. */
  function Switched(t: Conn): (r: Conn)
    ensures r.rec.hdr == t.rec.hdr && (HsOk(t.hs) ==> HsOk(r.hs)) && r.hs.phase == t.hs.phase
  {
    if t.hs.f.rdSwitch then t.(rec := t.rec.(rdApp := true, rdCount := 0), hs := t.hs.(f := t.hs.f.(rdSwitch := false)))
    else t.(rec := t.rec.(rdCount := t.rec.rdCount + 1))
  }

  /** What an encrypted record turns out to have been. */
  function Judged(h: Hs, r: Rec, ok: bool): (s: Hs)
    requires HsOk(h) && h.phase != Failed
    ensures HsOk(s)
  {
    if !ok then Fail(h, BadTag)
    else if r.inner == REC_APPDATA then if r.connected then h else Fail(h, BadMessage)
    else if r.inner == REC_HANDSHAKE then h
    else if r.inner == REC_ALERT then AlertIn(h, r.last1)
    else Fail(h, BadRecord)
  }

  /** record_end. */
  function EndRecord(e: Env, t: Conn): (r: Conn)
    requires HsOk(t.hs) && t.hs.phase != Failed
    ensures HsOk(r.hs) && r.rec.hdr == []
  {
    var t0 := t.(rec := t.rec.(hdr := []));
    if !Encrypted(t) then t0
    else
      var ok := e.check(t.rec.openKey, t.rec.taken, t.rec.tag);
      var t1 := Switched(t0);
      Conn(Judged(t1.hs, t.rec, ok), t1.rec,
           if t.rec.connected then t.events + [RecordEnd(ok && t.rec.inner == REC_APPDATA)] else t.events)
  }

  function DataEvents(p: seq<u8>): seq<Event>
  {
    seq(|p|, i requires 0 <= i < |p| => Data(p[i]))
  }

  /** Decrypted content: to the caller once connected, to the handshake before. */
  function Deliver(e: Env, t: Conn, p: seq<u8>): (r: Conn)
    requires HsOk(t.hs)
    ensures HsOk(r.hs) && r.rec == t.rec
  {
    if t.hs.phase == Connected then t.(events := t.events + DataEvents(p)) else t.(hs := HsRun(e, t.hs, p))
  }

  /** The same record, n bytes on. */
  ghost predicate SameRecord(r: Rec, s: Rec, n: nat)
  {
    s.hdr == r.hdr && s.len == r.len && s.kind == r.kind && s.pos == r.pos + n
  }

  /** A record with more ciphertext given to the kit; the last two bytes of its content are kept. */
  function Opened(r: Rec, c: seq<u8>, content: seq<u8>, inner: u8): (s: Rec)
    ensures SameRecord(r, s, |c|)
  {
    var n := |content|;
    r.(taken := r.taken + c, pos := r.pos + |c|, inner := inner,
       last0 := if n >= 2 then content[n - 2] else if n == 1 then r.last1 else r.last0,
       last1 := if n >= 1 then content[n - 1] else r.last1)
  }

  /** One byte of an encrypted record: ciphertext, the last of which is the inner type, then the tag. */
  function EncByte(e: Env, t: Conn, b: u8): (r: Conn)
    requires HsOk(t.hs) && t.rec.len >= 17
    ensures HsOk(r.hs) && SameRecord(t.rec, r.rec, 1)
  {
    if t.rec.pos < t.rec.len - 16 then
      var d := e.plain(t.rec.openKey, t.rec.taken, b);
      if t.rec.pos + 1 == t.rec.len - 16 then t.(rec := Opened(t.rec, [b], [], d))
      else Deliver(e, t.(rec := Opened(t.rec, [b], [d], t.rec.inner)), [d])
    else t.(rec := t.rec.(tag := t.rec.tag + [b], pos := t.rec.pos + 1))
  }

  /** One byte of a record in the clear, for the handshake; an alert is its second byte. */
  function PlainHs(e: Env, h: Hs, r: Rec, b: u8): (s: Hs)
    requires HsOk(h) && h.phase != Failed
    ensures HsOk(s)
  {
    if r.kind == REC_HANDSHAKE then HsByte(e, h, b)
    else if r.kind == REC_ALERT then if r.pos == 1 then AlertIn(h, b) else h
    else if r.kind == REC_CCS then h
    else Fail(h, BadRecord)
  }

  function PlainByte(e: Env, t: Conn, b: u8): (r: Conn)
    requires HsOk(t.hs) && t.hs.phase != Failed
    ensures HsOk(r.hs) && SameRecord(t.rec, r.rec, 1)
  {
    Conn(PlainHs(e, t.hs, t.rec, b), t.rec.(pos := t.rec.pos + 1), t.events)
  }

  /** One byte from the socket. */
  function Feed(e: Env, t: Conn, b: u8): (r: Conn)
    requires ConnOk(t)
    ensures ConnOk(r)
  {
    if Terminal(t.hs.phase) then t
    else if |t.rec.hdr| < 5 then HeaderByte(t, b)
    else if Encrypted(t) then Ended(e, EncByte(e, t, b))
    else Ended(e, PlainByte(e, t, b))
  }

  /** A byte of a record's header. */
  function HeaderByte(t: Conn, b: u8): (r: Conn)
    requires HsOk(t.hs) && |t.rec.hdr| < 5
    ensures ConnOk(r)
  {
    var t1 := t.(rec := t.rec.(hdr := t.rec.hdr + [b]));
    if |t1.rec.hdr| == 5 then RecordStart(t1) else t1
  }

  /** A record whose bytes have all been read is ended. */
  function Ended(e: Env, t: Conn): (r: Conn)
    requires HsOk(t.hs) && t.rec.pos <= t.rec.len && |t.rec.hdr| <= 5 && (Encrypted(t) ==> t.rec.len >= 17)
    ensures ConnOk(r)
  {
    if t.hs.phase != Failed && t.rec.pos == t.rec.len then EndRecord(e, t) else t
  }

  function Run(e: Env, t: Conn, p: seq<u8>): (r: Conn)
    requires ConnOk(t)
    ensures ConnOk(r)
    decreases |p|
  {
    if p == [] then t else Run(e, Feed(e, t, p[0]), p[1..])
  }
}
