/** The handshake messages as RFC 8446 encodes them, and what the engine makes of them (src/tls/tls.c): the readings and
    writings of Tls, which go by offsets, against lists of extensions and certificates. */
module TlsMessages {
  import opened Words
  import opened Tls
  import opened TlsPieces

  // ---- vectors (section 3.4) -----------------------------------------------------------------------------------

  function Pair(n: u16): (b: seq<u8>)
    ensures |b| == 2
  {
    [n / 0x100, n % 0x100]
  }

  function Vec8(x: seq<u8>): seq<u8>
    requires |x| < 0x100
  {
    [|x|] + x
  }

  function Vec16(x: seq<u8>): seq<u8>
    requires |x| < 0x1_0000
  {
    Pair(|x|) + x
  }

  function Vec24(x: seq<u8>): seq<u8>
    requires |x| < 0x100_0000
  {
    [|x| / 0x1_0000] + Pair(|x| % 0x1_0000) + x
  }

  datatype Ext = Ext(kind: u16, body: seq<u8>)

  ghost predicate Sized(xs: seq<Ext>)
  {
    forall i :: 0 <= i < |xs| ==> |xs[i].body| < 0x1_0000
  }

  ghost function ExtBytes(x: Ext): seq<u8>
    requires |x.body| < 0x1_0000
  {
    Pair(x.kind) + Vec16(x.body)
  }

  /** Extensions one after another. */
  ghost function ExtsBytes(xs: seq<Ext>): seq<u8>
    requires Sized(xs)
  {
    if xs == [] then [] else ExtBytes(xs[0]) + ExtsBytes(xs[1..])
  }

  /** A key share: a group and a key of it. */
  function Share(group: u16, key: seq<u8>): seq<u8>
    requires |key| < 0x1_0000
  {
    Pair(group) + Vec16(key)
  }

  // ---- ServerHello (section 4.1.3) -----------------------------------------------------------------------------

  /** Its body: the legacy version, a random, the session's echo, TLS_CHACHA20_POLY1305_SHA256, no compression, and the
      extensions; `rest` is up to three bytes behind the last extension, which the engine passes over. */
  ghost function ServerHelloBody(random: seq<u8>, session: seq<u8>, xs: seq<Ext>, rest: seq<u8>): seq<u8>
    requires |random| == 32 && |session| < 0x100 && Sized(xs) && |ExtsBytes(xs) + rest| < 0x1_0000
  {
    [3, 3] + random + Vec8(session) + [0x13, 3, 0] + Vec16(ExtsBytes(xs) + rest)
  }

  /** What extensions say, in their own terms. */
  datatype Said = Said(error: Error, version: bool, group: u16, key: seq<u8>, cookie: bool)

  /** One more extension: the version must be TLS 1.3, a key share a group alone or a group and a key. */
  ghost function Heed(y: Said, x: Ext): Said
  {
    if x.kind == 43 then if x.body == [3, 4] then y.(version := true) else y.(error := BadVersion)
    else if x.kind == 51 then
      if |x.body| < 2 then y.(error := BadSuite)
      else if |x.body| == 2 then y.(group := At16(x.body, 0))
      else if |x.body| >= 4 && |x.body| - 4 == At16(x.body, 2) then y.(group := At16(x.body, 0), key := x.body[4..])
      else y.(group := At16(x.body, 0), error := BadSuite)
    else if x.kind == 44 then y.(cookie := true)
    else y
  }

  ghost function HeedAll(y: Said, xs: seq<Ext>): Said
    decreases |xs|
  {
    if xs == [] || y.error != NoError then y else HeedAll(Heed(y, xs[0]), xs[1..])
  }

  /** What has been read, its share looked up. */
  ghost function SaidBy(m: seq<u8>, x: Exts): Said
    requires ShareIn(x, |m|)
  {
    Said(x.error, x.version, x.group, m[x.shareAt..x.shareAt + x.shareLen as nat], x.cookie)
  }

  lemma BodyAt(m: seq<u8>, p: nat, body: seq<u8>)
    requires p + |body| <= |m| && m[p..p + |body|] == body
    ensures forall i :: 0 <= i < |body| ==> body[i] == m[p + i]
    ensures |body| >= 4 ==> body[4..] == m[p + 4..p + |body|]
  {
    forall i | 0 <= i < |body| ensures body[i] == m[p + i] {
    }
  }

  lemma VersionSays(m: seq<u8>, p: nat, body: seq<u8>, x: Exts)
    requires p + |body| <= |m| && m[p..p + |body|] == body && ShareIn(x, |m|) && x.error == NoError
    ensures SaidBy(m, Extension(m, p, 43, |body|, x)) == Heed(SaidBy(m, x), Ext(43, body))
  {
    BodyAt(m, p, body);
    assert |body| == 2 ==> body == [m[p], m[p + 1]];
  }

  lemma ShareSays(m: seq<u8>, p: nat, body: seq<u8>, x: Exts)
    requires p + |body| <= |m| && m[p..p + |body|] == body && ShareIn(x, |m|) && x.error == NoError
    ensures SaidBy(m, Extension(m, p, 51, |body|, x)) == Heed(SaidBy(m, x), Ext(51, body))
  {
    BodyAt(m, p, body);
    assert |body| >= 2 ==> At16(body, 0) == At16(m, p);
    assert |body| >= 4 ==> At16(body, 2) == At16(m, p + 2);
  }

  lemma ExtensionSays(m: seq<u8>, p: nat, e: Ext, x: Exts)
    requires p + |e.body| <= |m| && m[p..p + |e.body|] == e.body && ShareIn(x, |m|) && x.error == NoError
    ensures SaidBy(m, Extension(m, p, e.kind, |e.body|, x)) == Heed(SaidBy(m, x), e)
  {
    if e.kind == 43 {
      VersionSays(m, p, e.body, x);
    } else if e.kind == 51 {
      ShareSays(m, p, e.body, x);
    }
  }

  /** One extension at the head of what is left. */
  lemma FirstExtension(m: seq<u8>, p: nat, e: Ext, more: seq<u8>)
    requires p <= |m| && |e.body| < 0x1_0000 && m[p..] == ExtBytes(e) + more
    ensures p + 4 + |e.body| <= |m| && At16(m, p) == e.kind && At16(m, p + 2) == |e.body|
    ensures m[p + 4..p + 4 + |e.body|] == e.body && m[p + 4 + |e.body|..] == more
  {
    var b := ExtBytes(e);
    assert |m[p..]| == 4 + |e.body| + |more|;
    assert m[p] == m[p..][0] == b[0] && m[p + 1] == m[p..][1] == b[1];
    assert m[p + 2] == m[p..][2] == b[2] && m[p + 3] == m[p..][3] == b[3];
    assert m[p + 4..p + 4 + |e.body|] == m[p..][4..4 + |e.body|] == e.body;
    assert m[p + 4 + |e.body|..] == m[p..][4 + |e.body|..] == more;
  }

  lemma Associate(a: seq<u8>, b: seq<u8>, c: seq<u8>)
    ensures a + b + c == a + (b + c)
  {
  }

  predicate VeilRead(k: nat)
  {
    true
  }

  /** Reading by offsets is heeding the list; behind a veil, as the proof goes by steps. */
  ghost predicate ReadAs(m: seq<u8>, p: nat, xs: seq<Ext>, x: Exts)
    requires p <= |m| && ShareIn(x, |m|)
  {
    forall k :: VeilRead(k) ==> SaidBy(m, ReadExtensions(m, p, x)) == HeedAll(SaidBy(m, x), xs)
  }

  lemma NoneLeft(m: seq<u8>, p: nat, rest: seq<u8>, x: Exts)
    requires p <= |m| && |rest| < 4 && m[p..] == [] + rest && ShareIn(x, |m|)
    ensures ReadAs(m, p, [], x)
  {
    assert |m| - p == |rest|;
  }

  lemma Stopped(m: seq<u8>, p: nat, xs: seq<Ext>, x: Exts)
    requires p <= |m| && ShareIn(x, |m|) && x.error != NoError
    ensures ReadAs(m, p, xs, x)
  {
  }

  /** One extension e read leads from p and x to q and y. */
  ghost predicate Leads(m: seq<u8>, p: nat, x: Exts, e: Ext, q: nat, y: Exts)
    requires p <= |m| && q <= |m| && ShareIn(x, |m|) && ShareIn(y, |m|)
  {
    forall k :: VeilRead(k) ==>
      ReadExtensions(m, p, x) == ReadExtensions(m, q, y) && SaidBy(m, y) == Heed(SaidBy(m, x), e)
  }

  lemma ExtensionLeads(m: seq<u8>, p: nat, x: Exts, e: Ext) returns (q: nat, y: Exts)
    requires p + 4 + |e.body| <= |m| && |e.body| < 0x1_0000 && ShareIn(x, |m|) && x.error == NoError
    requires At16(m, p) == e.kind && At16(m, p + 2) == |e.body| && m[p + 4..p + 4 + |e.body|] == e.body
    ensures q == p + 4 + |e.body| && ShareIn(y, |m|) && Leads(m, p, x, e, q, y)
  {
    q, y := p + 4 + |e.body|, Extension(m, p + 4, e.kind, |e.body|, x);
    ExtensionSays(m, p + 4, e, x);
  }

  lemma ListStep(m: seq<u8>, p: nat, xs: seq<Ext>, rest: seq<u8>, x: Exts) returns (q: nat, y: Exts)
    requires p <= |m| && Sized(xs) && xs != [] && m[p..] == ExtsBytes(xs) + rest
    requires ShareIn(x, |m|) && x.error == NoError
    ensures p < q <= |m| && ShareIn(y, |m|) && Leads(m, p, x, xs[0], q, y)
    ensures Sized(xs[1..]) && m[q..] == ExtsBytes(xs[1..]) + rest
  {
    Associate(ExtBytes(xs[0]), ExtsBytes(xs[1..]), rest);
    FirstExtension(m, p, xs[0], ExtsBytes(xs[1..]) + rest);
    q, y := ExtensionLeads(m, p, x, xs[0]);
  }

  lemma StepRead(m: seq<u8>, p: nat, xs: seq<Ext>, x: Exts, q: nat, y: Exts)
    requires p <= |m| && q <= |m| && xs != [] && ShareIn(x, |m|) && x.error == NoError && ShareIn(y, |m|)
    requires Leads(m, p, x, xs[0], q, y) && ReadAs(m, q, xs[1..], y)
    ensures ReadAs(m, p, xs, x)
  {
    assert VeilRead(0);
  }

  lemma {:induction false} AllRead(m: seq<u8>, p: nat, xs: seq<Ext>, rest: seq<u8>, x: Exts)
    requires p <= |m| && Sized(xs) && |rest| < 4 && m[p..] == ExtsBytes(xs) + rest && ShareIn(x, |m|)
    ensures ReadAs(m, p, xs, x)
    decreases |xs|
  {
    if xs == [] {
      NoneLeft(m, p, rest, x);
    } else if x.error != NoError {
      Stopped(m, p, xs, x);
    } else {
      var q, y := ListStep(m, p, xs, rest, x);
      AllRead(m, q, xs[1..], rest, y);
      StepRead(m, p, xs, x, q, y);
    }
  }

  lemma ListRead(m: seq<u8>, p: nat, xs: seq<Ext>, rest: seq<u8>, x: Exts)
    requires p <= |m| && Sized(xs) && |rest| < 4 && m[p..] == ExtsBytes(xs) + rest && ShareIn(x, |m|)
    ensures SaidBy(m, ReadExtensions(m, p, x)) == HeedAll(SaidBy(m, x), xs)
  {
    AllRead(m, p, xs, rest, x);
    assert VeilRead(0);
  }

  /** And whatever is read without an error is such a list. */
  lemma {:induction false} ReadIsList(m: seq<u8>, p: nat, x: Exts) returns (xs: seq<Ext>, rest: seq<u8>)
    requires p <= |m| && ShareIn(x, |m|) && x.error == NoError && ReadExtensions(m, p, x).error == NoError
    ensures Sized(xs) && |rest| < 4 && m[p..] == ExtsBytes(xs) + rest
    decreases |m| - p
  {
    if p + 4 > |m| {
      xs, rest := [], m[p..];
    } else {
      var n: nat := At16(m, p + 2);
      var e := Ext(At16(m, p), m[p + 4..p + 4 + n]);
      xs, rest := ReadIsList(m, p + 4 + n, Extension(m, p + 4, e.kind, n, x));
      ListCons(m, p, e, xs, rest);
      xs := [e] + xs;
    }
  }

  lemma ListCons(m: seq<u8>, p: nat, e: Ext, xs: seq<Ext>, rest: seq<u8>)
    requires p + 4 + |e.body| <= |m| && |e.body| < 0x1_0000 && At16(m, p) == e.kind && At16(m, p + 2) == |e.body|
    requires m[p + 4..p + 4 + |e.body|] == e.body && Sized(xs) && m[p + 4 + |e.body|..] == ExtsBytes(xs) + rest
    ensures Sized([e] + xs) && m[p..] == ExtsBytes([e] + xs) + rest
  {
    assert ([e] + xs)[1..] == xs;
    assert m[p..p + 4] == Pair(e.kind) + Pair(|e.body|);
    assert m[p..] == m[p..p + 4] + m[p + 4..p + 4 + |e.body|] + m[p + 4 + |e.body|..];
  }

  const NOTHING_READ := Exts(NoError, false, 0, 0, 0, false)
  const NOTHING_SAID := Said(NoError, false, 0, [], false)

  /** The fixed part: what comes before the extensions. */
  lemma FixedRead(random: seq<u8>, session: seq<u8>, xs: seq<Ext>, rest: seq<u8>)
    requires |random| == 32 && |session| < 0x100 && Sized(xs) && |ExtsBytes(xs) + rest| < 0x1_0000
    ensures var m := ServerHelloBody(random, session, xs, rest);
            && HelloFixed(m) == (NoError, 40 + |session|) && m[40 + |session|..] == ExtsBytes(xs) + rest
            && m[2..34] == random
  {
    var m, s, e := ServerHelloBody(random, session, xs, rest), |session|, ExtsBytes(xs) + rest;
    assert m[0] == 3 && m[1] == 3 && m[34] == s;
    assert m[35 + s] == 0x13 && m[36 + s] == 3 && m[37 + s] == 0;
    assert m[38 + s] == Pair(|e|)[0] && m[39 + s] == Pair(|e|)[1];
  }

  lemma FixedIs(m: seq<u8>, xs: seq<Ext>, rest: seq<u8>) returns (random: seq<u8>, session: seq<u8>)
    requires HelloFixed(m).0 == NoError && Sized(xs) && |rest| < 4 && m[HelloFixed(m).1..] == ExtsBytes(xs) + rest
    ensures |random| == 32 && |session| < 0x100 && |ExtsBytes(xs) + rest| < 0x1_0000
    ensures m == ServerHelloBody(random, session, xs, rest)
  {
    random, session := m[2..34], m[35..35 + m[34] as nat];
    var s, e := |session|, ExtsBytes(xs) + rest;
    assert HelloFixed(m).1 == 40 + s;
    assert |e| == |m| - (40 + s) == At16(m, 38 + s);
    assert m[..2] == [3, 3] && m[34..35 + s] == Vec8(session) && m[35 + s..38 + s] == [0x13, 3, 0];
    assert m[38 + s..40 + s] == Pair(|e|);
    assert m == m[..2] + m[2..34] + m[34..35 + s] + m[35 + s..38 + s] + (m[38 + s..40 + s] + m[40 + s..]);
  }

  /** A key share this client takes: X25519, or an uncompressed point of P-256 that is on the curve. */
  predicate Wanted(e: Env, group: u16, key: seq<u8>)
  {
    || (group == 0x1d && |key| == 32)
    || (group == 0x17 && |key| == 65 && key[0] == 4 && e.onCurve(key))
  }

  /** The beginning of a random that says HelloRetryRequest. */
  const RETRY: seq<u8> := [0xcf, 0x21, 0xad, 0x74, 0xe5, 0x9a, 0x61, 0x11]

  ghost predicate Bodied(h: Hs, body: seq<u8>)
  {
    |body| <= MSG_MAX && h.m.len == |body| && h.m.buf[..|body|] == body
  }

  /** What has been read of a hello, and what it says. */
  lemma HelloRead(random: seq<u8>, session: seq<u8>, xs: seq<Ext>, rest: seq<u8>)
    requires |random| == 32 && |session| < 0x100 && Sized(xs) && |rest| < 4 && |ExtsBytes(xs) + rest| < 0x1_0000
    ensures var m := ServerHelloBody(random, session, xs, rest);
            && HelloFixed(m).0 == NoError && IsRetry(m) == (random[..8] == RETRY)
            && SaidBy(m, ReadExtensions(m, HelloFixed(m).1, NOTHING_READ)) == HeedAll(NOTHING_SAID, xs)
  {
    var m := ServerHelloBody(random, session, xs, rest);
    FixedRead(random, session, xs, rest);
    ListRead(m, 40 + |session|, xs, rest, NOTHING_READ);
    assert m[0..0] == [];
    assert m[2..10] == m[2..34][..8] == random[..8];
  }

  /** What a ServerHello does is what its extensions say. */
  lemma HelloSays(e: Env, h: Hs, random: seq<u8>, session: seq<u8>, xs: seq<Ext>, rest: seq<u8>)
    requires |random| == 32 && |session| < 0x100 && Sized(xs) && |rest| < 4 && |ExtsBytes(xs) + rest| < 0x1_0000
    requires Bodied(h, ServerHelloBody(random, session, xs, rest)) && random[..8] != RETRY
    ensures var y, r := HeedAll(NOTHING_SAID, xs), ServerHello(e, h);
            if y.error == NoError && y.version && Wanted(e, y.group, y.key) then r == KeysUp(e, h, y.group, y.key)
            else r == Fail(h, if y.error != NoError then y.error else if !y.version then BadVersion else BadSuite)
  {
    HelloRead(random, session, xs, rest);
  }

  /** The first HelloRetryRequest that asks for P-256, with no cookie and no key, is answered with the second hello, if
      the out buffer has room; any other is refused. */
  lemma RetrySays(e: Env, h: Hs, random: seq<u8>, session: seq<u8>, xs: seq<Ext>, rest: seq<u8>)
    requires |random| == 32 && |session| < 0x100 && Sized(xs) && |rest| < 4 && |ExtsBytes(xs) + rest| < 0x1_0000
    requires Bodied(h, ServerHelloBody(random, session, xs, rest)) && random[..8] == RETRY
    ensures var y, r := HeedAll(NOTHING_SAID, xs), ServerHello(e, h);
            var hello := Hello(e.rnd, e.sni, 0x17, e.pub256);
            if y.error != NoError || !y.version then r == Fail(h, if y.error != NoError then y.error else BadVersion)
            else if h.f.hrrDone || y.cookie || y.group != 0x17 || y.key != [] then r == Fail(h, RetryRefused)
            else if |h.out| + |HelloRecord(hello)| > e.outCap then r == Fail(h, BufferFull)
            else
              && r.phase == WaitSh && r.f == h.f.(hrrDone := true) && r.out == h.out + HelloRecord(hello)
              && r.k == h.k.(transcript := r.k.transcript)
              && r.k.transcript == [254, 0, 0, 32] + h.k.hashToCv
                                   + ([2] + Vec24(ServerHelloBody(random, session, xs, rest))) + hello
  {
    var m := ServerHelloBody(random, session, xs, rest);
    HelloRead(random, session, xs, rest);
    var hello := Hello(e.rnd, e.sni, 0x17, e.pub256);
    RestartIs(h.k.hashToCv, m, hello);
  }

  lemma RestartIs(hash: seq<u8>, m: seq<u8>, hello: seq<u8>)
    requires |m| < 0x1_0000
    ensures Restarted(hash, m) + hello == [254, 0, 0, 32] + hash + ([2] + Vec24(m)) + hello
  {
    var n := |m|;
    assert [2, n / 0x1_0000 % 0x100, n / 0x100 % 0x100, n % 0x100] + m == [2] + Vec24(m);
  }

  /** One key share among extensions, and the version. */
  ghost predicate Agreeable(xs: seq<Ext>, group: u16, key: seq<u8>)
    requires |key| < 0x1_0000
  {
    && (exists i :: 0 <= i < |xs| && xs[i] == Ext(43, [3, 4]))
    && (exists i :: 0 <= i < |xs| && xs[i] == Ext(51, Share(group, key)))
    && (forall i :: 0 <= i < |xs| && xs[i].kind == 43 ==> xs[i].body == [3, 4])
    && (forall i :: 0 <= i < |xs| && xs[i].kind == 51 ==> xs[i].body == Share(group, key))
  }

  lemma {:induction false} AgreeableHeard(xs: seq<Ext>, y: Said, group: u16, key: seq<u8>)
    requires |key| < 0x1_0000 && key != [] && y.error == NoError
    requires forall i :: 0 <= i < |xs| && xs[i].kind == 43 ==> xs[i].body == [3, 4]
    requires forall i :: 0 <= i < |xs| && xs[i].kind == 51 ==> xs[i].body == Share(group, key)
    ensures var z := HeedAll(y, xs);
            && z.error == NoError && (z.version <==> y.version || exists i :: 0 <= i < |xs| && xs[i].kind == 43)
            && if exists i :: 0 <= i < |xs| && xs[i].kind == 51 then z.group == group && z.key == key
               else z.group == y.group && z.key == y.key
    decreases |xs|
  {
    if xs != [] {
      var x, ys := xs[0], xs[1..];
      assert forall i :: 0 <= i < |ys| ==> ys[i] == xs[i + 1];
      assert Share(group, key)[4..] == key;
      AgreeableHeard(ys, Heed(y, x), group, key);
      assert forall i :: 1 <= i < |xs| ==> xs[i] == ys[i - 1];
    }
  }

  /** Every ServerHello that has TLS 1.3 and a key share this client takes, among whatever else, brings the handshake
      keys up from that share. */
  lemma HelloTaken(e: Env, h: Hs, random: seq<u8>, session: seq<u8>, xs: seq<Ext>, group: u16, key: seq<u8>)
    requires |random| == 32 && |session| < 0x100 && Sized(xs) && |ExtsBytes(xs)| < 0x1_0000
    requires Bodied(h, ServerHelloBody(random, session, xs, [])) && random[..8] != RETRY
    requires Wanted(e, group, key) && Agreeable(xs, group, key)
    ensures var r := ServerHello(e, h);
            && r.phase == WaitHs && r.k.keys == Keys(group, key, e.hash(h.k.transcript)) && r.f.rdOn && r.f.wrOn
            && r.out == h.out && r.k.transcript == h.k.transcript
  {
    HelloSays(e, h, random, session, xs, []);
    AgreeableHeard(xs, NOTHING_SAID, group, key);
  }

  /** The group of the last key share, and the last key that one had. */
  ghost predicate Shares(xs: seq<Ext>, group: u16, key: seq<u8>)
  {
    && (exists i :: 0 <= i < |xs| && LastShare(xs, i) && At16(xs[i].body, 0) == group)
    && (exists i :: 0 <= i < |xs| && LastKey(xs, i) && xs[i].body[4..] == key && At16(xs[i].body, 2) == |key|)
  }

  ghost predicate LastShare(xs: seq<Ext>, i: nat)
    requires i < |xs|
  {
    xs[i].kind == 51 && |xs[i].body| >= 2 && forall j :: i < j < |xs| ==> xs[j].kind != 51
  }

  ghost predicate LastKey(xs: seq<Ext>, i: nat)
    requires i < |xs|
  {
    xs[i].kind == 51 && |xs[i].body| >= 4 && forall j :: i < j < |xs| && xs[j].kind == 51 ==> |xs[j].body| == 2
  }

  /** Where these are, if anywhere, and what was heard of them. */
  lemma {:induction false} HeardLast(xs: seq<Ext>, y: Said) returns (i: int, j: int)
    requires y.error == NoError && HeedAll(y, xs).error == NoError
    ensures -1 <= i < |xs| && -1 <= j < |xs|
    ensures var z := HeedAll(y, xs);
            && (if i >= 0 then LastShare(xs, i) && z.group == At16(xs[i].body, 0)
                else z.group == y.group && forall k :: 0 <= k < |xs| ==> xs[k].kind != 51)
            && (if j >= 0 then LastKey(xs, j) && z.key == xs[j].body[4..] && |z.key| == At16(xs[j].body, 2)
                else z.key == y.key && forall k :: 0 <= k < |xs| && xs[k].kind == 51 ==> |xs[k].body| == 2)
    decreases |xs|
  {
    i, j := -1, -1;
    if xs != [] {
      var ys := xs[1..];
      i, j := HeardLast(ys, Heed(y, xs[0]));
      assert forall k :: 1 <= k < |xs| ==> xs[k] == ys[k - 1];
      i := if i >= 0 then i + 1 else if xs[0].kind == 51 then 0 else -1;
      j := if j >= 0 then j + 1 else if xs[0].kind == 51 && |xs[0].body| > 2 then 0 else -1;
    }
  }

  /** The body of a ServerHello with this share. */
  ghost predicate HelloGives(body: seq<u8>, group: u16, key: seq<u8>)
  {
    exists random: seq<u8>, session: seq<u8>, xs: seq<Ext>, rest: seq<u8> ::
      && |random| == 32 && |session| < 0x100 && Sized(xs) && |rest| < 4 && |ExtsBytes(xs) + rest| < 0x1_0000
      && body == ServerHelloBody(random, session, xs, rest) && Shares(xs, group, key)
  }

  lemma HelloListed(m: seq<u8>, x: Exts) returns (random: seq<u8>, session: seq<u8>, xs: seq<Ext>, rest: seq<u8>)
    requires HelloFixed(m).0 == NoError && x == ReadExtensions(m, HelloFixed(m).1, NOTHING_READ) && x.error == NoError
    ensures |random| == 32 && |session| < 0x100 && Sized(xs) && |rest| < 4 && |ExtsBytes(xs) + rest| < 0x1_0000
    ensures m == ServerHelloBody(random, session, xs, rest) && SaidBy(m, x) == HeedAll(NOTHING_SAID, xs)
  {
    xs, rest := ReadIsList(m, HelloFixed(m).1, NOTHING_READ);
    random, session := FixedIs(m, xs, rest);
    ListRead(m, HelloFixed(m).1, xs, rest, NOTHING_READ);
    assert m[0..0] == [];
  }

  lemma HelloShares(m: seq<u8>, x: Exts)
    requires HelloFixed(m).0 == NoError && x == ReadExtensions(m, HelloFixed(m).1, NOTHING_READ) && x.error == NoError
    requires x.shareLen > 0
    ensures HelloGives(m, x.group, m[x.shareAt..x.shareAt + x.shareLen as nat])
  {
    var random, session, xs, rest := HelloListed(m, x);
    var i, j := HeardLast(xs, NOTHING_SAID);
    assert SaidBy(m, x).key != [];
    assert Shares(xs, x.group, m[x.shareAt..x.shareAt + x.shareLen as nat]);
  }

  lemma UpIs(e: Env, h: Hs) returns (x: Exts)
    requires h.m.len <= MSG_MAX && h.phase == WaitSh && ServerHello(e, h).phase == WaitHs
    ensures var m := h.m.buf[..h.m.len];
            && HelloFixed(m).0 == NoError && x == ReadExtensions(m, HelloFixed(m).1, NOTHING_READ) && x.error == NoError
            && var key := m[x.shareAt..x.shareAt + x.shareLen as nat];
               x.shareLen > 0 && Wanted(e, x.group, key) && ServerHello(e, h) == KeysUp(e, h, x.group, key)
  {
    var m := h.m.buf[..h.m.len];
    x := ReadExtensions(m, HelloFixed(m).1, NOTHING_READ);
  }

  /** Keys come up from no other message: it is a ServerHello, and has the share they come from. */
  lemma HelloGave(e: Env, h: Hs)
    requires h.m.len <= MSG_MAX && h.phase == WaitSh && ServerHello(e, h).phase == WaitHs
    ensures var k := ServerHello(e, h).k.keys;
            && k.Keys? && k.hash == e.hash(h.k.transcript) && Wanted(e, k.group, k.share)
            && HelloGives(h.m.buf[..h.m.len], k.group, k.share) && ServerHello(e, h) == KeysUp(e, h, k.group, k.share)
  {
    var x := UpIs(e, h);
    HelloShares(h.m.buf[..h.m.len], x);
  }

  // ---- ClientHello (section 4.1.2) -----------------------------------------------------------------------------

  /** This client's extensions: the server's name, the groups, the signature schemes, TLS 1.3, and its share. */
  ghost function ClientExts(sni: seq<u8>, group: u16, pub: seq<u8>): seq<Ext>
    requires |sni| < 0xfe00 && |pub| < 0x100
  {
    [Ext(0, Vec16([0] + Vec16(sni))),
     Ext(10, Vec16(Pair(0x1d) + Pair(0x17))),
     Ext(13, Vec16(Pair(0x403) + Pair(0x804) + Pair(0x807) + Pair(0x503) + Pair(0x603))),
     Ext(43, Vec8([3, 4])),
     Ext(51, Vec16(Share(group, pub)))]
  }

  ghost function ClientHelloBody(random: seq<u8>, exts: seq<u8>): seq<u8>
    requires |exts| < 0x1_0000
  {
    [3, 3] + random + Vec8([]) + Vec16([0x13, 3]) + Vec8([0]) + Vec16(exts)
  }

  lemma ExtsFrom(xs: seq<Ext>, k: nat)
    requires Sized(xs) && k < |xs|
    ensures ExtsBytes(xs[k..]) == ExtBytes(xs[k]) + ExtsBytes(xs[k + 1..])
  {
    assert xs[k..][1..] == xs[k + 1..];
  }

  lemma Regroup(a: seq<u8>, b: seq<u8>, c: seq<u8>, d: seq<u8>, e: seq<u8>)
    ensures a + (b + (c + (d + e))) == a + b + c + d + e
  {
  }

  lemma FiveExts(xs: seq<Ext>)
    requires |xs| == 5 && Sized(xs)
    ensures ExtsBytes(xs) == ExtBytes(xs[0]) + ExtBytes(xs[1]) + ExtBytes(xs[2]) + ExtBytes(xs[3]) + ExtBytes(xs[4])
  {
    ExtsFrom(xs, 0);
    ExtsFrom(xs, 1);
    ExtsFrom(xs, 2);
    ExtsFrom(xs, 3);
    ExtsFrom(xs, 4);
    assert xs[0..] == xs && ExtsBytes(xs[5..]) == [];
    Regroup(ExtBytes(xs[0]), ExtBytes(xs[1]), ExtBytes(xs[2]), ExtBytes(xs[3]), ExtBytes(xs[4]));
  }

  lemma U16Is(n: u16)
    ensures U16(n) == Pair(n)
  {
  }

  lemma NameIs(sni: seq<u8>)
    requires |sni| < 0xfe00
    ensures [0, 0] + U16(|sni| + 5) + U16(|sni| + 3) + [0] + U16(|sni|) + sni
            == ExtBytes(Ext(0, Vec16([0] + Vec16(sni))))
  {
  }

  lemma ShareIs(group: u16, pub: seq<u8>)
    requires |pub| < 0x100
    ensures [0, 51] + U16(|pub| + 6) + U16(|pub| + 4) + U16(group) + U16(|pub|) + pub
            == ExtBytes(Ext(51, Vec16(Share(group, pub))))
  {
    U16Is(|pub| + 6);
    U16Is(|pub| + 4);
    U16Is(group);
    U16Is(|pub|);
    var share := Share(group, pub);
    assert share == Pair(group) + Pair(|pub|) + pub && |share| == |pub| + 4;
    assert ExtBytes(Ext(51, Vec16(share))) == Pair(51) + Pair(|pub| + 6) + (Pair(|pub| + 4) + share);
  }

  lemma FixedExts()
    ensures [0, 10, 0, 6, 0, 4, 0, 0x1d, 0, 0x17] == ExtBytes(Ext(10, Vec16(Pair(0x1d) + Pair(0x17))))
    ensures [0, 13, 0, 12, 0, 10, 4, 3, 8, 4, 8, 7, 5, 3, 6, 3]
            == ExtBytes(Ext(13, Vec16(Pair(0x403) + Pair(0x804) + Pair(0x807) + Pair(0x503) + Pair(0x603))))
    ensures [0, 43, 0, 3, 2, 3, 4] == ExtBytes(Ext(43, Vec8([3, 4])))
  {
  }

  lemma ClientExtsSized(sni: seq<u8>, group: u16, pub: seq<u8>)
    requires |sni| < 0xfe00 && |pub| < 0x100
    ensures Sized(ClientExts(sni, group, pub))
  {
  }

  lemma HelloWhole(random: seq<u8>, exts: seq<u8>, body: seq<u8>)
    requires |random| == 32 && |exts| < 0xff80
    requires body == [3, 3] + random + [0, 0, 2, 0x13, 3, 1, 0] + U16(|exts|) + exts
    ensures [1, 0] + U16(|body|) + body == [1] + Vec24(ClientHelloBody(random, exts))
  {
    assert body == ClientHelloBody(random, exts);
  }

  /** The hello this client sends is that message: all its lengths, which the code adds up by hand, are right. */
  lemma HelloIs(random: seq<u8>, sni: seq<u8>, group: u16, pub: seq<u8>)
    requires |random| == 32 && |sni| < 0xfe00 && |pub| < 0x100
    ensures Sized(ClientExts(sni, group, pub)) && |ExtsBytes(ClientExts(sni, group, pub))| < 0xff80
    ensures Hello(random, sni, group, pub)
            == [1] + Vec24(ClientHelloBody(random, ExtsBytes(ClientExts(sni, group, pub))))
  {
    var xs := ClientExts(sni, group, pub);
    ClientExtsSized(sni, group, pub);
    FiveExts(xs);
    NameIs(sni);
    ShareIs(group, pub);
    FixedExts();
    var exts := ExtsBytes(xs);
    HelloWhole(random, exts, [3, 3] + random + [0, 0, 2, 0x13, 3, 1, 0] + U16(|exts|) + exts);
  }

  lemma HelloLength(random: seq<u8>, sni: seq<u8>, group: u16, pub: seq<u8>)
    ensures |Hello(random, sni, group, pub)| == 67 + |random| + |sni| + |pub|
  {
  }

  /** A connection starts if and only if the out buffer has room for 200 bytes and the name, which is enough for its
      first record: the hello. */
  lemma StartSends(e: Env)
    requires |e.rnd| == 32 && |e.pub| == 32 && |e.sni| < 0xfe00
    ensures |Hello(e.rnd, e.sni, 0x1d, e.pub)| == 131 + |e.sni|
    ensures var hello, h := Hello(e.rnd, e.sni, 0x1d, e.pub), Start(e);
            if e.outCap >= 200 + |e.sni| then
              h.phase == WaitSh && h.out == [22, 3, 1] + Vec16(hello) && h.k.transcript == hello
            else h.phase == Idle && h.out == []
  {
    var hello := Hello(e.rnd, e.sni, 0x1d, e.pub);
    HelloLength(e.rnd, e.sni, 0x1d, e.pub);
    U16Is(|hello|);
    assert HelloRecord(hello) == [22, 3, 1] + Vec16(hello);
  }

  // ---- Certificate (section 4.4.2) -----------------------------------------------------------------------------

  /** A certificate and its extensions. */
  datatype Entry = Entry(cert: seq<u8>, exts: seq<u8>)

  ghost predicate EntriesFit(es: seq<Entry>)
  {
    forall i :: 0 <= i < |es| ==> 0 < |es[i].cert| < 0x100_0000 && |es[i].exts| < 0x1_0000
  }

  ghost function EntryBytes(x: Entry): seq<u8>
    requires |x.cert| < 0x100_0000 && |x.exts| < 0x1_0000
  {
    Vec24(x.cert) + Vec16(x.exts)
  }

  ghost function EntriesBytes(es: seq<Entry>): seq<u8>
    requires EntriesFit(es)
  {
    if es == [] then [] else EntriesBytes(es[..|es| - 1]) + EntryBytes(es[|es| - 1])
  }

  /** The certificates, in order. */
  function CertList(es: seq<Entry>): (cs: seq<seq<u8>>)
    ensures |cs| == |es|
  {
    seq(|es|, i requires 0 <= i < |es| => es[i].cert)
  }

  /** Between two entries; the last one's extensions may have been empty. */
  ghost predicate Between(c: Cert)
  {
    && c.error == NoError && c.lenbuf == []
    && (c.phase == EntryLength || (c.phase == Extensions && c.extLeft == 0))
  }

  /** The number of the entry that comes. */
  function Coming(c: Cert): nat
  {
    if c.phase == Extensions then (c.index + 1) % 0x100 else c.index
  }

  lemma Three(cap: nat, c: Cert, x: u8, y: u8, z: u8)
    requires c.error == NoError && c.lenbuf == [] && (c.phase == EntryLength || c.phase == ListLength)
    ensures CertRun(cap, c, [x, y, z]) == CertByte(cap, c.(lenbuf := [x, y]), z)
  {
    var p := [x, y, z];
    assert p[1..] == [y, z] && p[1..][1..] == [z] && p[1..][1..][1..] == [];
    var d := CertByte(cap, c, x);
    assert d == c.(lenbuf := [x]) && CertByte(cap, d, y) == c.(lenbuf := [x, y]);
    assert CertRun(cap, c, p) == CertRun(cap, d, [y, z]) == CertRun(cap, CertByte(cap, d, y), [z]);
  }

  /** Three bytes of a length are the length. */
  lemma LengthRead(x: seq<u8>)
    requires |x| < 0x100_0000
    ensures var n := |x|; Length3([n / 0x1_0000, n % 0x1_0000 / 0x100, n % 0x1_0000 % 0x100]) == n
    ensures |x| < 0x1_0000 ==> Length2([|x| / 0x100, |x| % 0x100]) == |x|
  {
  }

  lemma CertBegins(cap: nat, c: Cert, cert: seq<u8>)
    requires Between(c) && 0 < |cert| < 0x100_0000
    ensures var n := |cert|; var r := CertRun(cap, c, [n / 0x1_0000, n % 0x1_0000 / 0x100, n % 0x1_0000 % 0x100]);
            && r.phase == CertPhase.Der && r.left == n && r.error == NoError && r.lenbuf == [] && r.store == c.store
            && r.index as nat == Coming(c) && r.leafLen == if Coming(c) == 0 then Least(n, 0xffff) else c.leafLen
  {
    var n := |cert|;
    var p := [n / 0x1_0000, n % 0x1_0000 / 0x100, n % 0x1_0000 % 0x100];
    LengthRead(cert);
    LeaveEmpty(cap, c, p);
    var d := if c.phase == Extensions then NextEntry(c) else c;
    Three(cap, d, p[0], p[1], p[2]);
    assert [p[0], p[1]] + [p[2]] == p;
  }

  lemma ExtsBegin(cap: nat, c: Cert, exts: seq<u8>)
    requires c.phase == ExtLength && c.error == NoError && c.lenbuf == [] && |exts| < 0x1_0000
    ensures CertRun(cap, c, Pair(|exts|)) == c.(lenbuf := [], phase := Extensions, extLeft := |exts|)
  {
    LengthRead(exts);
    var p := Pair(|exts|);
    assert p[1..] == [p[1]] && p[1..][1..] == [];
    var d := CertByte(cap, c, p[0]);
    assert d == c.(lenbuf := [p[0]]) && [p[0]] + [p[1]] == p;
    assert CertRun(cap, c, p) == CertRun(cap, d, [p[1]]) == CertByte(cap, d, p[1]);
  }

  /** One entry: its certificate goes to the store. */
  lemma EntryRun(cap: nat, c: Cert, x: Entry)
    requires Between(c) && 0 < |x.cert| < 0x100_0000 && |x.exts| < 0x1_0000
    ensures var r := CertRun(cap, c, EntryBytes(x));
            && Between(r) && r.store == Kept(cap, c.store, x.cert) && Coming(r) == (Coming(c) + 1) % 0x100
            && r.leafLen == if Coming(c) == 0 then Least(|x.cert|, 0xffff) else c.leafLen
  {
    var n := |x.cert|;
    var p, q := [n / 0x1_0000, n % 0x1_0000 / 0x100, n % 0x1_0000 % 0x100], Pair(|x.exts|);
    assert EntryBytes(x) == p + (x.cert + (q + x.exts));
    CertBegins(cap, c, x.cert);
    CertRunSplit(cap, c, p, x.cert + (q + x.exts));
    var d := CertRun(cap, c, p);
    CertRunSplit(cap, d, x.cert, q + x.exts);
    DerRun(cap, d, x.cert);
    var e := DerPiece(cap, d, x.cert);
    CertRunSplit(cap, e, q, x.exts);
    ExtsBegin(cap, e, x.exts);
    if x.exts != [] {
      ExtRun(cap, CertRun(cap, e, q), x.exts);
    }
  }

  /** The entry whose length is kept as the leaf's: the entries are counted in eight bits, and each that is numbered zero
      is taken for the first. */
  function Noted(n: nat): (i: nat)
    requires n > 0
    ensures i < n
  {
    (n - 1) / 0x100 * 0x100
  }

  /** The state after some entries: their certificates end to end. */
  ghost predicate Through(cap: nat, es: seq<Entry>, r: Cert)
  {
    && Between(r) && r.store == Kept(cap, [], Flatten(CertList(es))) && Coming(r) == |es| % 0x100
    && (es != [] ==> r.leafLen == Least(|es[Noted(|es|)].cert|, 0xffff))
  }

  lemma {:induction false} EntriesRun(cap: nat, c: Cert, es: seq<Entry>)
    requires Between(c) && EntriesFit(es) && Coming(c) == 0 && c.store == []
    ensures Through(cap, es, CertRun(cap, c, EntriesBytes(es)))
    decreases |es|
  {
    if es == [] {
      NoEntries(cap, c);
    } else {
      var n := |es| - 1;
      EntriesRun(cap, c, es[..n]);
      EntriesSplit(cap, c, es);
      EntryThrough(cap, es, CertRun(cap, c, EntriesBytes(es[..n])));
    }
  }

  lemma NoEntries(cap: nat, c: Cert)
    requires Between(c) && Coming(c) == 0 && c.store == []
    ensures Through(cap, [], CertRun(cap, c, EntriesBytes([])))
  {
  }

  lemma EntriesSplit(cap: nat, c: Cert, es: seq<Entry>)
    requires EntriesFit(es) && es != []
    ensures var n := |es| - 1;
            CertRun(cap, c, EntriesBytes(es)) == CertRun(cap, CertRun(cap, c, EntriesBytes(es[..n])), EntryBytes(es[n]))
  {
    var n := |es| - 1;
    CertRunSplit(cap, c, EntriesBytes(es[..n]), EntryBytes(es[n]));
  }

  lemma EntryThrough(cap: nat, es: seq<Entry>, d: Cert)
    requires es != [] && EntriesFit(es) && Through(cap, es[..|es| - 1], d)
    ensures Through(cap, es, CertRun(cap, d, EntryBytes(es[|es| - 1])))
  {
    var n := |es| - 1;
    EntryRun(cap, d, es[n]);
    OneMore(cap, es);
    assert if n % 0x100 == 0 then Noted(n + 1) == n else Noted(n + 1) == Noted(n) < n;
  }

  lemma OneMore(cap: nat, es: seq<Entry>)
    requires es != []
    ensures var n := |es| - 1;
            && Kept(cap, Kept(cap, [], Flatten(CertList(es[..n]))), es[n].cert) == Kept(cap, [], Flatten(CertList(es)))
            && (n % 0x100 + 1) % 0x100 == |es| % 0x100
  {
    var n := |es| - 1;
    assert CertList(es)[..n] == CertList(es[..n]);
    KeptAppend(cap, [], Flatten(CertList(es[..n])), es[n].cert);
  }

  ghost function CertificateBody(es: seq<Entry>): seq<u8>
    requires EntriesFit(es) && |EntriesBytes(es)| < 0x100_0000
  {
    Vec8([]) + Vec24(EntriesBytes(es))
  }

  /** A whole body: the store is its certificates end to end, as far as it holds. */
  lemma CertificateStored(cap: nat, c0: Cert, es: seq<Entry>)
    requires EntriesFit(es) && es != [] && |EntriesBytes(es)| < 0x100_0000
    ensures var r := CertRun(cap, FreshCert(c0), CertificateBody(es));
            && r.error == NoError && r.leafLen == Least(|es[Noted(|es|)].cert|, 0xffff)
            && var all := Flatten(CertList(es)); r.store == all[..Least(cap, |all|)]
  {
    var c, b := FreshCert(c0), EntriesBytes(es);
    var n := |b|;
    var p := [n / 0x1_0000, n % 0x1_0000 / 0x100, n % 0x1_0000 % 0x100];
    assert CertificateBody(es) == [0] + (p + b);
    CertRunSplit(cap, c, [0], p + b);
    var d := c.(phase := ListLength, lenbuf := []);
    assert CertRun(cap, c, [0]) == d by {
      assert [0][1..] == [];
    }
    CertRunSplit(cap, d, p, b);
    LengthRead(b);
    Three(cap, d, p[0], p[1], p[2]);
    assert [p[0], p[1]] + [p[2]] == p;
    EntriesRun(cap, CertRun(cap, d, p), es);
  }

  // ---- CertificateRequest, CertificateVerify and the client's Certificate (sections 4.3.2, 4.4.2, 4.4.3) ------------

  lemma SliceOf(s: seq<u8>, n: nat, i: nat, j: nat)
    requires i <= j <= n <= |s|
    ensures s[..n][i..j] == s[i..j]
  {
  }

  /** A request's context is kept, and refused only if it is longer than 32 bytes. */
  lemma RequestRead(h: Hs, context: seq<u8>, rest: seq<u8>)
    requires |context| < 0x100 && Bodied(h, Vec8(context) + rest)
    ensures var r := CertRequest(h);
            if |context| <= 32 then r.phase == h.phase && r.f == h.f.(certRequested := true, reqCtx := context)
            else r == Fail(h, BadMessage)
  {
    var b := Vec8(context) + rest;
    var n := h.m.len;
    assert h.m.buf[0] == h.m.buf[..n][0] == b[0] == |context|;
    if |context| <= 32 {
      SliceOf(h.m.buf, n, 1, 1 + |context|);
      assert b[1..1 + |context|] == context;
    }
  }

  /** And what the client answers is an empty Certificate with that context. */
  lemma AnswerIs(f: Flags)
    ensures EmptyCertificate(f) ==
            if f.certRequested then [HS_CERTIFICATE] + Vec24(Vec8(f.reqCtx) + Vec24([])) else []
  {
  }

  /** A CertificateVerify is read as its scheme and the length of its signature; anything else is refused. */
  lemma VerifyRead(h: Hs, scheme: u16, sig: seq<u8>)
    requires |sig| < 0x1_0000 && Bodied(h, Pair(scheme) + Vec16(sig))
    ensures CertVerify(h) == h.(f := h.f.(sigScheme := scheme, cvSeen := true))
    ensures At16(h.m.buf, 2) == |sig| && h.m.buf[4..4 + |sig|] == sig
  {
    var b, n := Pair(scheme) + Vec16(sig), h.m.len;
    assert h.m.buf[0] == h.m.buf[..n][0] == b[0] && h.m.buf[1] == h.m.buf[..n][1] == b[1];
    assert h.m.buf[2] == h.m.buf[..n][2] == b[2] && h.m.buf[3] == h.m.buf[..n][3] == b[3];
    assert h.m.buf[4..4 + |sig|] == h.m.buf[..n][4..] == b[4..];
  }

  lemma VerifyIs(h: Hs)
    requires h.m.len <= MSG_MAX && h.phase != Failed && CertVerify(h).phase != Failed
    ensures var n := h.m.len;
            n >= 4 && h.m.buf[..n] == Pair(CertVerify(h).f.sigScheme) + Vec16(h.m.buf[4..n])
  {
    var n := h.m.len;
    assert h.m.buf[..n] == h.m.buf[..2] + h.m.buf[2..4] + h.m.buf[4..n];
    assert h.m.buf[..2] == Pair(At16(h.m.buf, 0)) && h.m.buf[2..4] == Pair(At16(h.m.buf, 2));
  }

  // ---- whole messages ------------------------------------------------------------------------------------------

  /** The messages that may come, with their lengths: a ServerHello (type 2), and once that is taken
      EncryptedExtensions (8), Certificate (11), CertificateRequest (13), CertificateVerify (15) and Finished (20), in
      any order and number. */
  predicate Timely(p: Phase, kind: u8, n: nat)
  {
    || (p == WaitSh && kind == 2 && n <= 528)
    || (p == WaitHs && (kind == 11 || ((kind == 8 || kind == 13 || kind == 15) && n <= 528) || (kind == 20 && n == 32)))
  }

  /** One of them comes; a Finished is TlsKeySwitch.RightFinished. */
  ghost predicate Comes(h: Hs, kind: u8, body: seq<u8>)
  {
    && HsOk(h) && h.phase != Failed && h.m.pos == 0 && Timely(h.phase, kind, |body|) && 0 < |body| < 0x100_0000
    && kind != HS_FINISHED
  }

  lemma FramingByte(e: Env, h: Hs, b: u8)
    requires HsOk(h) && h.phase != Failed && h.m.pos < 3
    ensures var r := HsByte(e, h, b);
            && HsOk(r) && r.phase == h.phase && r.m.pos == h.m.pos + 1
            && if h.m.pos == 0 then r.m.kind == b && r.m.len == 0
               else r.m.kind == h.m.kind && r.m.len == h.m.len * 0x100 + b
  {
  }

  /** Any other is refused by its header. */
  lemma MessageRefused(e: Env, h: Hs, kind: u8, n: nat)
    requires HsOk(h) && h.phase != Failed && h.m.pos == 0 && n < 0x100_0000 && !Timely(h.phase, kind, n)
    ensures var r := HsRun(e, h, [kind, n / 0x1_0000] + Pair(n % 0x1_0000)); r.phase == Failed && r.error == BadMessage
  {
    var p := [kind, n / 0x1_0000] + Pair(n % 0x1_0000);
    RunFour(e, h, p);
    FramingByte(e, h, p[0]);
    var h1 := HsByte(e, h, p[0]);
    FramingByte(e, h1, p[1]);
    var h2 := HsByte(e, h1, p[1]);
    FramingByte(e, h2, p[2]);
    RefusedByte(e, HsByte(e, h2, p[2]), p[3]);
  }

  lemma RefusedByte(e: Env, h: Hs, b: u8)
    requires HsOk(h) && h.phase != Failed && h.m.pos == 3 && !Timely(h.phase, h.m.kind, h.m.len * 0x100 + b)
    ensures HsByte(e, h, b).phase == Failed && HsByte(e, h, b).error == BadMessage
  {
  }

  lemma HeaderByte(e: Env, h: Hs, b: u8)
    requires HsOk(h) && h.phase != Failed && h.m.pos < 3
    requires if h.m.pos == 0 then b != HS_FINISHED else h.m.kind != HS_FINISHED
    ensures var r := HsByte(e, h, b);
            && HsOk(r) && r.phase == h.phase && r.f == h.f && r.out == h.out && r.k.keys == h.k.keys
            && r.k.transcript == h.k.transcript + [b] && r.m.buf == h.m.buf && r.m.pos == h.m.pos + 1
            && r.m.cert == h.m.cert
            && if h.m.pos == 0 then r.m.kind == b && r.m.len == 0
               else r.m.kind == h.m.kind && r.m.len == h.m.len * 0x100 + b
  {
  }

  /** The message's header, as its three length bytes say. */
  lemma MessageBegins(e: Env, h: Hs, kind: u8, body: seq<u8>) returns (head: seq<u8>, r: Hs)
    requires Comes(h, kind, body)
    ensures head + body == [kind] + Vec24(body) && r == HsRun(e, h, head) && HsOk(r)
    ensures r.phase == h.phase && r.f == h.f && r.out == h.out
    ensures r.k.keys == h.k.keys && r.k.transcript == h.k.transcript + head && r.m.buf == h.m.buf
    ensures r.m.pos == 4 && r.m.len == |body| && r.m.kind == kind && r.m.whole == WholeOf(kind) && BodyOk(r.m)
    ensures kind == HS_CERTIFICATE ==> r.m.cert == FreshCert(h.m.cert)
  {
    var n := |body|;
    head := [kind, n / 0x1_0000, n % 0x1_0000 / 0x100, n % 0x1_0000 % 0x100];
    LengthRead(body);
    RunFour(e, h, head);
    var h3 := ThreeBytes(e, h, head[0], head[1], head[2]);
    r := HsByte(e, h3, head[3]);
    LastHeaderByte(e, h3, head[3]);
    FourAppended(h.k.transcript, head);
  }

  lemma ThreeBytes(e: Env, h: Hs, kind: u8, x: u8, y: u8) returns (r: Hs)
    requires HsOk(h) && h.phase != Failed && h.m.pos == 0 && kind != HS_FINISHED
    ensures HsOk(HsByte(e, h, kind)) && HsOk(HsByte(e, HsByte(e, h, kind), x))
    ensures r == HsByte(e, HsByte(e, HsByte(e, h, kind), x), y)
    ensures HsOk(r) && r.phase == h.phase && r.f == h.f && r.out == h.out && r.k.keys == h.k.keys && r.m.buf == h.m.buf
    ensures r.k.transcript == h.k.transcript + [kind] + [x] + [y]
    ensures r.m.pos == 3 && r.m.kind == kind && r.m.len == x as int * 0x100 + y && r.m.cert == h.m.cert
  {
    HeaderByte(e, h, kind);
    var h1 := HsByte(e, h, kind);
    HeaderByte(e, h1, x);
    var h2 := HsByte(e, h1, x);
    HeaderByte(e, h2, y);
    r := HsByte(e, h2, y);
  }

  lemma FourAppended(t: seq<u8>, p: seq<u8>)
    requires |p| == 4
    ensures t + [p[0]] + [p[1]] + [p[2]] + [p[3]] == t + p
  {
  }

  lemma RunFour(e: Env, h: Hs, p: seq<u8>)
    requires HsOk(h) && |p| == 4
    ensures HsRun(e, h, p) == HsByte(e, HsByte(e, HsByte(e, HsByte(e, h, p[0]), p[1]), p[2]), p[3])
  {
    RunOne(e, h, p);
    RunOne(e, HsByte(e, h, p[0]), p[1..]);
    RunOne(e, HsByte(e, HsByte(e, h, p[0]), p[1]), p[2..]);
    RunOne(e, HsByte(e, HsByte(e, HsByte(e, h, p[0]), p[1]), p[2]), p[3..]);
    assert p[1..][1..] == p[2..] && p[2..][1..] == p[3..] && p[3..][1..] == [];
  }

  lemma RunOne(e: Env, h: Hs, p: seq<u8>)
    requires HsOk(h) && p != []
    ensures HsRun(e, h, p) == HsRun(e, HsByte(e, h, p[0]), p[1..])
  {
  }

  lemma LastHeaderByte(e: Env, h: Hs, b: u8)
    requires HsOk(h) && h.phase != Failed && h.m.pos == 3 && h.m.kind != HS_FINISHED
    requires 0 < h.m.len * 0x100 + b && Timely(h.phase, h.m.kind, h.m.len * 0x100 + b)
    ensures var r := HsByte(e, h, b);
            && HsOk(r) && r.phase == h.phase && r.f == h.f && r.out == h.out && r.k.keys == h.k.keys
            && r.k.transcript == h.k.transcript + [b] && r.m.buf == h.m.buf && r.m.pos == 4
            && r.m.kind == h.m.kind && r.m.len == h.m.len * 0x100 + b && r.m.whole == WholeOf(h.m.kind) && BodyOk(r.m)
            && (h.m.kind == HS_CERTIFICATE ==> r.m.cert == FreshCert(h.m.cert))
  {
  }

  /** A whole message is its body read, and what its end does. */
  lemma MessageRun(e: Env, h: Hs, kind: u8, body: seq<u8>) returns (r: Hs)
    requires Comes(h, kind, body)
    ensures BodyOk(r.m) && r.m.pos == 4 && r.m.len == |body| && r.m.kind == kind && r.phase == h.phase && r.f == h.f
    ensures r.k.keys == h.k.keys && r.k.transcript + body == h.k.transcript + ([kind] + Vec24(body)) && r.out == h.out
    ensures kind == HS_CERTIFICATE ==> r.m.cert == FreshCert(h.m.cert)
    ensures SameHs(Finish(e, Body(e, r, body)), HsRun(e, h, [kind] + Vec24(body)))
  {
    var head;
    head, r := MessageBegins(e, h, kind, body);
    HsRunSplit(e, h, head, body);
    BodyRun(e, r, body);
    Associate(h.k.transcript, head, body);
  }

  /** A Certificate message taken: the kit's store holds its certificates end to end, as der.c expects them, and the
      length of the leaf, the first, is kept if there are no more than 256. */
  lemma CertificateTaken(e: Env, h: Hs, es: seq<Entry>)
    requires EntriesFit(es) && es != [] && |EntriesBytes(es)| < 0xff_fff0 && h.phase == WaitHs
    requires Comes(h, HS_CERTIFICATE, CertificateBody(es))
    ensures var r := HsRun(e, h, [HS_CERTIFICATE] + Vec24(CertificateBody(es)));
            && r.phase == WaitHs && r.m.cert.leafLen == Least(|es[Noted(|es|)].cert|, 0xffff)
            && var all := Flatten(CertList(es)); r.m.cert.store == all[..Least(e.certCap, |all|)]
  {
    var r := MessageRun(e, h, HS_CERTIFICATE, CertificateBody(es));
    CertificateStored(e.certCap, h.m.cert, es);
  }

  /** A ServerHello message taken, as HelloTaken has it: the keys are over the transcript with it. */
  lemma ServerHelloTaken(e: Env, h: Hs, random: seq<u8>, session: seq<u8>, xs: seq<Ext>, group: u16, key: seq<u8>)
    requires |random| == 32 && |session| < 0x100 && Sized(xs) && |ExtsBytes(xs)| < 0x1_0000 && h.phase == WaitSh
    requires Comes(h, HS_SERVER_HELLO, ServerHelloBody(random, session, xs, [])) && random[..8] != RETRY
    requires Wanted(e, group, key) && Agreeable(xs, group, key)
    ensures var p := [HS_SERVER_HELLO] + Vec24(ServerHelloBody(random, session, xs, []));
            var r := HsRun(e, h, p);
            r.phase == WaitHs && r.k.keys == Keys(group, key, e.hash(h.k.transcript + p)) && r.f.rdOn && r.f.wrOn
  {
    var body := ServerHelloBody(random, session, xs, []);
    var r := MessageRun(e, h, HS_SERVER_HELLO, body);
    var s := Body(e, r, body);
    assert s.m.buf[..|body|] == body;
    HelloTaken(e, s, random, session, xs, group, key);
  }

  lemma {:induction false} CertStuck(cap: nat, c: Cert, p: seq<u8>)
    requires c.error != NoError
    ensures CertRun(cap, c, p) == c
    decreases |p|
  {
    if p != [] {
      CertStuck(cap, c, p[1..]);
    }
  }

  /** A Certificate message with a context, or without certificates, is refused. */
  lemma CertificateRefused(e: Env, h: Hs, body: seq<u8>)
    requires Comes(h, HS_CERTIFICATE, body) && |body| >= 4 && (body[0] != 0 || body[1..4] == [0, 0, 0])
    ensures var r := HsRun(e, h, [HS_CERTIFICATE] + Vec24(body));
            r.phase == Failed && r.error == if body[0] != 0 then BadMessage else BadCert
  {
    var r := MessageRun(e, h, HS_CERTIFICATE, body);
    var c := FreshCert(h.m.cert);
    var d := CertByte(e.certCap, c, body[0]);
    assert CertRun(e.certCap, c, body) == CertRun(e.certCap, d, body[1..]);
    if body[0] == 0 {
      assert body[1..] == [0, 0, 0] + body[4..];
      CertRunSplit(e.certCap, d, [0, 0, 0], body[4..]);
      Three(e.certCap, d, 0, 0, 0);
      CertStuck(e.certCap, CertRun(e.certCap, d, [0, 0, 0]), body[4..]);
    } else {
      CertStuck(e.certCap, d, body[1..]);
    }
  }

  /** EncryptedExtensions taken: only the transcript has them. */
  lemma ExtensionsTaken(e: Env, h: Hs, body: seq<u8>)
    requires h.phase == WaitHs && Comes(h, HS_ENCRYPTED_EXT, body)
    ensures var p := [HS_ENCRYPTED_EXT] + Vec24(body); var r := HsRun(e, h, p);
            && r.phase == WaitHs && r.f == h.f && r.out == h.out && r.k.keys == h.k.keys
            && r.k.transcript == h.k.transcript + p
  {
    var r := MessageRun(e, h, HS_ENCRYPTED_EXT, body);
  }

  /** A CertificateRequest taken: its context is kept. */
  lemma RequestTaken(e: Env, h: Hs, context: seq<u8>, rest: seq<u8>)
    requires |context| < 0x100 && |rest| < 0x1_0000 && h.phase == WaitHs
    requires Comes(h, HS_CERT_REQUEST, Vec8(context) + rest)
    ensures var r := HsRun(e, h, [HS_CERT_REQUEST] + Vec24(Vec8(context) + rest));
            if |context| <= 32 then r.phase == WaitHs && r.f == h.f.(certRequested := true, reqCtx := context)
            else r.phase == Failed && r.error == BadMessage
  {
    var body := Vec8(context) + rest;
    var r := MessageRun(e, h, HS_CERT_REQUEST, body);
    var s := Body(e, r, body);
    assert s.m.buf[..|body|] == body;
    RequestRead(s, context, rest);
  }

  /** A CertificateVerify taken: its scheme is kept, and its signature stays in the buffer, behind its length. */
  lemma VerifyTaken(e: Env, h: Hs, scheme: u16, sig: seq<u8>)
    requires |sig| <= 524 && h.phase == WaitHs && Comes(h, HS_CERT_VERIFY, Pair(scheme) + Vec16(sig))
    ensures var r := HsRun(e, h, [HS_CERT_VERIFY] + Vec24(Pair(scheme) + Vec16(sig)));
            && r.phase == WaitHs && r.f == h.f.(sigScheme := scheme, cvSeen := true)
            && r.m.buf[..4 + |sig|] == Pair(scheme) + Vec16(sig)
  {
    var body := Pair(scheme) + Vec16(sig);
    var r := MessageRun(e, h, HS_CERT_VERIFY, body);
    var s := Body(e, r, body);
    assert s.m.buf[..|body|] == body;
    VerifyRead(s, scheme, sig);
  }
}
