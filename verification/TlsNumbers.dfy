/** Under which keys and numbers records are sealed and opened (src/tls/tls.c): over whole runs, everything that is
    queued for the server, and no key with the same number twice. */
module TlsNumbers {
  import opened Words
  import opened Tls
  import opened TlsMessages
  import opened TlsPieces
  import opened TlsEngine
  import opened TlsRuns
  import opened TlsKeySwitch
  import opened TlsHistory

  /** Key i of a direction: the first a are of the handshake, each kind counted from zero. */
  function Number(k: Secrets, a: nat, i: nat): TrafficKey
  {
    if i < a then TrafficKey(k.keys, [], i) else TrafficKey(k.keys, k.master, i - a)
  }

  ghost predicate Numbered(k: Secrets, keys: seq<TrafficKey>, a: nat)
  {
    a <= |keys| && (a < |keys| ==> k.master != []) && forall i :: 0 <= i < |keys| ==> keys[i] == Number(k, a, i)
  }

  /** Then no number is used twice with a key. */
  lemma NeverTwice(k: Secrets, keys: seq<TrafficKey>, a: nat)
    requires Numbered(k, keys, a)
    ensures Distinct(keys)
  {
  }

  // ---- what is queued ------------------------------------------------------------------------------------------

  /** What the client sends: bytes in the clear, or a record sealed. */
  datatype Item = Clear(bytes: seq<u8>) | Record(key: TrafficKey, content: seq<u8>, inner: u8)

  ghost function ItemBytes(e: Env, x: Item): seq<u8>
  {
    match x
    case Clear(bytes) => bytes
    case Record(key, content, inner) =>
      var hdr := [23, 3, 3] + Pair((|content| + 17) % 0x1_0000);
      hdr + e.seal(key, hdr, content + [inner])
  }

  ghost function Wire(e: Env, items: seq<Item>): seq<u8>
  {
    if items == [] then [] else Wire(e, items[..|items| - 1]) + ItemBytes(e, items[|items| - 1])
  }

  /** The keys of the sealed ones, in order. */
  function Seals(items: seq<Item>): seq<TrafficKey>
  {
    if items == [] then []
    else Seals(items[..|items| - 1]) + if items[|items| - 1].Record? then [items[|items| - 1].key] else []
  }

  lemma OneMoreItem(e: Env, items: seq<Item>, q: seq<Item>)
    requires |q| <= 1
    ensures Wire(e, items + q) == Wire(e, items) + Wire(e, q) && Seals(items + q) == Seals(items) + Seals(q)
  {
    if q == [] {
      assert items + q == items;
    } else {
      assert (items + q)[..|items + q| - 1] == items && q[..0] == [];
    }
  }

  ghost function HelloItem(e: Env, group: u16, pub: seq<u8>): Item
  {
    var hello := Hello(e.rnd, e.sni, group, pub);
    Clear([22, 3, 1] + Pair(|hello| % 0x1_0000) + hello)
  }

  /** What a handshake byte may queue, and do to the keys: one record in answer to the Finished, after which the count
      begins again under the application keys; or the second hello. */
  ghost predicate Answers(e: Env, t: Hs, u: Hs, q: seq<Item>)
  {
    if t.phase == WaitHs && u.phase == Verifying then
      && |q| == 1 && q[0].Record? && q[0].key == TrafficKey(t.k.keys, t.k.master, t.k.wrCount) && q[0].inner == 22
      && u.k.keys == t.k.keys && u.k.wrCount == 0 && exists x :: u.k.master == e.hash(x)
    else
      && q == (if u.f.hrrDone && !t.f.hrrDone then [HelloItem(e, 0x17, e.pub256)] else [])
      && u.k.master == t.k.master && u.k.wrCount == t.k.wrCount
      && (u.k.keys == t.k.keys || (t.phase == WaitSh && u.phase == WaitHs))
  }

  lemma WireOne(e: Env, x: Item)
    ensures Wire(e, [x]) == ItemBytes(e, x)
  {
    assert [x][..0] == [];
  }

  lemma SealedIs(e: Env, key: TrafficKey, content: seq<u8>, inner: u8)
    ensures Wire(e, [Record(key, content, inner)]) == Sealed(e, key, content, inner)
  {
    WireOne(e, Record(key, content, inner));
    LengthIs(|content| + 17);
  }

  lemma LengthIs(n: nat)
    ensures Pair(n % 0x1_0000) == U16(n)
  {
    var q, r := n / 0x1_0000, n % 0x1_0000;
    assert n / 0x100 == 0x100 * q + r / 0x100;
    assert n % 0x100 == r % 0x100;
  }

  lemma HelloItemIs(e: Env, group: u16, pub: seq<u8>)
    ensures Wire(e, [HelloItem(e, group, pub)]) == HelloRecord(Hello(e.rnd, e.sni, group, pub))
  {
    WireOne(e, HelloItem(e, group, pub));
    LengthIs(|Hello(e.rnd, e.sni, group, pub)|);
  }

  lemma RetryAnswers(e: Env, h: Hs, m: seq<u8>, x: Exts)
    requires h.phase == WaitSh
    ensures var r := Retry(e, h, m, x);
            && (r.phase == WaitSh || r.phase == Failed) && r.k == h.k.(transcript := r.k.transcript)
            && r.out == h.out + if r.f.hrrDone && !h.f.hrrDone then Wire(e, [HelloItem(e, 0x17, e.pub256)]) else []
  {
    HelloItemIs(e, 0x17, e.pub256);
  }

  lemma HelloAnswers(e: Env, h: Hs) returns (q: seq<Item>)
    requires h.m.len <= MSG_MAX && h.phase == WaitSh
    ensures var r := ServerHello(e, h); Answers(e, h, r, q) && r.out == h.out + Wire(e, q)
  {
    var x, g, share := ServerHelloEnds(e, h);
    var r := ServerHello(e, h);
    RetryAnswers(e, h, h.m.buf[..h.m.len], x);
    q := if r.f.hrrDone && !h.f.hrrDone then [HelloItem(e, 0x17, e.pub256)] else [];
    assert Wire(e, []) == [];
  }

  lemma EndAnswers(e: Env, h: Hs) returns (q: seq<Item>)
    requires h.phase != Failed ==> BodyOk(h.m) && Expected(h.phase, h.m.kind)
    ensures var r := MsgEnd(e, h); Answers(e, h, r, q) && r.out == h.out + Wire(e, q)
  {
    q := [];
    if h.phase == WaitSh {
      q := HelloAnswers(e, h);
    } else if h.phase == WaitHs && MsgEnd(e, h).phase == Verifying {
      q := FinishedAnswers(e, h);
    }
  }

  lemma FinishedAnswers(e: Env, h: Hs) returns (q: seq<Item>)
    requires h.phase == WaitHs && BodyOk(h.m) && MsgEnd(e, h).phase == Verifying
    ensures var r := MsgEnd(e, h); Answers(e, h, r, q) && r.out == h.out + Wire(e, q)
  {
    var flight := Flight(e, h.f, h.k.keys, h.k.transcript + FINISHED_HEADER + h.m.fin);
    assert MsgEnd(e, h) == ServerFinished(e, h);
    q := [Record(WriteKey(h.k), flight, REC_HANDSHAKE)];
    SealedIs(e, WriteKey(h.k), flight, REC_HANDSHAKE);
  }

  /** Reading a byte queues nothing; only a message's end does. */
  lemma SteppedQuiet(e: Env, h: Hs, b: u8)
    requires HsOk(h) && h.phase != Failed
    ensures var r := Stepped(e, h, b);
            && r.out == h.out && r.f == h.f && (r.phase == h.phase || r.phase == Failed)
            && r.k.keys == h.k.keys && r.k.master == h.k.master && r.k.wrCount == h.k.wrCount
  {
  }

  lemma ByteAnswers(e: Env, h: Hs, b: u8) returns (q: seq<Item>)
    requires HsInv(e, h) && !Terminal(h.phase)
    ensures var r := HsByte(e, h, b); Answers(e, h, r, q) && r.out == h.out + Wire(e, q)
  {
    q := [];
    ByteIs(e, h, b);
    SteppedQuiet(e, h, b);
    var h1 := Stepped(e, h, b);
    if EndsMessage(h1.m) {
      q := EndAnswers(e, h1);
    }
  }

  /** What a step may queue: that, for a byte; for tls_write one record of the caller's bytes; for tls_close an alert,
      sealed once there are keys. */
  ghost predicate Queues(e: Env, t: Hs, u: Hs, s: Step, q: seq<Item>)
  {
    match s
    case Byte(b) => Answers(e, t, u, q)
    case WriteStep(p) =>
      && q == (if t.phase == Connected && t.f.wrOn && |t.out| + |p| + 22 <= e.outCap then
                 [Record(TrafficKey(t.k.keys, t.k.master, t.k.wrCount), p, 23)] else [])
      && u.k == t.k.(wrCount := t.k.wrCount + |q|)
    case CloseStep =>
      && q == (if t.phase != Connected && t.phase != Closed then []
               else if t.f.wrOn then
                 if |t.out| + 24 <= e.outCap then [Record(TrafficKey(t.k.keys, t.k.master, t.k.wrCount), [1, 0], 21)]
                 else []
               else if |t.out| + 7 <= e.outCap then [Clear([21, 3, 3, 0, 2, 1, 0])] else [])
      && u.k == t.k.(wrCount := t.k.wrCount + if t.f.wrOn then |q| else 0)
    case _ => q == [] && u.k == t.k
  }

  /** A step's bytes go behind what is there; what has been sent leaves from its front. */
  lemma StepSends(e: Env, t: Conn, s: Step) returns (q: seq<Item>)
    requires ConnOk(t) && HsInv(e, t.hs)
    ensures var u := Do(e, t, s);
            && Queues(e, t.hs, u.hs, s, q) && |q| <= 1
            && u.hs.out == if s.ConsumedStep? then t.hs.out[Least(s.n, |t.hs.out|)..] else t.hs.out + Wire(e, q)
  {
    q := [];
    match s
    case Byte(b) => q := FeedSends(e, t, b);
    case WriteStep(p) =>
      SealedIs(e, WriteKey(t.hs.k), p, REC_APPDATA);
      if Write(e, t.hs, p) != t.hs {
        q := [Record(WriteKey(t.hs.k), p, REC_APPDATA)];
      }
    case CloseStep => q := CloseSends(e, t.hs);
    case _ =>
  }

  lemma CloseSends(e: Env, h: Hs) returns (q: seq<Item>)
    ensures Queues(e, h, Close(e, h), CloseStep, q) && |q| <= 1 && Close(e, h).out == h.out + Wire(e, q)
  {
    q := [];
    SealedIs(e, WriteKey(h.k), [1, 0], REC_ALERT);
    if h.phase == Connected || h.phase == Closed {
      if h.f.wrOn {
        if |h.out| + 24 <= e.outCap {
          q := [Record(WriteKey(h.k), [1, 0], REC_ALERT)];
        }
      } else if |h.out| + 7 <= e.outCap {
        q := [Clear([21, 3, 3, 0, 2, 1, 0])];
        assert q[..0] == [];
      }
    }
  }

  lemma FeedSends(e: Env, t: Conn, b: u8) returns (q: seq<Item>)
    requires ConnOk(t) && HsInv(e, t.hs)
    ensures var u := Feed(e, t, b).hs;
            Answers(e, t.hs, u, q) && |q| <= 1 && u.out == t.hs.out + Wire(e, q)
  {
    q := [];
    if InRecord(t, 1) {
      if Encrypted(t) {
        q := EncSends(e, t, b);
      } else {
        q := PlainSends(e, t, b);
      }
    }
  }

  /** Nor does a record's end queue anything. */
  lemma EndQuiet(e: Env, t: Conn)
    requires HsOk(t.hs) && t.rec.pos <= t.rec.len && |t.rec.hdr| <= 5 && (Encrypted(t) ==> t.rec.len >= 17)
    ensures var h := Ended(e, t).hs;
            && h.out == t.hs.out && h.k == t.hs.k && h.f.hrrDone == t.hs.f.hrrDone
            && (h.phase == t.hs.phase || Terminal(h.phase))
  {
  }

  lemma EncSends(e: Env, t: Conn, b: u8) returns (q: seq<Item>)
    requires InRecord(t, 1) && Encrypted(t) && HsInv(e, t.hs)
    ensures var u := Ended(e, EncByte(e, t, b)).hs;
            Answers(e, t.hs, u, q) && |q| <= 1 && u.out == t.hs.out + Wire(e, q)
  {
    q := [];
    if t.rec.pos + 1 < t.rec.len - 16 && t.hs.phase != Connected {
      var d := e.plain(t.rec.openKey, t.rec.taken, b);
      EncHears(e, t, b);
      q := ByteAnswers(e, t.hs, d);
    } else {
      EncHearsNot(e, t, b);
      EndQuiet(e, EncByte(e, t, b));
    }
  }

  lemma EncHears(e: Env, t: Conn, b: u8)
    requires InRecord(t, 1) && Encrypted(t) && t.rec.pos + 1 < t.rec.len - 16 && t.hs.phase != Connected
    ensures Ended(e, EncByte(e, t, b)).hs == HsByte(e, t.hs, e.plain(t.rec.openKey, t.rec.taken, b))
  {
    var d := e.plain(t.rec.openKey, t.rec.taken, b);
    assert HsRun(e, t.hs, [d]) == HsByte(e, t.hs, d);
  }

  lemma EncHearsNot(e: Env, t: Conn, b: u8)
    requires InRecord(t, 1) && Encrypted(t) && (t.rec.pos + 1 >= t.rec.len - 16 || t.hs.phase == Connected)
    ensures EncByte(e, t, b).hs == t.hs && HsOk(t.hs) && SameRecord(t.rec, EncByte(e, t, b).rec, 1)
  {
  }

  lemma PlainSends(e: Env, t: Conn, b: u8) returns (q: seq<Item>)
    requires InRecord(t, 1) && !Encrypted(t) && HsInv(e, t.hs)
    ensures var u := Ended(e, PlainByte(e, t, b)).hs;
            Answers(e, t.hs, u, q) && |q| <= 1 && u.out == t.hs.out + Wire(e, q)
  {
    q := [];
    assert Ended(e, PlainByte(e, t, b)).hs == PlainHs(e, t.hs, t.rec, b);
    if t.rec.kind == REC_HANDSHAKE {
      q := ByteAnswers(e, t.hs, b);
    }
  }

  /** What a step takes from the front of the out buffer. */
  ghost function Leaving(t: Conn, s: Step): seq<u8>
  {
    if s.ConsumedStep? then t.hs.out[..Least(s.n, |t.hs.out|)] else []
  }

  /** What has left so. */
  ghost function Gone(e: Env, s: seq<Step>): seq<u8>
    decreases |s|
  {
    if s == [] then []
    else
      var q := s[..|s| - 1];
      Gone(e, q) + Leaving(After(e, q), s[|s| - 1])
  }

  /** The sealed records so far are numbered so, and the next one's number is the count; before the client's Finished
      there are none. */
  ghost predicate Counts(h: Hs, keys: seq<TrafficKey>, a: nat)
  {
    && Numbered(h.k, keys, a) && h.k.wrCount == |keys| - (if h.k.master == [] then 0 else a)
    && (Rank(h.phase) <= 2 ==> keys == [] && h.k.master == [])
  }

  ghost predicate HashSized(e: Env)
  {
    forall x :: |e.hash(x)| == 32
  }

  lemma CountsStep(e: Env, t: Hs, u: Hs, s: Step, q: seq<Item>, keys: seq<TrafficKey>, a: nat) returns (b: nat)
    requires Counts(t, keys, a) && Queues(e, t, u, s, q) && |q| <= 1 && HashSized(e)
    requires Rank(t.phase) <= Rank(u.phase)
    ensures Counts(u, keys + Seals(q), b)
  {
    assert q != [] ==> q[..0] == [];
    b := if t.k.master == [] then |keys + Seals(q)| else a;
  }

  /** All that has left and the out buffer are these items. */
  ghost predicate Sending(e: Env, h: Hs, gone: seq<u8>, items: seq<Item>, a: nat)
  {
    gone + h.out == Wire(e, items) && Counts(h, Seals(items), a)
  }

  lemma Regroup(e: Env, gone: seq<u8>, out: seq<u8>, items: seq<Item>, q: seq<Item>)
    requires gone + out == Wire(e, items)
    ensures gone + (out + Wire(e, q)) == Wire(e, items) + Wire(e, q)
  {
  }

  lemma TakenOff(gone: seq<u8>, out: seq<u8>, n: nat)
    requires n <= |out|
    ensures gone + out[..n] + out[n..] == gone + out
  {
    assert out[..n] + out[n..] == out;
  }

  lemma SendingStep(e: Env, t: Conn, s: Step, gone: seq<u8>, items: seq<Item>, a: nat) returns (q: seq<Item>, b: nat)
    requires ConnOk(t) && HsInv(e, t.hs) && HashSized(e) && Sending(e, t.hs, gone, items, a)
    ensures Queues(e, t.hs, Do(e, t, s).hs, s, q)
    ensures Sending(e, Do(e, t, s).hs, gone + Leaving(t, s), items + q, b)
  {
    q := StepSends(e, t, s);
    DoLegal(e, t, s);
    b := CountsStep(e, t.hs, Do(e, t, s).hs, s, q, Seals(items), a);
    OneMoreItem(e, items, q);
    Regroup(e, gone, t.hs.out, items, q);
    if s.ConsumedStep? {
      TakenOff(gone, t.hs.out, Least(s.n, |t.hs.out|));
      assert items + q == items;
    } else {
      assert gone + Leaving(t, s) == gone;
    }
  }

  /** Everything a client sends, over every run: its hello, and then items that the steps queue.  The sealed ones are
      numbered from zero under the handshake key, and again under the application key, and no number comes twice. */
  lemma {:induction false} Sent(e: Env, s: seq<Step>) returns (items: seq<Item>, a: nat)
    requires HashSized(e)
    ensures Sending(e, After(e, s).hs, Gone(e, s), items, a) && Distinct(Seals(items))
    ensures StartConn(e).hs.phase == WaitSh ==> items != [] && items[0] == HelloItem(e, 0x1d, e.pub)
    decreases |s|
  {
    if s == [] {
      items, a := Started(e);
    } else {
      var p, x := s[..|s| - 1], s[|s| - 1];
      items, a := Sent(e, p);
      AfterInv(e, p);
      AfterLast(e, s);
      var q;
      q, a := SendingStep(e, After(e, p), x, Gone(e, p), items, a);
      items := items + q;
    }
    NeverTwice(After(e, s).hs.k, Seals(items), a);
  }

  lemma Started(e: Env) returns (items: seq<Item>, a: nat)
    ensures Sending(e, StartConn(e).hs, [], items, a)
    ensures StartConn(e).hs.phase == WaitSh ==> items == [HelloItem(e, 0x1d, e.pub)]
  {
    a, items := 0, [];
    if StartConn(e).hs.phase == WaitSh {
      HelloItemIs(e, 0x1d, e.pub);
      items := [HelloItem(e, 0x1d, e.pub)];
      assert items[..0] == [];
    }
  }

  // ---- what is opened ------------------------------------------------------------------------------------------

  /** The step completes the header of an encrypted record. */
  ghost predicate Begins(t: Conn, u: Conn)
  {
    |t.rec.hdr| == 4 && |u.rec.hdr| == 5 && Encrypted(u) && !Terminal(u.hs.phase)
  }

  /** The keys that a run's encrypted records are opened with, in order. */
  ghost function Opened(e: Env, s: seq<Step>): seq<TrafficKey>
    decreases |s|
  {
    if s == [] then []
    else
      var q := s[..|s| - 1];
      Opened(e, q) + if Begins(After(e, q), After(e, s)) then [After(e, s).rec.openKey] else []
  }

  /** An encrypted record is being read: 1, and if not 0. */
  function Reading(t: Conn): nat
  {
    if |t.rec.hdr| == 5 && Encrypted(t) then 1 else 0
  }

  /** The records begun are numbered so, m of them before the switch; the count is that of the records ended since. */
  ghost predicate Reads(t: Conn, keys: seq<TrafficKey>, m: nat)
  {
    && Numbered(t.hs.k, keys, m) && (m < |keys| ==> t.rec.rdApp)
    && (t.rec.rdApp || t.hs.f.rdSwitch ==> t.hs.k.master != [])
    && (Rank(t.hs.phase) <= 1 ==> !t.hs.f.rdOn && keys == [])
    && (Rank(t.hs.phase) <= 2 ==> !t.rec.rdApp && !t.hs.f.rdSwitch) && !(t.rec.rdApp && t.hs.f.rdSwitch)
    && (!Terminal(t.hs.phase) ==>
          if t.rec.rdApp then t.rec.rdCount + Reading(t) == |keys| - m else m == |keys| == t.rec.rdCount + Reading(t))
  }

  /** What a step does to the counting, if it neither begins nor ends an encrypted record. */
  ghost predicate Midst(t: Conn, u: Conn)
  {
    && u.rec.rdApp == t.rec.rdApp && u.rec.rdCount == t.rec.rdCount
    && (!Terminal(u.hs.phase) ==> Reading(u) == Reading(t))
    && (u.hs.f.rdSwitch ==> t.hs.f.rdSwitch || (Rank(t.hs.phase) <= 2 < Rank(u.hs.phase) && u.hs.k.master != []))
    && (u.hs.f.rdOn ==> t.hs.f.rdOn || Rank(t.hs.phase) <= 1 < Rank(u.hs.phase))
    && (u.hs.k.keys == t.hs.k.keys || Rank(t.hs.phase) <= 1)
    && (u.hs.k.master == t.hs.k.master || Rank(t.hs.phase) <= 2)
    && Rank(t.hs.phase) <= Rank(u.hs.phase) && (Terminal(t.hs.phase) ==> Terminal(u.hs.phase))
  }

  lemma MidstReads(t: Conn, u: Conn, keys: seq<TrafficKey>, m: nat)
    requires Reads(t, keys, m) && Midst(t, u)
    ensures Reads(u, keys, m)
  {
    if Rank(t.hs.phase) <= 2 && !Terminal(t.hs.phase) {
      assert m == |keys|;
    }
  }

  /** What a handshake byte does to it. */
  lemma ByteMidst(e: Env, h: Hs, b: u8)
    requires HashSized(e) && HsInv(e, h) && !Terminal(h.phase)
    ensures var r := HsByte(e, h, b);
            && (r.f.rdSwitch ==> h.f.rdSwitch || (Rank(h.phase) <= 2 < Rank(r.phase) && r.k.master != []))
            && (r.f.rdOn ==> h.f.rdOn || Rank(h.phase) <= 1 < Rank(r.phase))
            && (r.k.keys == h.k.keys || Rank(h.phase) <= 1) && (r.k.master == h.k.master || Rank(h.phase) <= 2)
            && Rank(h.phase) <= Rank(r.phase)
  {
    HsByteLegal(e, h, b);
    HsByteSwitch(e, h, b);
    var q := ByteAnswers(e, h, b);
    ByteUps(e, h, b);
  }

  lemma ByteUps(e: Env, h: Hs, b: u8)
    requires HsInv(e, h) && !Terminal(h.phase)
    ensures var r := HsByte(e, h, b); r.f.rdOn ==> h.f.rdOn || (h.phase == WaitSh && r.phase == WaitHs)
  {
    ByteIs(e, h, b);
    SteppedQuiet(e, h, b);
    var h1 := Stepped(e, h, b);
    if EndsMessage(h1.m) && h1.phase == WaitSh {
      var x, g, share := ServerHelloEnds(e, h1);
    }
  }

  lemma EncMidst(e: Env, t: Conn, b: u8)
    requires HashSized(e) && InRecord(t, 1) && Encrypted(t) && HsInv(e, t.hs) && t.rec.pos + 1 < t.rec.len
    ensures Midst(t, Ended(e, EncByte(e, t, b)))
  {
    if t.rec.pos + 1 < t.rec.len - 16 && t.hs.phase != Connected {
      ByteMidst(e, t.hs, e.plain(t.rec.openKey, t.rec.taken, b));
      EncHears(e, t, b);
      EncByteKeeps(e, t, b);
    } else {
      EncHearsNot(e, t, b);
    }
  }

  lemma PlainMidst(e: Env, t: Conn, b: u8)
    requires HashSized(e) && InRecord(t, 1) && !Encrypted(t) && HsInv(e, t.hs)
    ensures Midst(t, Ended(e, PlainByte(e, t, b)))
  {
    assert Ended(e, PlainByte(e, t, b)).hs == PlainHs(e, t.hs, t.rec, b);
    if t.rec.kind == REC_HANDSHAKE {
      ByteMidst(e, t.hs, b);
    }
  }

  lemma CallMidst(e: Env, t: Conn, s: Step)
    requires ConnOk(t) && HsInv(e, t.hs) && (!s.Byte? || Terminal(t.hs.phase) || |t.rec.hdr| < 4)
    ensures Midst(t, Do(e, t, s)) && !Begins(t, Do(e, t, s))
  {
  }

  /** The header of an encrypted record is read: it takes the next number. */
  lemma HeaderReads(e: Env, t: Conn, b: u8, keys: seq<TrafficKey>, m: nat) returns (n: nat)
    requires ConnOk(t) && !Terminal(t.hs.phase) && |t.rec.hdr| == 4 && Reads(t, keys, m)
    ensures var u := Feed(e, t, b); Reads(u, keys + if Begins(t, u) then [u.rec.openKey] else [], n)
  {
    var u := Feed(e, t, b);
    n := if Begins(t, u) && !t.rec.rdApp then m + 1 else m;
  }

  /** Its end counts it, or switches. */
  lemma EndReads(e: Env, t: Conn, b: u8, keys: seq<TrafficKey>, m: nat)
    requires InRecord(t, 1) && Encrypted(t) && t.rec.pos + 1 == t.rec.len && Reads(t, keys, m)
    ensures Reads(Ended(e, EncByte(e, t, b)), keys, m)
  {
    EncHearsNot(e, t, b);
    EndQuiet(e, EncByte(e, t, b));
  }

  lemma ReadsStep(e: Env, t: Conn, s: Step, keys: seq<TrafficKey>, m: nat) returns (n: nat)
    requires HashSized(e) && ConnOk(t) && HsInv(e, t.hs) && Reads(t, keys, m)
    ensures var u := Do(e, t, s); Reads(u, keys + if Begins(t, u) then [u.rec.openKey] else [], n)
  {
    n := m;
    var u := Do(e, t, s);
    assert keys + [] == keys;
    if !s.Byte? || Terminal(t.hs.phase) || |t.rec.hdr| < 4 {
      CallMidst(e, t, s);
      MidstReads(t, u, keys, m);
    } else if |t.rec.hdr| == 4 {
      n := HeaderReads(e, t, s.b, keys, m);
    } else {
      RecordReads(e, t, s.b, keys, m);
    }
  }

  lemma RecordReads(e: Env, t: Conn, b: u8, keys: seq<TrafficKey>, m: nat)
    requires HashSized(e) && InRecord(t, 1) && HsInv(e, t.hs) && Reads(t, keys, m)
    ensures Reads(Feed(e, t, b), keys, m)
  {
    if !Encrypted(t) {
      PlainMidst(e, t, b);
      MidstReads(t, Feed(e, t, b), keys, m);
    } else if t.rec.pos + 1 < t.rec.len {
      EncMidst(e, t, b);
      MidstReads(t, Feed(e, t, b), keys, m);
    } else {
      EndReads(e, t, b, keys, m);
    }
  }

  /** Over every run: the encrypted records are opened under the numbers from zero of the handshake key, and after the
      switch under those from zero of the application key; no number comes twice. */
  lemma {:induction false} Openings(e: Env, s: seq<Step>) returns (m: nat)
    requires HashSized(e)
    ensures Reads(After(e, s), Opened(e, s), m) && Distinct(Opened(e, s))
    decreases |s|
  {
    if s == [] {
      m := 0;
    } else {
      var q, x := s[..|s| - 1], s[|s| - 1];
      m := Openings(e, q);
      AfterInv(e, q);
      AfterLast(e, s);
      m := ReadsStep(e, After(e, q), x, Opened(e, q), m);
    }
    NeverTwice(After(e, s).hs.k, Opened(e, s), m);
  }
}
