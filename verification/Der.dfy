/** Splitting a certificate chain that was stored end to end (src/tls/der.c). */
module Der {
  import opened Words

  datatype Elem = Elem(tag: u8, off: u16, len: u16)

  function U16(x: nat): u16
  {
    x % 0x1_0000
  }

  /** The header bytes der_elem reads: at most four, fewer at the end, where the rest of its buffer is what was
      there before. */
  function Head(s: seq<u8>, at: nat, end: nat, i: nat, junk: seq<u8>): u8
    requires end <= |s| && at + 2 <= end && i < 4 && |junk| == 4
  {
    if at + i < end then s[at + i] else junk[i]
  }

  /** der_elem, in 16-bit arithmetic. */
  function ElemAt(s: seq<u8>, at: nat, end: nat, junk: seq<u8>): Option<Elem>
    requires end <= |s| && end < 0x1_0000 && |junk| == 4
  {
    if end < 2 || at > end - 2 then None
    else
      var form := Head(s, at, end, 1, junk);
      if form > 0x82 || form == 0x80 then None
      else
        var n: u16 := if form < 0x80 then form
                      else if form == 0x81 then Head(s, at, end, 2, junk)
                      else Head(s, at, end, 2, junk) as int * 0x100 + Head(s, at, end, 3, junk);
        var off := U16(at + if form < 0x80 then 2 else if form == 0x81 then 3 else 4);
        if off > end || n > end - off then None else Some(Elem(s[at], off, n))
  }

  /** der_after. */
  function After(d: Elem): u16
  {
    U16(d.off + d.len)
  }

  /** How long a header is, by its second byte. */
  function HeaderLen(form: u8): nat
  {
    if form == 0x81 then 3 else if form == 0x82 then 4 else 2
  }

  /** The header of the element at `at` ends below 64 KB. */
  predicate NoWrap(s: seq<u8>, at: nat, end: nat)
    requires end <= |s|
  {
    at + 2 <= end ==> at + HeaderLen(s[at + 1]) < 0x1_0000
  }

  /** An element that lies inside what it was looked for in. */
  predicate Inside(at: nat, end: nat, e: Option<Elem>)
  {
    e.Some? ==> at + 2 <= e.value.off <= at + 4 && e.value.off + e.value.len <= end && After(e.value) == e.value.off + e.value.len
  }

  /** Then an element that is found lies inside, and the old bytes of the buffer are never used ... */
  lemma ElemInside(s: seq<u8>, at: nat, end: nat, junk: seq<u8>, other: seq<u8>)
    requires end <= |s| && end < 0x1_0000 && |junk| == |other| == 4 && NoWrap(s, at, end)
    ensures ElemAt(s, at, end, junk) == ElemAt(s, at, end, other) && Inside(at, end, ElemAt(s, at, end, junk))
  {
  }

  /** ... and if not, the offset wraps: the truncated header at the end is an element near offset 0, of a length that
      comes from the old bytes. */
  lemma ElemWraps(s: seq<u8>, at: nat, end: nat)
    requires end <= |s| && end < 0x1_0000 && !NoWrap(s, at, end)
    ensures !Inside(at, end, ElemAt(s, at, end, [0, 0, 0, 0]))
    ensures ElemAt(s, at, end, [0, 0, 0, 0]) != ElemAt(s, at, end, [0, 0, 1, 1])
  {
    var form := s[at + 1];
    assert at >= 0xfffc && (form == 0x81 || form == 0x82);
    assert Head(s, at, end, 3, [0, 0, 0, 0]) == 0 && Head(s, at, end, 3, [0, 0, 1, 1]) == 1;
    var d := ElemAt(s, at, end, [0, 0, 0, 0]);
    assert d.Some? && d.value.off <= 1;
  }

  /** So der_elem is right at every place of every store below 64 KB, whatever its buffer held, exactly where the header
      ends below 64 KB. */
  lemma ElemExact(s: seq<u8>, at: nat, end: nat)
    requires end <= |s| && end < 0x1_0000
    ensures (forall junk: seq<u8>, other: seq<u8> :: |junk| == |other| == 4 ==>
               ElemAt(s, at, end, junk) == ElemAt(s, at, end, other)) <==> NoWrap(s, at, end)
    ensures (forall junk: seq<u8> :: |junk| == 4 ==> Inside(at, end, ElemAt(s, at, end, junk))) <==> NoWrap(s, at, end)
  {
    if NoWrap(s, at, end) {
      forall junk: seq<u8>, other: seq<u8> | |junk| == |other| == 4
        ensures ElemAt(s, at, end, junk) == ElemAt(s, at, end, other) && Inside(at, end, ElemAt(s, at, end, junk))
      {
        ElemInside(s, at, end, junk, other);
      }
    } else {
      ElemWraps(s, at, end);
      var junk: seq<u8>, other: seq<u8> := [0, 0, 0, 0], [0, 0, 1, 1];
      assert |junk| == |other| == 4;
      assert !Inside(at, end, ElemAt(s, at, end, junk));
    }
  }

  // ---- what is encoded -----------------------------------------------------------------------------------------

  /** The forms a length may have: one byte below 0x80, or one or two bytes after a byte that says so. */
  datatype Form = Short | One | Two

  predicate Fits(f: Form, n: nat)
  {
    n < match f { case Short => 0x80 case One => 0x100 case Two => 0x1_0000 }
  }

  function LengthIn(f: Form, n: nat): seq<u8>
    requires Fits(f, n)
  {
    match f
    case Short => [n]
    case One => [0x81, n]
    case Two => [0x82, n / 0x100, n % 0x100]
  }

  /** An element: tag, length, contents (sections 8.1.2 to 8.1.4 of X.690). */
  function Encode(tag: u8, f: Form, body: seq<u8>): seq<u8>
    requires Fits(f, |body|)
  {
    [tag] + LengthIn(f, |body|) + body
  }

  /** The first bytes of what is stored at a place, as they are read there. */
  lemma Stored(c: seq<u8>, s: seq<u8>, at: nat, end: nat)
    requires at <= end <= |s| && s[at..end] <= c
    ensures forall i :: 0 <= i < end - at ==> s[at + i] == c[i]
  {
    assert forall i :: 0 <= i < end - at ==> s[at + i] == s[at..end][i];
  }

  /** An encoded element is read where it is: its tag, and its contents' place and length. */
  lemma ReadBack(tag: u8, f: Form, body: seq<u8>, s: seq<u8>, at: nat, end: nat, junk: seq<u8>)
    requires Fits(f, |body|) && end <= |s| && end < 0x1_0000 && |junk| == 4
    requires var c := Encode(tag, f, body); at + |c| <= end && s[at..at + |c|] == c
    ensures ElemAt(s, at, end, junk) == Some(Elem(tag, at + 1 + |LengthIn(f, |body|)|, |body|))
  {
    var c := Encode(tag, f, body);
    Stored(c, s, at, at + |c|);
    assert c[0] == tag && c[1] == LengthIn(f, |body|)[0];
    if f == One {
      assert c[2] == |body|;
    } else if f == Two {
      assert c[2] == |body| / 0x100 && c[3] == |body| % 0x100;
    }
  }

  /** And whatever is read, where the header ends below 64 KB, is encoded there. */
  lemma ReadIsEncoded(s: seq<u8>, at: nat, end: nat, junk: seq<u8>) returns (f: Form)
    requires end <= |s| && end < 0x1_0000 && |junk| == 4 && NoWrap(s, at, end) && ElemAt(s, at, end, junk).Some?
    ensures var e := ElemAt(s, at, end, junk).value;
            && at < e.off && e.off + e.len <= end && Fits(f, e.len)
            && s[at..e.off + e.len] == Encode(e.tag, f, s[e.off..e.off + e.len])
  {
    f := if s[at + 1] == 0x82 then Two else if s[at + 1] == 0x81 then One else Short;
    var e := ElemAt(s, at, end, junk).value;
    assert s[at..e.off] == [e.tag] + LengthIn(f, e.len);
  }

  /** A certificate: a string that is one whole SEQUENCE. */
  ghost predicate Whole(c: seq<u8>)
  {
    exists f: Form, body: seq<u8> :: Fits(f, |body|) && c == Encode(0x30, f, body)
  }

  /** Found where it was stored. */
  lemma WholeFound(c: seq<u8>, s: seq<u8>, at: nat, end: nat, junk: seq<u8>)
    requires Whole(c) && end <= |s| && end <= 0xfffd && at + |c| <= end && |junk| == 4
    requires s[at..at + |c|] == c
    ensures var d := ElemAt(s, at, end, junk);
            d.Some? && d.value.tag == 0x30 && After(d.value) as int == at + |c|
  {
    var f: Form, body: seq<u8> :| Fits(f, |body|) && c == Encode(0x30, f, body);
    ReadBack(0x30, f, body, s, at, end, junk);
  }

  /** Cut short, it is not found. */
  lemma PartNotFound(c: seq<u8>, s: seq<u8>, at: nat, end: nat, junk: seq<u8>)
    requires Whole(c) && end <= |s| && end <= 0xfffd && at <= end < at + |c| && |junk| == 4
    requires s[at..end] == c[..end - at]
    ensures ElemAt(s, at, end, junk).None?
  {
    var f: Form, body: seq<u8> :| Fits(f, |body|) && c == Encode(0x30, f, body);
    Stored(c, s, at, end);
    PartRead(f, body, s, at, end, junk);
  }

  lemma PartRead(f: Form, body: seq<u8>, s: seq<u8>, at: nat, end: nat, junk: seq<u8>)
    requires Fits(f, |body|) && end <= |s| && end <= 0xfffd && at <= end && |junk| == 4
    requires end < at + 1 + |LengthIn(f, |body|)| + |body|
    requires forall i :: 0 <= i < end - at ==> s[at + i] == Encode(0x30, f, body)[i]
    ensures ElemAt(s, at, end, junk).None?
  {
    var c := Encode(0x30, f, body);
    if at + 2 <= end {
      assert s[at + 1] == c[1] == LengthIn(f, |body|)[0];
      if f == One && at + 2 < end {
        assert s[at + 2] == c[2] == |body|;
      } else if f == Two && at + 3 < end {
        assert s[at + 2] == c[2] == |body| / 0x100 && s[at + 3] == c[3] == |body| % 0x100;
      }
    }
  }

  lemma {:induction false} FlatTake(certs: seq<seq<u8>>, k: nat)
    requires k <= |certs|
    ensures Flatten(certs[..k]) <= Flatten(certs)
    ensures k < |certs| ==> Flatten(certs[..k]) + certs[k] <= Flatten(certs)
    decreases |certs|
  {
    if k == |certs| {
      assert certs[..k] == certs;
    } else {
      var init := certs[..|certs| - 1];
      assert init[..k] == certs[..k];
      FlatTake(init, k);
    }
  }

  /** Offsets and lengths are those of the first n certificates. */
  ghost predicate Located(certs: seq<seq<u8>>, off: seq<u16>, len: seq<u16>, n: nat)
  {
    && n <= |certs| && n <= |off| && n <= |len|
    && forall k :: 0 <= k < n ==> off[k] == |Flatten(certs[..k])| && len[k] == |certs[k]|
  }

  lemma LocatedNext(certs: seq<seq<u8>>, off: seq<u16>, len: seq<u16>, off': seq<u16>, len': seq<u16>, n: nat)
    requires Located(certs, off, len, n) && n < |certs| && n < |off| && n < |len| && |certs[n]| < 0x1_0000
    requires |Flatten(certs[..n])| < 0x1_0000 && off' == off[n := |Flatten(certs[..n])|] && len' == len[n := |certs[n]|]
    ensures Located(certs, off', len', n + 1)
  {
  }

  /** chain_split, over a store that holds a chain, or a prefix of one: it returns exactly the certificates that are
      wholly inside, up to max. */
  method ChainSplit(s: seq<u8>, off: array<u16>, len: array<u16>, max: u8, junk: seq<u8>, ghost certs: seq<seq<u8>>)
    returns (n: nat)
    requires |s| <= 0xfffd && |junk| == 4 && off != len && off.Length >= max && len.Length >= max
    requires (forall c :: c in certs ==> Whole(c)) && s <= Flatten(certs)
    modifies off, len
    ensures n <= max && Located(certs, off[..], len[..], n)
    ensures |Flatten(certs[..n])| <= |s|
    ensures n < max && n < |certs| ==> |Flatten(certs[..n + 1])| > |s|
  {
    n := 0;
    var at := 0;
    while n < max && at < |s|
      invariant n <= max && n <= |certs| && at == |Flatten(certs[..n])| <= |s|
      invariant Located(certs, off[..], len[..], n)
      decreases max - n
    {
      var found, next := Step(certs, s, n, at, junk);
      if !found {
        return;
      }
      Note(certs, off, len, n, at, next);
      n := n + 1;
      at := next;
    }
    if n < max && n < |certs| {
      Next(certs, s, n, junk);
    }
  }

  /** Its offset and length noted. */
  method Note(ghost certs: seq<seq<u8>>, off: array<u16>, len: array<u16>, n: nat, at: nat, next: nat)
    requires Located(certs, off[..], len[..], n) && n < |certs| && off != len && n < off.Length && n < len.Length
    requires at == |Flatten(certs[..n])| < 0x1_0000 && next == at + |certs[n]| && |certs[n]| < 0x1_0000
    modifies off, len
    ensures Located(certs, off[..], len[..], n + 1)
  {
    ghost var off0, len0 := off[..], len[..];
    off[n], len[n] := at, U16(next - at);
    LocatedNext(certs, off0, len0, off[..], len[..], n);
  }

  /** One certificate of the walk: it is found, and its end is where the next one begins, if it is wholly inside. */
  method Step(ghost certs: seq<seq<u8>>, s: seq<u8>, ghost n: nat, at: nat, junk: seq<u8>) returns (found: bool, next: nat)
    requires |s| <= 0xfffd && |junk| == 4 && n <= |certs| && (forall c :: c in certs ==> Whole(c)) && s <= Flatten(certs)
    requires at == |Flatten(certs[..n])| < |s|
    ensures found <==> n < |certs| && |Flatten(certs[..n + 1])| <= |s|
    ensures found ==> next == |Flatten(certs[..n + 1])| == at + |certs[n]| && |certs[n]| < 0x1_0000
    ensures n < |certs|
  {
    Next(certs, s, n, junk);
    var d := ElemAt(s, at, |s|, junk);
    found := d.Some? && d.value.tag == 0x30;
    next := if found then After(d.value) else at;
    assert certs[n] in certs;
  }

  /** The next certificate is found if and only if it is wholly inside. */
  lemma Next(certs: seq<seq<u8>>, s: seq<u8>, n: nat, junk: seq<u8>)
    requires |s| <= 0xfffd && |junk| == 4 && n <= |certs| && (forall c :: c in certs ==> Whole(c)) && s <= Flatten(certs)
    requires |Flatten(certs[..n])| <= |s|
    ensures n == |certs| ==> |Flatten(certs[..n])| == |s|
    ensures n < |certs| ==> |Flatten(certs[..n + 1])| == |Flatten(certs[..n])| + |certs[n]| > |Flatten(certs[..n])|
    ensures n < |certs| ==>
              var at, d := |Flatten(certs[..n])|, ElemAt(s, |Flatten(certs[..n])|, |s|, junk);
              if at + |certs[n]| <= |s| then d.Some? && d.value.tag == 0x30 && After(d.value) as int == at + |certs[n]|
              else d.None?
  {
    FlatTake(certs, n);
    if n == |certs| {
      assert certs[..n] == certs;
    } else {
      var at, c := |Flatten(certs[..n])|, certs[n];
      assert certs[..n + 1][..n] == certs[..n] && c in certs;
      if at + |c| <= |s| {
        assert s[at..at + |c|] == Flatten(certs)[at..at + |c|] == c;
        WholeFound(c, s, at, |s|, junk);
      } else {
        assert s[at..] == Flatten(certs)[at..at + |c|][..|s| - at] == c[..|s| - at];
        PartNotFound(c, s, at, |s|, junk);
      }
    }
  }
}
