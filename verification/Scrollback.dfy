/** The scrollback (src/m65/log.c): for each view a ring of rows in attic memory, found by counters of 16 bits that
    wrap, against the unbounded history of what was logged. */
module Scrollback {
  import opened Words

  const VIEWS := 8
  const RING := 8192
  const ROW := 80

  /** A row of screen codes, as logged and as shown. */
  type Row = r: seq<u8> | |r| == ROW witness seq<u8>(ROW, _ => 0x20)

  function Blank(): Row
  {
    seq<u8>(ROW, _ => 0x20)
  }

  /** A row's slot; views are a megabyte apart and a slot is 96 bytes. */
  function Slot(v: nat, i: nat): nat
  {
    v * RING + i % RING
  }

  function Address(v: nat, i: nat): nat
  {
    0x800_0000 + v * 0x10_0000 + i % RING * 96
  }

  /** The model numbers slots; their addresses go by the numbers. */
  lemma SlotAddress(v: nat, i: nat)
    ensures Address(v, i) == 0x800_0000 + Slot(v, i) / 8192 * 0x10_0000 + Slot(v, i) % 8192 * 96
  {
  }

  /** Slots do not overlap: a slot's 83 bytes are in no other. */
  lemma SlotsApart(v: nat, i: nat, w: nat, j: nat)
    requires v < VIEWS && w < VIEWS && Slot(v, i) != Slot(w, j)
    ensures Address(v, i) + ROW + 3 <= Address(w, j) || Address(w, j) + ROW + 3 <= Address(v, i)
    ensures Address(v, i) + ROW + 3 <= 0x800_0000 + (v + 1) * 0x10_0000
  {
    if v == w {
      assert i % RING != j % RING;
    }
  }

  /** The rows of a history that the ring still holds. */
  function Kept(h: seq<Row>): (k: seq<Row>)
    ensures |k| == if |h| < RING then |h| else RING
  {
    if |h| < RING then h else h[|h| - RING..]
  }

  /** Row i of those on hand, blank past the newest. */
  function RowAt(h: seq<Row>, i: nat): Row
  {
    if i < |Kept(h)| then Kept(h)[i] else Blank()
  }

  /** The counters of a view with n rows logged. */
  ghost predicate Counts(n: nat, total: nat, have: nat)
  {
    total == n % 0x1_0000 && have == (if n < RING then n else RING)
  }

  /** A view's ring holds the rows of its history that are kept. */
  ghost predicate Holds(attic: seq<Row>, v: nat, h: seq<Row>)
    requires v < VIEWS && |attic| == VIEWS * RING
  {
    forall i :: 0 <= i < |Kept(h)| ==> attic[Slot(v, |h| - |Kept(h)| + i)] == Kept(h)[i]
  }

  /** The slot of row t from the oldest kept, from the wrapping counters. */
  function Place(total: nat, have: nat, t: nat): u16
  {
    (total - have + t) % 0x1_0000
  }

  lemma PlaceNext(total: nat, have: nat, t: nat)
    ensures (Place(total, have, t) as int + 1) % 0x1_0000 == Place(total, have, (t + 1) % 0x1_0000)
  {
  }

  /** The wrapped counters find the right slot: 65,536 is a whole number of rings. */
  lemma PlaceFound(n: nat, total: nat, have: nat, t: nat, v: nat)
    requires Counts(n, total, have) && t < have
    ensures Slot(v, Place(total, have, t)) == Slot(v, n - have + t)
  {
  }

  /** Rows closer than a ring apart are in different slots. */
  lemma SlotsDiffer(n: nat, k: nat, v: nat)
    requires k < n < k + RING
    ensures Slot(v, k) != Slot(v, n)
  {
  }

  lemma HoldsAppend(attic: seq<Row>, v: nat, h: seq<Row>, row: Row)
    requires v < VIEWS && |attic| == VIEWS * RING && Holds(attic, v, h)
    ensures Holds(attic[Slot(v, |h|) := row], v, h + [row])
  {
    var k := Kept(h + [row]);
    forall i | 0 <= i < |k| ensures attic[Slot(v, |h|) := row][Slot(v, |h| + 1 - |k| + i)] == k[i] {
      if i < |k| - 1 {
        SlotsDiffer(|h|, |h| + 1 - |k| + i, v);
        KeptAppend(h, row, i);
      }
    }
  }

  lemma KeptAppend(h: seq<Row>, row: Row, i: nat)
    requires i < |Kept(h + [row])| - 1
    ensures var b := if |h| < RING then i else i + 1;
            Kept(h + [row])[i] == Kept(h)[b] && |h| - |Kept(h)| + b == |h| + 1 - |Kept(h + [row])| + i
  {
  }

  lemma HoldsOther(attic: seq<Row>, v: nat, h: seq<Row>, w: nat, i: nat, row: Row)
    requires v < VIEWS && w < VIEWS && v != w && |attic| == VIEWS * RING && Holds(attic, v, h)
    ensures Holds(attic[Slot(w, i) := row], v, h)
  {
  }

  class Log {
    const total: array<u16>     // rows ever logged in a view, wrapping
    const have: array<u16>      // rows on hand
    const attic: array<Row>
    ghost var history: seq<seq<Row>>

    ghost predicate Valid()
      reads this, total, have, attic
    {
      && total.Length == have.Length == |history| == VIEWS && total != have && attic.Length == VIEWS * RING
      && forall v :: 0 <= v < VIEWS ==> Good(v)
    }

    ghost predicate Good(v: nat)
      requires v < VIEWS && v < total.Length && v < have.Length && v < |history| && attic.Length == VIEWS * RING
      reads this, total, have, attic
    {
      Counts(|history[v]|, total[v], have[v]) && Holds(attic[..], v, history[v])
    }

    /** Attic memory as it is found, and no rows. */
    constructor (attic: array<Row>)
      requires attic.Length == VIEWS * RING
      ensures Valid() && fresh(total) && fresh(have) && this.attic == attic
      ensures history == [[], [], [], [], [], [], [], []]
    {
      total := new u16[VIEWS](_ => 0);
      have := new u16[VIEWS](_ => 0);
      this.attic := attic;
      history := [[], [], [], [], [], [], [], []];
    }

    /** log_clear. */
    method Clear(v: nat)
      requires Valid() && v < VIEWS
      modifies this`history, total, have
      ensures Valid() && history == old(history)[v := []]
    {
      total[v] := 0;
      have[v] := 0;
      history := history[v := []];
      assert forall w :: 0 <= w < VIEWS && w != v ==> old(Good(w)) && Good(w);
    }

    /** log_row. */
    method Append(v: nat, row: Row)
      requires Valid() && v < VIEWS
      modifies this`history, total, have, attic
      ensures Valid() && history == old(history)[v := old(history)[v] + [row]]
    {
      ghost var a, h := attic[..], history;
      assert Good(v);
      HoldsAppend(a, v, h[v], row);
      attic[Slot(v, total[v])] := row;
      assert attic[..] == a[Slot(v, |h[v]|) := row];
      total[v] := (total[v] as int + 1) % 0x1_0000;
      if have[v] < RING {
        have[v] := have[v] + 1;
      }
      history := history[v := history[v] + [row]];
      forall w | 0 <= w < VIEWS && w != v ensures Good(w) {
        assert old(Good(w));
        HoldsOther(a, w, h[w], v, |h[v]|, row);
      }
    }

    /** log_count. */
    method Count(v: nat) returns (n: u16)
      requires Valid() && v < VIEWS
      ensures n == |Kept(history[v])|
    {
      assert Good(v);
      n := have[v];
    }

    /** One row of log_draw. */
    method DrawRow(v: nat, t: u16, i: u16, at: nat, screen: array<Row>)
      requires Valid() && v < VIEWS && at < screen.Length && screen != attic && i == Place(total[v], have[v], t)
      modifies screen
      ensures screen[..] == old(screen[..])[at := RowAt(history[v], t)]
    {
      assert Good(v);
      if t < have[v] {
        PlaceFound(|history[v]|, total[v], have[v], t, v);
        assert attic[..][Slot(v, i)] == Kept(history[v])[t];
        screen[at] := attic[Slot(v, i)];
      } else {
        screen[at] := seq<u8>(80, _ => 0x20);
      }
    }

    /** log_draw: n rows from `top` of those on hand, onto screen rows from `at`. */
    method Draw(v: nat, top: u16, at: nat, n: nat, screen: array<Row>)
      requires Valid() && v < VIEWS && at + n <= screen.Length && screen != attic
      modifies screen
      ensures screen[..] == Over(old(screen[..]), at, Drawn(history[v], top, n))
    {
      var i, t, j := Place(total[v], have[v], top), top, 0;
      ghost var s, d := screen[..], Drawn(history[v], top, n);
      assert screen[..] == Over(s, at, d[..0]);
      while j < n
        invariant 0 <= j <= n && t == Row16(top, j) && i == Place(total[v], have[v], t)
        invariant screen[..] == Over(s, at, d[..j])
      {
        OverNext(s, at, d, j);
        PlaceNext(total[v], have[v], t);
        Row16Next(top, j);
        DrawRow(v, t, i, at + j, screen);
        i, t, j := (i as int + 1) % 0x1_0000, (t as int + 1) % 0x1_0000, j + 1;
      }
      assert d[..n] == d;
    }
  }

  /** The row j after a first one, counted in 16 bits. */
  function Row16(top: u16, j: nat): u16
  {
    (top + j) % 0x1_0000
  }

  lemma Row16Next(top: u16, j: nat)
    ensures (Row16(top, j) as int + 1) % 0x1_0000 == Row16(top, j + 1)
  {
  }

  /** Rows written over others. */
  function Over(s: seq<Row>, at: nat, d: seq<Row>): (r: seq<Row>)
    requires at + |d| <= |s|
    ensures |r| == |s|
  {
    s[..at] + d + s[at + |d|..]
  }

  lemma OverNext(s: seq<Row>, at: nat, d: seq<Row>, j: nat)
    requires at + |d| <= |s| && j < |d|
    ensures Over(s, at, d[..j])[at + j := d[j]] == Over(s, at, d[..j + 1])
  {
  }

  function Drawn(h: seq<Row>, top: u16, n: nat): (d: seq<Row>)
    ensures |d| == n
  {
    seq<Row>(n, j requires 0 <= j < n => RowAt(h, Row16(top, j)))
  }
}
