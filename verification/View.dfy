/** The views and the chat area (src/m65/view.c): what is on the screen is always what a full redraw would put there,
    however it got there, and the keys are on the open views in the order they were opened. */
module View {
  import opened Words
  import opened Scrollback

  const FIRST := 1              // the chat area's first screen row
  const NONE := 0xff
  const NAME_CAP := 33

  datatype Channel = Channel(name: seq<u8>, back: u16, used: bool, unread: bool)

  /** How many rows are on hand behind what is scrolled past. */
  function Avail(h: seq<Row>, back: nat): nat
  {
    if |Kept(h)| > back then |Kept(h)| - back else 0
  }

  /** Row r of the chat area over a history: its last rows but `back`, at the foot. */
  function AreaRow(h: seq<Row>, rows: nat, back: nat, r: nat): Row
  {
    if Avail(h, back) + r >= rows then RowAt(h, Avail(h, back) + r - rows) else Blank()
  }

  function Area(h: seq<Row>, rows: nat, back: nat): (a: seq<Row>)
    ensures |a| == rows
  {
    seq<Row>(rows, r requires 0 <= r < rows => AreaRow(h, rows, back, r))
  }

  lemma AreaEmpty(h: seq<Row>, rows: nat, back: nat)
    requires h == []
    ensures Area(h, rows, back) == Area(h, rows, 0)
  {
    assert Avail(h, back) == 0 && Avail(h, 0) == 0;
    var a, b := Area(h, rows, back), Area(h, rows, 0);
    forall r | 0 <= r < rows ensures a[r] == b[r] {
      assert a[r] == Blank() && b[r] == Blank();
    }
  }

  /** A row logged moves the area up by one: also when the ring is full and the oldest row goes. */
  lemma AreaAppend(h: seq<Row>, row: Row, rows: nat)
    requires 1 <= rows <= 250
    ensures Area(h + [row], rows, 0) == Area(h, rows, 0)[1..] + [row]
  {
    var g := h + [row];
    var a, b := Area(g, rows, 0), Area(h, rows, 0)[1..] + [row];
    assert |Kept(g)| >= 1 && Avail(g, 0) == |Kept(g)|;
    var n, m := |Kept(g)|, |Kept(h)|;
    assert Avail(h, 0) == m && (if |h| < RING then n == m + 1 else n == m == RING);
    forall r | 0 <= r < rows ensures a[r] == b[r] {
      if r == rows - 1 {
        assert a[r] == RowAt(g, n - 1) && g[|g| - 1] == row;
      } else {
        assert b[r] == Area(h, rows, 0)[r + 1];
        if n + r >= rows {
          KeptAppend(h, row, n + r - rows);
          assert a[r] == RowAt(g, n + r - rows) && b[r] == RowAt(h, m + r + 1 - rows);
        }
      }
    }
  }

  /** What redraw puts there: blanks above, then the rows shown. */
  lemma AreaParts(h: seq<Row>, rows: nat, back: nat, shown: nat, top: u16)
    requires shown == (if Avail(h, back) > rows then rows else Avail(h, back)) && top == Avail(h, back) - shown
    ensures Area(h, rows, back) == Blanks(rows - shown) + Drawn(h, top, shown)
  {
    var a, b := Area(h, rows, back), Blanks(rows - shown) + Drawn(h, top, shown);
    forall r | 0 <= r < rows ensures a[r] == b[r] {
      if r >= rows - shown {
        assert b[r] == RowAt(h, Row16(top, r - (rows - shown)));
      }
    }
  }

  function Blanks(n: nat): (b: seq<Row>)
    ensures |b| == n
  {
    seq<Row>(n, _ => Blank())
  }

  lemma NewestDrawn(h: seq<Row>, row: Row)
    ensures |Kept(h + [row])| >= 1 && Drawn(h + [row], |Kept(h + [row])| - 1, 1) == [row]
  {
    var g := h + [row];
    assert RowAt(g, |Kept(g)| - 1) == g[|h|] == row;
  }

  /** Rows written one after the other. */
  lemma OverTwice(s: seq<Row>, at: nat, d: seq<Row>, e: seq<Row>)
    requires at + |d| + |e| <= |s|
    ensures Over(Over(s, at, d), at + |d|, e)[at..at + |d| + |e|] == d + e
  {
  }

  /** Blank rows above, and the rows shown below them. */
  lemma Redrawn(s: seq<Row>, s2: seq<Row>, h: seq<Row>, rows: nat, back: nat, shown: nat, top: nat)
    requires 1 <= rows <= 250 && FIRST + rows <= |s|
    requires var count := |Kept(h)|;
             var avail := if count > back then count - back else 0;
             shown == (if avail > rows then rows else avail) && top == if avail > rows then avail - rows else 0
    requires s2 == Over(Over(s, FIRST, Blanks(rows - shown)), FIRST + rows - shown, Drawn(h, top, shown))
    ensures s2[FIRST..FIRST + rows] == Area(h, rows, back)
  {
    AreaParts(h, rows, back, shown, top);
    OverTwice(s, FIRST, Blanks(rows - shown), Drawn(h, top, shown));
  }

  /** The area moved up by one, and the newest row drawn at its foot. */
  lemma LiveArea(s: seq<Row>, s1: seq<Row>, s2: seq<Row>, h: seq<Row>, row: Row, rows: nat)
    requires 1 <= rows <= 250 && FIRST + rows <= |s| && s[FIRST..FIRST + rows] == Area(h, rows, 0)
    requires s1 == Over(s, FIRST, s[FIRST + 1..FIRST + rows]) && s2 == Over(s1, FIRST + rows - 1, [row])
    ensures s2[FIRST..FIRST + rows] == Area(h + [row], rows, 0)
  {
    var d := Area(h, rows, 0)[1..];
    assert s[FIRST + 1..FIRST + rows] == s[FIRST..FIRST + rows][1..] == d;
    OverTwice(s, FIRST, d, [row]);
    AreaAppend(h, row, rows);
  }

  // ---- a line of text in rows ----------------------------------------------------------------------------------

  function Coded(code: u8 -> u8, s: seq<u8>): (c: seq<u8>)
    ensures |c| == |s|
  {
    seq<u8>(|s|, i requires 0 <= i < |s| => code(s[i]))
  }

  function Spaces(n: nat): (b: seq<u8>)
    ensures |b| == n
  {
    seq<u8>(n, _ => 0x20)
  }

  /** How many characters of s the next row takes: 79 columns, two of them indented after the first row. */
  function Taken(s: seq<u8>, first: bool): nat
  {
    Least(|s|, if first then 79 else 77)
  }

  function WrapRow(code: u8 -> u8, s: seq<u8>, first: bool): Row
  {
    var n := Taken(s, first);
    (if first then [] else Spaces(2)) + Coded(code, s[..n]) + Spaces(ROW - n - if first then 0 else 2)
  }

  function Wrap(code: u8 -> u8, s: seq<u8>, first: bool): seq<Row>
    decreases |s|, first
  {
    if s == [] && !first then []
    else [WrapRow(code, s, first)] + Wrap(code, s[Taken(s, first)..], false)
  }

  /** The text of rows: what is between the indent and the last column. */
  function Text(rows: seq<Row>, first: bool): seq<u8>
  {
    if rows == [] then [] else rows[0][(if first then 0 else 2)..79] + Text(rows[1..], false)
  }

  lemma RowText(code: u8 -> u8, s: seq<u8>, first: bool)
    ensures var n, from := Taken(s, first), if first then 0 else 2;
            WrapRow(code, s, first)[from..79] == Coded(code, s[..n]) + Spaces(79 - from - n)
  {
  }

  /** Text, and spaces after its end. */
  ghost predicate Padded(t: seq<u8>, c: seq<u8>)
  {
    |c| <= |t| <= |c| + 79 && t[..|c|] == c && t[|c|..] == Spaces(|t| - |c|)
  }

  lemma PaddedMore(c: seq<u8>, t: seq<u8>, d: seq<u8>)
    requires Padded(t, d)
    ensures Padded(c + t, c + d)
  {
    assert (c + t)[..|c + d|] == c + t[..|d|];
    assert (c + t)[|c + d|..] == t[|d|..];
  }

  /** Wrapping loses nothing: the rows' text is the line, but for spaces after its end. */
  lemma {:induction false} WrapKeepsText(code: u8 -> u8, s: seq<u8>, first: bool)
    ensures Padded(Text(Wrap(code, s, first), first), Coded(code, s))
    ensures forall i :: 0 <= i < |s| ==> Coded(code, s)[i] == code(s[i])
    decreases |s|, first
  {
    if s != [] || first {
      var n := Taken(s, first);
      var rest := Wrap(code, s[n..], false);
      WrapKeepsText(code, s[n..], false);
      RowText(code, s, first);
      WrapStep(code, s, first, rest);
    }
  }

  lemma TextCons(row: Row, rest: seq<Row>, first: bool)
    ensures Text([row] + rest, first) == row[(if first then 0 else 2)..79] + Text(rest, false)
  {
    assert ([row] + rest)[1..] == rest;
  }

  lemma WrapLast(code: u8 -> u8, s: seq<u8>, first: bool)
    requires Taken(s, first) == |s|
    ensures Padded(WrapRow(code, s, first)[(if first then 0 else 2)..79], Coded(code, s))
  {
    RowText(code, s, first);
    assert s[..|s|] == s;
  }

  lemma WrapFull(code: u8 -> u8, s: seq<u8>, first: bool)
    requires Taken(s, first) < |s|
    ensures WrapRow(code, s, first)[(if first then 0 else 2)..79] == Coded(code, s[..Taken(s, first)])
  {
    RowText(code, s, first);
  }

  lemma WrapStep(code: u8 -> u8, s: seq<u8>, first: bool, rest: seq<Row>)
    requires (s != [] || first) && rest == Wrap(code, s[Taken(s, first)..], false)
    requires Padded(Text(rest, false), Coded(code, s[Taken(s, first)..]))
    ensures Padded(Text([WrapRow(code, s, first)] + rest, first), Coded(code, s))
  {
    var n, row := Taken(s, first), WrapRow(code, s, first);
    TextCons(row, rest, first);
    if n == |s| {
      WrapLast(code, s, first);
      var t := row[(if first then 0 else 2)..79];
      assert t + [] == t;
    } else {
      WrapFull(code, s, first);
      assert Coded(code, s) == Coded(code, s[..n]) + Coded(code, s[n..]);
      PaddedMore(Coded(code, s[..n]), Text(rest, false), Coded(code, s[n..]));
    }
  }

  // ---- the open views ------------------------------------------------------------------------------------------

  /** The used views, once each, the status view first. */
  ghost predicate Listed(views: seq<Channel>, keys: seq<nat>)
  {
    && |views| == VIEWS && Distinct(keys) && |keys| >= 1 && keys[0] == 0
    && (forall v: nat :: v in keys <==> v < VIEWS && views[v].used)
  }

  /** Distinct numbers under n, one of which is missing, are fewer than n. */
  lemma {:induction false} Fewer(s: seq<nat>, n: nat, missing: nat)
    requires Distinct(s) && missing < n && missing !in s && forall v :: v in s ==> v < n
    ensures |s| < n
    decreases n
  {
    if s != [] {
      assert s[0] in s;
      if n - 1 in s {
        var i :| 0 <= i < |s| && s[i] == n - 1;
        var t := s[..i] + s[i + 1..];
        forall v | v in t ensures v in s && v < n - 1 {
          var j :| 0 <= j < |t| && t[j] == v;
          assert v == s[if j < i then j else j + 1];
        }
        Fewer(t, n - 1, missing);
      } else if missing < n - 1 {
        Fewer(s, n - 1, missing);
      } else {
        var u := s[1..];
        assert s[0] !in u && forall v :: v in u ==> v in s;
        Fewer(u, n - 1, s[0]);
      }
    }
  }

  lemma ListOpen(views: seq<Channel>, keys: seq<nat>, v: nat, c: Channel)
    requires Listed(views, keys) && v < VIEWS && !views[v].used && c.used
    ensures Listed(views[v := c], keys + [v]) && |keys| < VIEWS
  {
    Fewer(keys, VIEWS, v);
  }

  /** Where a number is in a list. */
  function IndexOf(s: seq<nat>, v: nat): (i: nat)
    requires v in s
    ensures i < |s| && s[i] == v && v !in s[..i]
  {
    if s[0] == v then 0 else 1 + IndexOf(s[1..], v)
  }

  function Without(s: seq<nat>, v: nat): seq<nat>
    requires v in s
  {
    s[..IndexOf(s, v)] + s[IndexOf(s, v) + 1..]
  }

  lemma ListClose(views: seq<Channel>, keys: seq<nat>, v: nat, c: Channel)
    requires Listed(views, keys) && 0 < v < VIEWS && views[v].used && !c.used
    ensures v in keys && Listed(views[v := c], Without(keys, v))
  {
    var i, t := IndexOf(keys, v), Without(keys, v);
    assert t[0] == keys[0];
    forall w: nat ensures w in t <==> w in keys && w != v {
      if w in keys && w != v {
        var j :| 0 <= j < |keys| && keys[j] == w;
        assert t[if j < i then j else j - 1] == w;
      }
      if w in t {
        var j :| 0 <= j < |t| && t[j] == w;
        assert keys[if j < i then j else j + 1] == w;
      }
    }
  }

  class View {
    const log: Log
    const views: array<Channel>
    const order: array<nat>          // which view is on a key
    var positions: nat
    var active: nat
    const rows: nat                  // of the chat area
    const screen: array<Row>
    const code: u8 -> u8             // ASCII to screen codes
    ghost var keys: seq<nat>         // the open views, in the order they were opened

    ghost predicate Parts()
      reads this, views, log
    {
      && log.attic != screen && views.Length == order.Length == VIEWS && active < VIEWS && positions <= VIEWS
      && 1 <= rows <= 250 && FIRST + rows <= screen.Length
    }

    ghost predicate Listing()
      reads this, views, order, log
    {
      && Parts() && Listed(views[..], keys) && order[..positions] == keys && views[active].used
    }

    /** The showing view, unless it is scrolled back, is on the screen as a redraw would put it. */
    ghost predicate Live()
      requires log.Valid() && Parts()
      reads this, views, screen, log, log.total, log.have, log.attic
    {
      views[active].back == 0 ==> Shows(0)
    }

    ghost predicate Shows(back: nat)
      requires log.Valid() && Parts()
      reads this, views, screen, log, log.total, log.have, log.attic
    {
      screen[FIRST..FIRST + rows] == Area(log.history[active], rows, back)
    }

    ghost predicate Valid()
      reads this, views, order, screen, log, log.total, log.have, log.attic
    {
      log.Valid() && Listing() && Live()
    }

    /** view_init, over the view table as memory holds it. */
    constructor (attic: array<Row>, views: array<Channel>, screen: array<Row>, rows: nat, code: u8 -> u8)
      requires attic.Length == VIEWS * RING && attic != screen && views.Length == VIEWS
      requires 1 <= rows <= 250 && FIRST + rows <= screen.Length
      modifies views, screen
      ensures Valid() && keys == [0] && active == 0 && this.rows == rows && this.screen == screen && this.views == views
      ensures log.history == [[], [], [], [], [], [], [], []] && Shows(0)
    {
      var l := new Log(attic);
      log := l;
      this.views, this.screen, this.rows, this.code := views, screen, rows, code;
      order := new nat[VIEWS](_ => 0);
      positions, active, keys := 1, 0, [0];
      new;
      var v := 0;
      while v < VIEWS
        modifies views
        invariant 0 <= v <= VIEWS && forall w :: 0 <= w < v ==> !views[w].used
      {
        views[v] := views[v].(used := false);
        v := v + 1;
      }
      views[0] := views[0].(used := true, name := [115, 116, 97, 116, 117, 115], unread := false);
      Redraw();
      AreaEmpty([], rows, views[0].back);
    }

    /** The chat area up one row: a block move towards the start. */
    method ScrollUp()
      requires Parts()
      modifies screen
      ensures screen[..] == Over(old(screen[..]), FIRST, old(screen[FIRST + 1..FIRST + rows]))
    {
      var k := 0;
      ghost var s := screen[..];
      ghost var d := s[FIRST + 1..FIRST + rows];
      assert s == Over(s, FIRST, d[..0]);
      while k < rows - 1
        invariant 0 <= k <= rows - 1 && screen[..] == Over(s, FIRST, d[..k])
      {
        OverNext(s, FIRST, d, k);
        assert screen[FIRST + k + 1] == screen[..][FIRST + k + 1] == d[k];
        screen[FIRST + k] := screen[FIRST + k + 1];
        k := k + 1;
      }
      assert d[..k] == d;
    }

    /** live_row: the row just logged at the foot of the scrolled area. */
    method LiveRow(ghost h: seq<Row>, ghost row: Row)
      requires log.Valid() && Parts() && log.history[active] == h + [row]
      requires screen[FIRST..FIRST + rows] == Area(h, rows, 0)
      modifies screen
      ensures screen[FIRST..FIRST + rows] == Area(h + [row], rows, 0)
    {
      ghost var s := screen[..];
      ScrollUp();
      ghost var s1 := screen[..];
      DrawNewest();
      assert screen[FIRST..FIRST + rows] == screen[..][FIRST..FIRST + rows];
      NewestDrawn(h, row);
      LiveArea(s, s1, screen[..], h, row, rows);
    }

    /** The newest row, at the foot of the area. */
    method DrawNewest()
      requires log.Valid() && Parts() && |Kept(log.history[active])| >= 1
      modifies screen
      ensures var g := log.history[active];
              screen[..] == Over(old(screen[..]), FIRST + rows - 1, Drawn(g, |Kept(g)| - 1, 1))
    {
      var n := log.Count(active);
      log.Draw(active, n - 1, FIRST + rows - 1, 1, screen);
    }

    /** n rows blank, from the top of the chat area. */
    method BlankTop(n: nat)
      requires Parts() && n <= rows
      modifies screen
      ensures screen[..] == Over(old(screen[..]), FIRST, Blanks(n))
    {
      var r := 0;
      ghost var s, d := screen[..], Blanks(n);
      assert s == Over(s, FIRST, d[..0]);
      while r < n
        invariant 0 <= r <= n && screen[..] == Over(s, FIRST, d[..r])
      {
        OverNext(s, FIRST, d, r);
        screen[FIRST + r] := seq<u8>(80, _ => 0x20);
        r := r + 1;
      }
      assert d[..n] == d;
    }

    /** redraw. */
    method Redraw()
      requires log.Valid() && Parts()
      modifies screen
      ensures Shows(views[active].back)
    {
      var count := log.Count(active);
      var back := views[active].back;
      var avail: nat := if count > back then count - back else 0;
      var shown, top: u16 := if avail > rows then rows else avail, if avail > rows then avail - rows else 0;
      ghost var s, h := screen[..], log.history[active];
      BlankTop(rows - shown);
      log.Draw(active, top, FIRST + rows - shown, shown, screen);
      assert screen[FIRST..FIRST + rows] == screen[..][FIRST..FIRST + rows];
      Redrawn(s, screen[..], h, rows, back, shown, top);
    }

    /** view_show. */
    method Show(v: nat)
      requires log.Valid() && Listing()
      modifies this`active, views, screen
      ensures log.Valid() && Listing() && (v in keys || old(Live()) ==> Live())
      ensures keys == old(keys) && log.history == old(log.history)
      ensures active == if v in keys then v else old(active)
      ensures v in keys ==> Shows(views[v].back)
      ensures forall w :: 0 <= w < VIEWS ==> views[w].back == old(views[w].back) && views[w].used == old(views[w].used)
    {
      if v >= VIEWS || !views[v].used {
        return;
      }
      active := v;
      views[v] := views[v].(unread := false);
      Redraw();
    }

    /** view_scroll: back by some rows, forward by a negative number, or to the newest by 0, in 16 bits. */
    method Scroll(n: int)
      requires Valid() && -0x8000 <= n < 0x8000
      modifies views, screen
      ensures Valid() && keys == old(keys) && log.history == old(log.history)
      ensures Shows(views[active].back)
      ensures views[active].back ==
              Scrolled(old(views[active].back), n, |Kept(log.history[active])|, rows)
      ensures forall u :: 0 <= u < VIEWS && u != active ==> views[u] == old(views[u])
    {
      var count := log.Count(active);
      var most: u16 := if count > rows then count - rows else 0;
      var back := if n != 0 then Int16(views[active].back as int + n) else 0;
      if back < 0 {
        back := 0;
      }
      if back > most {
        back := most;
      }
      ghost var vs := views[..];
      views[active] := views[active].(back := back);
      RelistBack(vs, keys, active, back);
      Redraw();
    }

    /** view_open: the first free slot, on the next key. */
    method Open(name: seq<u8>) returns (v: nat)
      requires Valid()
      modifies this`positions, this`keys, views, order, log`history, log.total, log.have
      ensures Valid() && active == old(active)
      ensures v == NONE ==> keys == old(keys) && log.history == old(log.history) && |keys| == VIEWS
      ensures v != NONE ==>
                && 0 < v < VIEWS && v !in old(keys) && (forall w :: 0 < w < v ==> w in old(keys))
                && keys == old(keys) + [v] && log.history == old(log.history)[v := []]
                && views[v] == Channel(name[..Least(|name|, 32)], 0, true, false)
    {
      ghost var vs := views[..];
      v := 1;
      while v < VIEWS
        invariant 1 <= v <= VIEWS && forall w :: 0 < w < v ==> vs[w].used
      {
        if !views[v].used {
          var c := Channel(name[..Least(|name|, NAME_CAP - 1)], 0, true, false);
          ListOpen(vs, keys, v, c);
          views[v] := c;
          log.Clear(v);
          order[positions] := v;
          positions := positions + 1;
          keys := keys + [v];
          assert views[..] == vs[v := c];
          return;
        }
        v := v + 1;
      }
      AllOpen(vs, keys);
      v := NONE;
    }

    /** view_close: the keys after it step down. */
    method Close(v: nat)
      requires Valid()
      modifies this`positions, this`keys, this`active, views, order, screen
      ensures Valid() && log.history == old(log.history)
      ensures keys == if v in old(keys) && v != 0 then Without(old(keys), v) else old(keys)
      ensures active == if v == old(active) then 0 else old(active)
      ensures if v == old(active) && v != 0 then Shows(views[0].back) else screen[..] == old(screen[..])
      ensures forall u :: 0 <= u < VIEWS ==> views[u].back == old(views[u].back)
    {
      if v == 0 || v >= VIEWS || !views[v].used {
        return;
      }
      ghost var vs, ks := views[..], keys;
      var c := views[v].(used := false);
      ListClose(vs, ks, v, c);
      views[v] := c;
      assert views[..] == vs[v := c];
      StepDown(v);
      keys := Without(ks, v);
      if active == v {
        active := 0;
        Show(0);
      }
    }

    /** The position of a view, and those after it one down. */
    method StepDown(v: nat)
      requires order.Length == VIEWS && 0 < positions <= VIEWS && order[..positions] == keys && v in keys && keys[0] != v
      modifies this`positions, order
      ensures positions == old(positions) - 1 && order[..positions] == Without(keys, v)
    {
      ghost var at := IndexOf(keys, v);
      var p := 1;
      while p < positions && order[p] != v
        invariant 1 <= p <= at
      {
        assert keys[p] == order[p];
        p := p + 1;
      }
      assert p == at;
      while p + 1 < positions
        invariant at <= p < positions && positions == old(positions) && |keys| == positions
        invariant order[..p] == Without(keys, v)[..p]
        invariant order[p + 1..positions] == keys[p + 1..]
      {
        assert order[p + 1] == order[p + 1..positions][0] == keys[p + 1];
        ghost var rest := order[p + 2..positions];
        assert rest == keys[p + 2..];
        order[p] := order[p + 1];
        p := p + 1;
        assert order[p + 1..positions] == rest;
      }
      positions := positions - 1;
    }

    /** view_line: the rows of a line logged, and drawn as they come if the view is showing. */
    method Line(v: nat, s: seq<u8>)
      requires Valid()
      modifies views, screen, log`history, log.total, log.have, log.attic
      ensures Valid() && keys == old(keys)
      ensures var w := if v in keys then v else 0;
        && log.history == old(log.history)[w := old(log.history[w]) + Wrap(code, s, true)]
        && (!(w == active && views[w].back == 0) ==> screen[..] == old(screen[..]))
        && forall u :: 0 <= u < VIEWS ==>
             views[u] == if u == w != active then old(views[u]).(unread := true) else old(views[u])
    {
      var w := if v >= VIEWS || !views[v].used then 0 else v;
      LogLine(w, s);
      ghost var vs := views[..];
      if w != active && !views[w].unread {
        views[w] := views[w].(unread := true);
        RelistBack(vs, keys, w, vs[w].back);
      }
    }

    /** The next row of a line: two spaces unless it is the first, its characters up to column 79, and spaces. */
    method MakeRow(s: seq<u8>, first: bool) returns (row: Row, n: nat)
      ensures row == WrapRow(code, s, first) && n == Taken(s, first)
    {
      var b: seq<u8> := if first then [] else [0x20, 0x20];
      ghost var indent := b;
      n := 0;
      while n < |s| && |b| < 79
        invariant 0 <= n <= |s| && |b| == |indent| + n <= 79 && b == indent + Coded(code, s[..n])
      {
        assert Coded(code, s[..n + 1]) == Coded(code, s[..n]) + [code(s[n])];
        b := b + [code(s[n])];
        n := n + 1;
      }
      ghost var text := b;
      while |b| < 80
        invariant |text| <= |b| <= 80 && b == text + Spaces(|b| - |text|)
        decreases 80 - |b|
      {
        b := b + [0x20];
      }
      assert indent == if first then [] else Spaces(2);
      row := b;
    }

    /** The rows of a line. */
    method LogLine(w: nat, s: seq<u8>)
      requires Valid() && w < VIEWS
      modifies screen, log`history, log.total, log.have, log.attic
      ensures Valid() && log.history == old(log.history)[w := old(log.history[w]) + Wrap(code, s, true)]
      ensures !(w == active && views[w].back == 0) ==> screen[..] == old(screen[..])
    {
      var rest, first := s, true;
      ghost var h0 := log.history;
      while rest != [] || first
        invariant Valid() && |log.history| == VIEWS
        invariant log.history == h0[w := log.history[w]]
        invariant !(w == active && views[w].back == 0) ==> screen[..] == old(screen[..])
        invariant log.history[w] + Wrap(code, rest, first) == h0[w] + Wrap(code, s, true)
        decreases |rest|, first
      {
        var row, n := MakeRow(rest, first);
        LogRow(w, row);
        rest, first := rest[n..], false;
      }
      assert log.history[w] + [] == log.history[w];
    }

    /** One row of a line: logged, and drawn if the view is showing and not scrolled back. */
    method LogRow(w: nat, row: Row)
      requires Valid() && w < VIEWS
      modifies screen, log`history, log.total, log.have, log.attic
      ensures Valid() && log.history == old(log.history)[w := old(log.history[w]) + [row]]
      ensures !(w == active && views[w].back == 0) ==> screen[..] == old(screen[..])
    {
      ghost var h := log.history[w];
      log.Append(w, row);
      if w == active && views[w].back == 0 {
        LiveRow(h, row);
      }
    }
  }

  function Int16(x: int): (r: int)
    ensures -0x8000 <= r < 0x8000
  {
    (x + 0x8000) % 0x1_0000 - 0x8000
  }

  /** How far back a scroll ends. */
  function Scrolled(back: nat, n: int, count: nat, rows: nat): nat
  {
    var most := if count > rows then count - rows else 0;
    var b := if n == 0 then 0 else Int16(back + n);
    if b < 0 then 0 else if b > most then most else b
  }

  /** No scroll within the rows a ring holds overflows. */
  lemma ScrolledIs(back: nat, n: int, count: nat, rows: nat)
    requires back <= 0x2000 && -0x8000 <= n && back + n < 0x8000 && n != 0
    ensures Scrolled(back, n, count, rows) == if back + n <= 0 || count <= rows then 0 else Least(back + n, count - rows)
  {
  }

  lemma RelistBack(views: seq<Channel>, keys: seq<nat>, v: nat, back: u16)
    requires Listed(views, keys) && v < VIEWS
    ensures forall c: Channel :: c.used == views[v].used ==> Listed(views[v := c], keys)
  {
  }

  lemma {:induction false} NoFewer(s: seq<nat>, n: nat)
    requires forall v: nat :: v < n ==> v in s
    ensures |s| >= n
    decreases n
  {
    if n > 0 {
      var t := Without(s, n - 1);
      forall v: nat | v < n - 1 ensures v in t {
        assert v in s;
        var j :| 0 <= j < |s| && s[j] == v;
        assert t[if j < IndexOf(s, n - 1) then j else j - 1] == v;
      }
      NoFewer(t, n - 1);
    }
  }

  lemma AllOpen(views: seq<Channel>, keys: seq<nat>)
    requires Listed(views, keys) && forall v :: 0 < v < VIEWS ==> views[v].used
    ensures |keys| == VIEWS
  {
    assert 0 in keys;
    NoFewer(keys, VIEWS);
    Fewer(keys, VIEWS + 1, VIEWS);
  }
}
