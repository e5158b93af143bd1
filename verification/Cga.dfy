/** Model of `cga_putc` (kern/console.c): the screen is the last window of an
    unbounded terminal. */
module Cga {
  import opened CString
  import Memory

  const COLS := 80
  const SIZE := 2000

  /** A blank cell in the default colours, `0x0700 | ' '`. */
  const BLANK := 0x0720

  // ---------------------------------------------------------------------------
  // Characters
  // ---------------------------------------------------------------------------

  /** `c & 0xff`. */
  function Low(c: int): int
  {
    c % 256
  }

  /** The cell for character `ch` in the colours of `c`; without colours, the
      default ones. Cells are 16 bits wide. */
  function Cell(c: int, ch: int): int
  {
    var colours := if 0 <= c < 256 then 0x700 else c - Low(c);
    (colours + ch) % 0x1_0000
  }

  // ---------------------------------------------------------------------------
  // The unbounded terminal
  // ---------------------------------------------------------------------------

  /** All rows ever shown, the first cell of the window and the cursor, both as
      positions in `cells`. */
  datatype Term = Term(cells: seq<int>, top: nat, cur: nat)
  {
    /** The window is the last 25 rows. */
    ghost predicate Sized()
    {
      |cells| == top + SIZE && top % COLS == 0
    }

    /** The cursor is in the window, or just past it. */
    ghost predicate Unscrolled()
    {
      Sized() && top <= cur <= top + SIZE
    }

    ghost predicate Valid()
    {
      Sized() && top <= cur < top + SIZE
    }

    function Window(): seq<int>
      requires top <= |cells|
    {
      cells[top..]
    }
  }

  /** The first position of the row of `p`. */
  function RowStart(p: nat): (r: nat)
    ensures r <= p < r + COLS && r % COLS == 0
  {
    p - p % COLS
  }

  /** Rows of the window start in the window. */
  lemma RowInWindow(top: nat, p: nat)
    requires top % COLS == 0 && top <= p < top + SIZE
    ensures top <= RowStart(p) && RowStart(p) + COLS <= top + SIZE
    ensures RowStart(p) - top == RowStart(p - top)
  {
  }

  /** A cursor past the window adds a blank row below and moves the window down by
      one row. */
  function Scroll(t: Term): (u: Term)
    requires t.Unscrolled()
    ensures u.Valid()
  {
    if t.cur >= t.top + SIZE then Term(t.cells + seq(COLS, _ => BLANK), t.top + COLS, t.cur) else t
  }

  /** One character other than a tab, before any scroll. The cursor does not go back
      past the top of the window. */
  function Placed(t: Term, c: int): (u: Term)
    requires t.Valid()
    ensures u.Unscrolled() && u.top == t.top && u.cells[..t.top] == t.cells[..t.top]
  {
    var low := Low(c);
    if low == BACKSPACE then
      if t.cur > t.top then Term(t.cells[t.cur - 1 := Cell(c, SPACE)], t.top, t.cur - 1) else t
    else if low == NEWLINE then
      RowInWindow(t.top, t.cur);
      Term(t.cells, t.top, RowStart(t.cur) + COLS)
    else if low == RETURN then
      RowInWindow(t.top, t.cur);
      Term(t.cells, t.top, RowStart(t.cur))
    else Term(t.cells[t.cur := Cell(c, low)], t.top, t.cur + 1)
  }

  function TypeOne(t: Term, c: int): (u: Term)
    requires t.Valid()
    ensures u.Valid()
  {
    Scroll(Placed(t, c))
  }

  /** One character; a tab is five spaces. */
  function Put1(t: Term, c: int): (u: Term)
    requires t.Valid()
    ensures u.Valid()
  {
    if Low(c) == TAB then
      var t1 := TypeOne(t, SPACE);
      var t2 := TypeOne(t1, SPACE);
      var t3 := TypeOne(t2, SPACE);
      var t4 := TypeOne(t3, SPACE);
      TypeOne(t4, SPACE)
    else TypeOne(t, c)
  }

  /** A sequence of characters. */
  function Type(t: Term, cs: seq<int>): (u: Term)
    requires t.Valid()
    ensures u.Valid()
    decreases |cs|
  {
    if cs == [] then t else Type(Put1(t, cs[0]), cs[1..])
  }

  // ---------------------------------------------------------------------------
  // Runs of characters
  // ---------------------------------------------------------------------------

  lemma TypeFirst(t: Term, c: int, cs: seq<int>)
    requires t.Valid()
    ensures Type(t, [c] + cs) == Type(Put1(t, c), cs)
  {
    assert ([c] + cs)[1..] == cs;
  }

  lemma {:induction false} TypeConcat(t: Term, cs: seq<int>, more: seq<int>)
    requires t.Valid()
    ensures Type(t, cs + more) == Type(Type(t, cs), more)
    decreases |cs|
  {
    if cs == [] {
      assert cs + more == more;
    } else {
      assert (cs + more)[1..] == cs[1..] + more;
      TypeConcat(Put1(t, cs[0]), cs[1..], more);
    }
  }

  /** From `t` to `u` the window has only moved down, and the rows above it are as
      they were. */
  ghost predicate Later(t: Term, u: Term)
  {
    && t.top <= |t.cells| && t.top <= u.top <= |u.cells|
    && u.cells[..t.top] == t.cells[..t.top]
  }

  lemma LaterChain(t: Term, u: Term, v: Term)
    requires Later(t, u) && Later(u, v)
    ensures Later(t, v)
  {
    assert v.cells[..t.top] == v.cells[..u.top][..t.top] == u.cells[..t.top];
  }

  /** One character keeps the rows above the window. */
  lemma TypeOneKeeps(t: Term, c: int)
    requires t.Valid()
    ensures Later(t, TypeOne(t, c))
  {
    var u := Placed(t, c);
    assert Scroll(u).cells[..t.top] == u.cells[..t.top];
  }

  lemma SpacesKeep(t: Term, t1: Term, t2: Term)
    requires t.Valid() && t1 == TypeOne(t, SPACE) && t2 == TypeOne(t1, SPACE)
    ensures Later(t, t2)
  {
    TypeOneKeeps(t, SPACE);
    TypeOneKeeps(t1, SPACE);
    LaterChain(t, t1, t2);
  }

  lemma Put1Keeps(t: Term, c: int, u: Term)
    requires t.Valid() && u == Put1(t, c)
    ensures Later(t, u)
  {
    if Low(c) == TAB {
      var t1 := TypeOne(t, SPACE);
      var t2 := TypeOne(t1, SPACE);
      var t3 := TypeOne(t2, SPACE);
      var t4 := TypeOne(t3, SPACE);
      SpacesKeep(t, t1, t2);
      SpacesKeep(t2, t3, t4);
      LaterChain(t, t2, t4);
      TypeOneKeeps(t4, SPACE);
      LaterChain(t, t4, u);
    } else {
      TypeOneKeeps(t, c);
    }
  }

  lemma {:induction false} TypeKeeps(t: Term, cs: seq<int>, u: Term)
    requires t.Valid() && u == Type(t, cs)
    ensures Later(t, u)
    decreases |cs|
  {
    if cs != [] {
      var s := Put1(t, cs[0]);
      Put1Keeps(t, cs[0], s);
      TypeKeeps(s, cs[1..], u);
      LaterChain(t, s, u);
    }
  }

  /** For every run of characters from every state: what has left the window at
      some point of the run is still there, unchanged, at its end. */
  lemma ScrolledRowsNeverChange(t: Term, before: seq<int>, after: seq<int>, u: Term, v: Term)
    requires t.Valid()
    requires u == Type(t, before) && v == Type(t, before + after)
    ensures u.top <= v.top && v.cells[..u.top] == u.cells[..u.top]
  {
    TypeConcat(t, before, after);
    TypeKeeps(u, after, v);
  }

  /** A tab types what five spaces type, colours of the tab aside. */
  lemma TabIsFiveSpaces(t: Term, c: int, cs: seq<int>)
    requires t.Valid() && Low(c) == TAB
    requires cs == [SPACE, SPACE, SPACE, SPACE, SPACE]
    ensures Type(t, cs) == Put1(t, c)
  {
    var t1 := TypeOne(t, SPACE);
    var t2 := TypeOne(t1, SPACE);
    var t3 := TypeOne(t2, SPACE);
    var t4 := TypeOne(t3, SPACE);
    var t5 := TypeOne(t4, SPACE);
    assert cs == [SPACE] + cs[1..] && cs[1..] == [SPACE] + cs[2..] && cs[2..] == [SPACE] + cs[3..];
    assert cs[3..] == [SPACE] + cs[4..] && cs[4..] == [SPACE] + [];
    TypeFirst(t4, SPACE, []);
    TypeFirst(t3, SPACE, cs[4..]);
    TypeFirst(t2, SPACE, cs[3..]);
    TypeFirst(t1, SPACE, cs[2..]);
    TypeFirst(t, SPACE, cs[1..]);
    assert Type(t5, []) == t5;
  }

  // ---------------------------------------------------------------------------
  // What one character does
  // ---------------------------------------------------------------------------

  /** The cell that shows `ch` in the colours of `c`: the low byte is the character,
      the high byte the colours, light grey on black if there are none. */
  function Coloured(c: int, ch: int): int
  {
    (if 0 <= c < 256 then 7 else c / 256 % 256) * 256 + ch
  }

  lemma CellIsColoured(c: int, ch: int)
    requires 0 <= ch < 256
    ensures Cell(c, ch) == Coloured(c, ch)
  {
    if !(0 <= c < 256) {
      ColoursAndCharacter(c / 256, ch);
      assert c - c % 256 == 256 * (c / 256);
    }
  }

  lemma ColoursAndCharacter(colours: int, ch: int)
    requires 0 <= ch < 256
    ensures (256 * colours + ch) % 0x1_0000 == colours % 256 * 256 + ch
  {
    assert 256 * colours + ch == 0x1_0000 * (colours / 256) + (256 * (colours % 256) + ch);
  }

  /** A newline goes to the start of the next row, 1 to 80 cells further on. It writes
      no cell. From the last row of the window, a blank row is added below and the
      window moves down by one row. */
  lemma NewlineMoves(t: Term, c: int, u: Term)
    requires t.Valid() && c % 256 == '\n' as int && u == Put1(t, c)
    ensures u.cur % 80 == 0 && t.cur < u.cur <= t.cur + 80
    ensures u.cur < t.top + 2000 ==> u.cells == t.cells && u.top == t.top
    ensures u.cur >= t.top + 2000 ==> u.cells == t.cells + seq(80, _ => 0x0720) && u.top == t.top + 80
  {
    RowInWindow(t.top, t.cur);
  }

  /** A return goes to the start of the row. */
  lemma ReturnMoves(t: Term, c: int, u: Term)
    requires t.Valid() && c % 256 == '\r' as int && u == Put1(t, c)
    ensures u.cur % 80 == 0 && u.cur <= t.cur < u.cur + 80
    ensures u.cells == t.cells && u.top == t.top
  {
    RowInWindow(t.top, t.cur);
  }

  /** A backspace blanks the cell before the cursor and goes there; at the start of
      the window it does nothing. */
  lemma BackspaceErases(t: Term, c: int, u: Term)
    requires t.Valid() && c % 256 == 8 && u == Put1(t, c)
    ensures u.top == t.top && |u.cells| == |t.cells|
    ensures t.cur == t.top ==> u == t
    ensures t.cur > t.top ==> u.cur == t.cur - 1 && u.cells[u.cur] == Coloured(c, ' ' as int)
    ensures forall j :: 0 <= j < |t.cells| && j != u.cur ==> u.cells[j] == t.cells[j]
  {
    CellIsColoured(c, SPACE);
  }

  /** Any other character is put in the cell at the cursor, which goes to the next
      one. After the last cell of the window, a blank row is added below and the
      window moves down by one row. */
  lemma CharacterIsPut(t: Term, c: int, u: Term)
    requires t.Valid() && c % 256 !in {8, '\t' as int, '\n' as int, '\r' as int} && u == Put1(t, c)
    ensures u.cur == t.cur + 1 && |u.cells| >= |t.cells| && u.cells[t.cur] == Coloured(c, c % 256)
    ensures forall j :: 0 <= j < |t.cells| && j != t.cur ==> u.cells[j] == t.cells[j]
    ensures t.cur + 1 < t.top + 2000 ==> |u.cells| == |t.cells| && u.top == t.top
    ensures t.cur + 1 == t.top + 2000 ==>
              u.cells[|t.cells|..] == seq(80, _ => 0x0720) && u.top == t.top + 80
  {
    CellIsColoured(c, c % 256);
  }

  // ---------------------------------------------------------------------------
  // The screen
  // ---------------------------------------------------------------------------

  /** `crt_buf` and `crt_pos`, with the terminal of which they are the window. */
  class Screen {
    const buf: array<int>
    var pos: nat
    ghost var term: Term

    ghost predicate Valid()
      reads this, buf
    {
      && term.Valid()
      && buf[..] == term.Window()
      && pos == term.cur - term.top
    }

    /** Any screen with the cursor on it, as `cga_init` finds it. */
    constructor (b: array<int>, p: nat)
      requires b.Length == SIZE && p < SIZE
      ensures Valid() && buf == b && term == Term(b[..], 0, p)
    {
      buf, pos, term := b, p, Term(b[..], 0, p);
    }

    /** `cons_putc(c)`, as far as the screen is concerned: the serial and parallel
        ports get the same character. */
    method ConsPutc(c: int)
      requires Valid()
      modifies this, buf
      ensures Valid() && term == Put1(old(term), c)
      decreases if Low(c) == TAB then 1 else 0, 1
    {
      Putc(c);
    }

    /** `cga_putc(c)`. On `crt_buf` and `crt_pos`: a newline, a return, a backspace and
        any character that is not a tab. */
    method Putc(c: int)
      requires Valid()
      modifies this, buf
      ensures Valid() && term == Put1(old(term), c)
      ensures c % 256 != '\t' as int ==> AfterPutc(old(buf[..]), old(pos), c, buf[..], pos)
      decreases if Low(c) == TAB then 1 else 0, 0
    {
      if Low(c) == TAB {
        ConsPutc(SPACE);
        ConsPutc(SPACE);
        ConsPutc(SPACE);
        ConsPutc(SPACE);
        ConsPutc(SPACE);
      } else {
        Place(c);
      }
      ScrollScreen();
      if c % 256 != TAB {
        PutcOnScreen(old(term), c, term, old(buf[..]), old(pos), buf[..], pos);
      }
    }

    /** The `switch` of `cga_putc`, for a character other than a tab. The cursor may
        end up just past the screen. */
    method Place(c: int)
      requires Valid() && Low(c) != TAB
      modifies this, buf
      ensures Unscrolled() && term == Placed(old(term), c)
    {
      ghost var t := term;
      if Low(c) == BACKSPACE {
        if pos > 0 {
          pos := pos - 1;
          buf[pos] := Cell(c, SPACE);
        }
      } else if Low(c) == NEWLINE {
        RowInWindow(t.top, t.cur);
        pos := pos + COLS;
        pos := pos - pos % COLS;
      } else if Low(c) == RETURN {
        RowInWindow(t.top, t.cur);
        pos := pos - pos % COLS;
      } else {
        buf[pos] := Cell(c, Low(c));
        pos := pos + 1;
      }
      term := Placed(t, c);
    }

    /** As `Valid`, with the cursor possibly just past the screen. */
    ghost predicate Unscrolled()
      reads this, buf
    {
      && term.Unscrolled()
      && buf[..] == term.Window()
      && pos == term.cur - term.top
    }

    /** The scroll at the end of `cga_putc`: up by one row, and a blank last row. */
    method ScrollScreen()
      requires Unscrolled()
      modifies this, buf
      ensures Valid() && term == Scroll(old(term))
    {
      if pos >= SIZE {
        ghost var was := buf[..];
        Memory.Memmove(buf, 0, COLS, SIZE - COLS);
        assert forall j :: 0 <= j < SIZE - COLS ==> buf[j] == buf[..][j] == was[j + COLS];
        var i := SIZE - COLS;
        while i < SIZE
          invariant SIZE - COLS <= i <= SIZE && buf.Length == SIZE
          invariant pos == old(pos) && term == old(term)
          invariant forall j :: 0 <= j < SIZE - COLS ==> buf[j] == was[j + COLS]
          invariant forall j :: SIZE - COLS <= j < i ==> buf[j] == BLANK
        {
          buf[i] := BLANK;
          i := i + 1;
        }
        ScrolledWindow(term, was, buf[..]);
        pos := pos - COLS;
        term := Scroll(term);
      }
    }
  }

  /** The cells and the cursor once the screen was scrolled, if `p` is past its 25
      rows: then all rows go up by one and the last one becomes blank. */
  ghost predicate Scrolled(cells: seq<int>, p: int, now: seq<int>, pos: int)
    requires |cells| == 2000
  {
    if p < 2000 then now == cells && pos == p
    else
      && |now| == 2000 && pos == p - 80
      && (forall j :: 0 <= j < 1920 ==> now[j] == cells[j + 80])
      && (forall j :: 1920 <= j < 2000 ==> now[j] == 0x0720)
  }

  /** The screen `now` with the cursor at `pos`, after a character that is not a tab on
      the screen `was` with the cursor at `p`: a newline, a return, a backspace, and
      any other. */
  ghost predicate AfterPutc(was: seq<int>, p: nat, c: int, now: seq<int>, pos: nat)
  {
    && |was| == 2000 && p < 2000
    && if c % 256 == '\n' as int then Scrolled(was, p - p % 80 + 80, now, pos)
       else if c % 256 == '\r' as int then Scrolled(was, p - p % 80, now, pos)
       else if c % 256 == 8 then
         if p == 0 then Scrolled(was, 0, now, pos)
         else Scrolled(was[p - 1 := Coloured(c, ' ' as int)], p - 1, now, pos)
       else Scrolled(was[p := Coloured(c, c % 256)], p + 1, now, pos)
  }

  /** A window on the terminal, after the window moved down if need be. */
  lemma ScrolledTerm(t: Term, cells: seq<int>, cur: nat, u: Term, was: seq<int>, p: nat, now: seq<int>, pos: nat)
    requires t.Sized() && |cells| == |t.cells| && t.top <= cur <= t.top + 2000
    requires u == Scroll(Term(cells, t.top, cur)) && was == cells[t.top..] && p == cur - t.top
    requires now == u.Window() && pos == u.cur - u.top
    ensures |was| == 2000 && Scrolled(was, p, now, pos)
  {
    if cur == t.top + 2000 {
      var all := cells + seq(80, _ => 0x0720);
      assert u == Term(all, t.top + 80, cur) && now == all[t.top + 80..];
      assert forall j :: 0 <= j < 1920 ==> now[j] == all[t.top + 80 + j] == cells[t.top + 80 + j] == was[j + 80];
      assert forall j :: 1920 <= j < 2000 ==> now[j] == all[t.top + 80 + j];
    }
  }

  lemma PutcOnScreen(t: Term, c: int, u: Term, was: seq<int>, p: nat, now: seq<int>, pos: nat)
    requires t.Valid() && c % 256 != '\t' as int && u == Put1(t, c)
    requires was == t.Window() && p == t.cur - t.top
    requires now == u.Window() && pos == u.cur - u.top
    ensures AfterPutc(was, p, c, now, pos)
  {
    var v := Placed(t, c);
    RowInWindow(t.top, t.cur);
    CellIsColoured(c, c % 256);
    CellIsColoured(c, SPACE);
    ScrolledTerm(t, v.cells, v.cur, u, v.cells[t.top..], v.cur - t.top, now, pos);
    var low := c % 256;
    if low == 8 && p > 0 {
      assert v.cells[t.top..] == was[p - 1 := Coloured(c, ' ' as int)];
    } else if low != 8 && low != 10 && low != 13 {
      assert v.cells[t.top..] == was[p := Coloured(c, low)];
    }
  }

  /** The window after a scroll: all rows up by one, and a blank one. */
  lemma ScrolledWindow(t: Term, was: seq<int>, w: seq<int>)
    requires t.Unscrolled() && t.cur >= t.top + SIZE && was == t.Window() && |w| == SIZE
    requires forall j :: 0 <= j < SIZE - COLS ==> w[j] == was[j + COLS]
    requires forall j :: SIZE - COLS <= j < SIZE ==> w[j] == BLANK
    ensures w == Scroll(t).Window()
  {
    var u := Scroll(t);
    forall j | 0 <= j < SIZE
      ensures w[j] == u.Window()[j]
    {
      assert u.Window()[j] == u.cells[t.top + COLS + j];
      if j < SIZE - COLS {
        assert was[j + COLS] == t.cells[t.top + j + COLS];
      }
    }
  }
}
