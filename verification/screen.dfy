/** The text screen (kernel/drivers/screen.c) as a window on a sheet that never scrolls. */
module Screens {
  import opened Bytes
  import opened Memcpys
  import opened Memsets

  const COLS: nat := 80
  const ROWS: nat := 25
  const CELLS: nat := COLS * ROWS
  const SPACE: byte := 32
  const NEWLINE: byte := 10
  const RETURN: byte := 13
  const TAB: byte := 9
  const BACKSPACE: byte := 8

  datatype Cell = Cell(ch: byte, attribute: byte)

  /** COLOUR(fg, bg), before it is cut down to the byte it is stored in. */
  function Colour(fg: byte, bg: byte): int {
    fg as int * 0x100 + bg as int
  }

  /** As stored, the foreground is lost. */
  lemma ColourIsBackground(fg: byte, bg: byte)
    ensures Colour(fg, bg) % 0x100 == bg as int
  {
  }

  function GetOffset(col: nat, row: nat): nat {
    2 * (row * COLS + col)
  }

  function GetOffsetRow(offset: nat): nat {
    offset / (2 * COLS)
  }

  function GetOffsetCol(offset: nat): nat {
    (offset - GetOffsetRow(offset) * 2 * COLS) / 2
  }

  /** Row and column of an offset lead back to it, and are those of its cell. */
  lemma RowAndCol(cell: nat)
    ensures GetOffsetRow(2 * cell) == cell / COLS && GetOffsetCol(2 * cell) == cell % COLS
    ensures GetOffset(GetOffsetCol(2 * cell), GetOffsetRow(2 * cell)) == 2 * cell
  {
  }

  /**
   * set_cursor_offset halves the offset before it computes the console's coordinates from it: current_y is right
   * exactly in row 0, current_x exactly at the first cell of an even row and the last cell of an odd one.
   */
  lemma ConsoleCoordinates(cell: nat)
    requires cell < CELLS
    ensures GetOffsetRow(cell) == cell / COLS <==> cell < COLS
    ensures GetOffsetCol(cell) == cell % COLS <==> cell % (2 * COLS) == 0 || cell % (2 * COLS) == 2 * COLS - 1
  {
    var q, r := cell / (2 * COLS), cell % (2 * COLS);
    assert cell == 2 * COLS * q + r;
    assert GetOffsetCol(cell) == r / 2;
    if r < COLS {
      assert cell / COLS == 2 * q && cell % COLS == r;
    } else {
      assert cell / COLS == 2 * q + 1 && cell % COLS == r - COLS;
    }
  }

  /**
   * A sheet of rows of 80 cells without end. What was on the screen at the start is its first 25 rows, and every
   * later row starts out zeroed. Writing moves along the sheet and never moves the sheet.
   */
  datatype Sheet = Sheet(origin: seq<Cell>, written: map<nat, Cell>, pos: nat, attribute: byte)

  function BlankSheet(attribute: byte): Sheet {
    Sheet(seq(CELLS, (k: nat) => Cell(SPACE, attribute)), map[], 0, attribute)
  }

  function CellAt(s: Sheet, k: nat): Cell {
    if k in s.written then s.written[k] else if k < |s.origin| then s.origin[k] else Cell(0, 0)
  }

  function WriteCell(s: Sheet, k: nat, ch: byte): Sheet {
    s.(written := s.written[k := Cell(ch, s.attribute)])
  }

  /** The meaning of a character on the sheet. Backspace at the very start is left without one. */
  function Put(s: Sheet, ch: byte): Sheet {
    if ch == NEWLINE then s.(pos := (s.pos / COLS + 1) * COLS)
    else if ch == RETURN then s.(pos := s.pos / COLS * COLS)
    else if ch == TAB then s.(pos := s.pos + 4)
    else if ch == BACKSPACE then
      if s.pos == 0 then s else WriteCell(s, s.pos - 1, SPACE).(pos := s.pos - 1)
    else WriteCell(s, s.pos, ch).(pos := s.pos + 1)
  }

  function PutAll(s: Sheet, text: seq<byte>): Sheet
    decreases |text|
  {
    if text == [] then s else PutAll(Put(s, text[0]), text[1..])
  }

  predicate Plain(ch: byte) {
    ch !in {NEWLINE, RETURN, TAB, BACKSPACE}
  }

  /** Text without control characters fills the cells from the position on, in order, and changes no other. */
  lemma {:induction false} PlainText(s: Sheet, text: seq<byte>)
    requires forall i :: 0 <= i < |text| ==> Plain(text[i])
    ensures var t := PutAll(s, text);
      && t.pos == s.pos + |text| && t.attribute == s.attribute
      && (forall k: nat :: k < s.pos || s.pos + |text| <= k ==> CellAt(t, k) == CellAt(s, k))
      && (forall i: nat :: i < |text| ==> CellAt(t, s.pos + i) == Cell(text[i], s.attribute))
    decreases |text|
  {
    if text != [] {
      var u, t := Put(s, text[0]), PutAll(s, text);
      assert Plain(text[0]);
      PlainText(u, text[1..]);
      forall i: nat | i < |text| ensures CellAt(t, s.pos + i) == Cell(text[i], s.attribute) {
        if 0 < i {
          assert CellAt(t, u.pos + (i - 1)) == Cell(text[1..][i - 1], u.attribute);
        } else {
          assert CellAt(t, s.pos) == CellAt(u, s.pos);
        }
      }
    }
  }

  /** Newline leads to the start of the next row, return to that of its own, tab four cells on; none changes a cell. */
  lemma Movements(s: Sheet)
    ensures var t := Put(s, NEWLINE); t.pos % COLS == 0 && t.pos / COLS == s.pos / COLS + 1 && t == s.(pos := t.pos)
    ensures var t := Put(s, RETURN); t.pos % COLS == 0 && t.pos / COLS == s.pos / COLS && t == s.(pos := t.pos)
    ensures Put(s, TAB) == s.(pos := s.pos + 4)
  {
    var q := s.pos / COLS;
    assert (q + 1) * COLS / COLS == q + 1 && q * COLS / COLS == q;
  }

  /** Backspace after a character takes the position back to where the character is, and blanks that cell. */
  lemma BackspaceUndoes(s: Sheet, ch: byte)
    requires Plain(ch)
    ensures var t := Put(Put(s, ch), BACKSPACE);
      && t.pos == s.pos && CellAt(t, s.pos) == Cell(SPACE, s.attribute)
      && forall k: nat :: k != s.pos ==> CellAt(t, k) == CellAt(s, k)
  {
  }

  /** The window's first row after a character: one row further down when the character leaves the window. */
  function NextBase(s: Sheet, base: nat, ch: byte): nat {
    if Put(s, ch).pos >= COLS * (base + ROWS) then base + 1 else base
  }

  function BaseAfter(s: Sheet, base: nat, text: seq<byte>): nat
    decreases |text|
  {
    if text == [] then base else BaseAfter(Put(s, text[0]), NextBase(s, base, text[0]), text[1..])
  }

  /** No backspace is put while the cursor is at the first cell of the window. */
  predicate StaysInside(s: Sheet, base: nat, text: seq<byte>)
    decreases |text|
  {
    text == [] || (
      && !(text[0] == BACKSPACE && s.pos == COLS * base)
      && StaysInside(Put(s, text[0]), NextBase(s, base, text[0]), text[1..]))
  }

  /** The writing position is in the window, and nothing was written below it. */
  ghost predicate InWindow(s: Sheet, base: nat) {
    && |s.origin| == CELLS
    && COLS * base <= s.pos < COLS * (base + ROWS)
    && forall k :: k in s.written ==> k < COLS * (base + ROWS)
  }

  lemma RowStart(base: nat, pos: nat)
    requires COLS * base <= pos < COLS * (base + ROWS)
    ensures base <= pos / COLS < base + ROWS
    ensures pos - pos % COLS == pos / COLS * COLS
  {
  }

  /** One scroll for each character is enough, and what was scrolled off never changes. */
  lemma PutStays(s: Sheet, base: nat, ch: byte)
    requires InWindow(s, base) && !(ch == BACKSPACE && s.pos == COLS * base)
    ensures InWindow(Put(s, ch), NextBase(s, base, ch))
    ensures forall k :: 0 <= k < COLS * base ==> CellAt(Put(s, ch), k) == CellAt(s, k)
  {
    RowStart(base, s.pos);
  }

  /** Over any text: the cursor stays in the window, and the rows that were scrolled off before it never change. */
  lemma {:induction false} ScrolledOffIsKept(s: Sheet, base: nat, text: seq<byte>)
    requires InWindow(s, base) && StaysInside(s, base, text)
    ensures InWindow(PutAll(s, text), BaseAfter(s, base, text)) && base <= BaseAfter(s, base, text)
    ensures forall k :: 0 <= k < COLS * base ==> CellAt(PutAll(s, text), k) == CellAt(s, k)
    decreases |text|
  {
    if text != [] {
      PutStays(s, base, text[0]);
      ScrolledOffIsKept(Put(s, text[0]), NextBase(s, base, text[0]), text[1..]);
    }
  }

  function Max(a: int, b: int): int {
    if a < b then b else a
  }

  /** The furthest row that the position reaches. */
  function Reached(s: Sheet, text: seq<byte>): nat
    decreases |text|
  {
    if text == [] then s.pos / COLS else Max(s.pos / COLS, Reached(Put(s, text[0]), text[1..]))
  }

  /** The window is as high up as showing the furthest row reached allows. */
  lemma {:induction false} WindowFollows(s: Sheet, base: nat, text: seq<byte>)
    requires InWindow(s, base) && StaysInside(s, base, text)
    ensures BaseAfter(s, base, text) == Max(base, Reached(s, text) - (ROWS - 1))
    decreases |text|
  {
    RowStart(base, s.pos);
    if text != [] {
      var next, t := NextBase(s, base, text[0]), Put(s, text[0]);
      PutStays(s, base, text[0]);
      WindowFollows(t, next, text[1..]);
      ReachedFirst(t, text[1..]);
      RowStart(next, t.pos);
    }
  }

  lemma ReachedFirst(s: Sheet, text: seq<byte>)
    ensures Reached(s, text) >= s.pos / COLS
  {
  }

  /** Cell k of video memory. */
  function CellIn(m: seq<byte>, k: nat): Cell
    requires 2 * k + 1 < |m|
  {
    Cell(m[2 * k], m[2 * k + 1])
  }

  /** Video memory shows the 25 rows of the sheet that start at row base. */
  ghost predicate Shows(m: seq<byte>, s: Sheet, base: nat) {
    |m| == 2 * CELLS && forall k :: 0 <= k < CELLS ==> CellIn(m, k) == CellAt(s, COLS * base + k)
  }

  /** Going from m to n stored one cell. */
  ghost predicate StoredCell(m: seq<byte>, n: seq<byte>, k: nat, c: Cell) {
    && |n| == |m| == 2 * CELLS && k < CELLS && CellIn(n, k) == c
    && forall j :: 0 <= j < CELLS && j != k ==> CellIn(n, j) == CellIn(m, j)
  }

  lemma StoreShows(m: seq<byte>, n: seq<byte>, s: Sheet, base: nat, k: nat, ch: byte)
    requires Shows(m, s, base) && StoredCell(m, n, k, Cell(ch, s.attribute))
    ensures Shows(n, WriteCell(s, COLS * base + k, ch), base)
  {
    var t := WriteCell(s, COLS * base + k, ch);
    forall j | 0 <= j < CELLS ensures CellIn(n, j) == CellAt(t, COLS * base + j) {
      assert j != k ==> CellIn(n, j) == CellIn(m, j);
    }
  }

  /** Rows 1 to 24 moved up by one, the last one zeroed. */
  ghost predicate ScrolledUp(m: seq<byte>, n: seq<byte>) {
    && |n| == |m| == 2 * CELLS
    && (forall k :: 0 <= k < CELLS - COLS ==> CellIn(n, k) == CellIn(m, k + COLS))
    && (forall k :: CELLS - COLS <= k < CELLS ==> CellIn(n, k) == Cell(0, 0))
  }

  lemma ScrollShows(m: seq<byte>, n: seq<byte>, s: Sheet, base: nat)
    requires Shows(m, s, base) && ScrolledUp(m, n) && |s.origin| == CELLS
    requires forall k :: k in s.written ==> k < COLS * (base + ROWS)
    ensures Shows(n, s, base + 1)
  {
    forall k | 0 <= k < CELLS ensures CellIn(n, k) == CellAt(s, COLS * (base + 1) + k) {
      if k < CELLS - COLS {
        assert CellIn(m, k + COLS) == CellAt(s, COLS * base + (k + COLS));
      }
    }
  }

  /** Where a character leads on a screen without scrolling, as a cell. */
  function Moved(cell: nat, ch: byte): nat
    requires ch == BACKSPACE ==> 0 < cell
  {
    if ch == NEWLINE then (cell / COLS + 1) * COLS
    else if ch == RETURN then cell / COLS * COLS
    else if ch == TAB then cell + 4
    else if ch == BACKSPACE then cell - 1
    else cell + 1
  }

  /** The cell that a character is stored in, if any, and what is stored. */
  predicate OnlyMoves(ch: byte) {
    ch == NEWLINE || ch == RETURN || ch == TAB
  }

  function Target(cell: nat, ch: byte): nat
    requires ch == BACKSPACE ==> 0 < cell
  {
    if ch == BACKSPACE then cell - 1 else cell
  }

  function Glyph(ch: byte): byte {
    if ch == BACKSPACE then SPACE else ch
  }

  ghost predicate Stamped(m: seq<byte>, n: seq<byte>, cell: nat, ch: byte, attribute: byte)
    requires ch == BACKSPACE ==> 0 < cell
  {
    if OnlyMoves(ch) then m == n else StoredCell(m, n, Target(cell, ch), Cell(Glyph(ch), attribute))
  }

  /** The window moves in whole rows, so a step on the sheet is the same step on the screen. */
  lemma SameMove(s: Sheet, base: nat, cell: nat, ch: byte)
    requires s.pos == COLS * base + cell && (ch == BACKSPACE ==> 0 < cell)
    ensures Put(s, ch).pos == COLS * base + Moved(cell, ch)
  {
    assert s.pos / COLS == base + cell / COLS;
  }

  lemma PutShows(m: seq<byte>, n: seq<byte>, s: Sheet, base: nat, cell: nat, ch: byte)
    requires Shows(m, s, base) && s.pos == COLS * base + cell && cell < CELLS && (ch == BACKSPACE ==> 0 < cell)
    requires Stamped(m, n, cell, ch, s.attribute)
    ensures Shows(n, Put(s, ch), base)
  {
    if !OnlyMoves(ch) {
      StoreShows(m, n, s, base, Target(cell, ch), Glyph(ch));
      var t := WriteCell(s, COLS * base + Target(cell, ch), Glyph(ch));
      assert Put(s, ch).written == t.written;
      SameCells(n, t, Put(s, ch), base);
    } else {
      SameCells(n, s, Put(s, ch), base);
    }
  }

  lemma SameCells(m: seq<byte>, s: Sheet, t: Sheet, base: nat)
    requires Shows(m, s, base) && s.origin == t.origin && s.written == t.written
    ensures Shows(m, t, base)
  {
    forall k | 0 <= k < CELLS ensures CellIn(m, k) == CellAt(t, COLS * base + k) {
      assert CellAt(t, COLS * base + k) == CellAt(s, COLS * base + k);
    }
  }

  lemma RegisterBytes(half: nat)
    requires half < 0x1_0000
    ensures half / 0x100 % 0x100 * 0x100 + half % 0x100 == half
  {
  }

  class Screen {
    const vidmem: array<byte>
    /** The cursor location registers of the display controller, high and low byte. */
    var high: byte
    var low: byte
    var fgColour: byte
    var bgColour: byte
    var currentX: nat
    var currentY: nat

    /** The cell the cursor is on. */
    ghost function Cursor(): nat
      reads this
    {
      high as int * 0x100 + low as int
    }

    ghost predicate Valid()
      reads this
    {
      vidmem.Length == 2 * CELLS && Cursor() < CELLS
    }

    /** The screen shows the sheet from row base on, with the cursor at the sheet's position. */
    ghost predicate Displays(s: Sheet, base: nat)
      reads this, vidmem
    {
      && Valid() && InWindow(s, base) && Shows(vidmem[..], s, base)
      && s.pos == COLS * base + Cursor() && s.attribute == bgColour
    }

    /** init_display, over whatever the hardware holds. */
    constructor (vidmem: array<byte>, high: byte, low: byte)
      ensures this.vidmem == vidmem && this.high == high && this.low == low && fgColour == 0 && bgColour == 0xF
      ensures currentX == 0 && currentY == 0
    {
      this.vidmem, this.high, this.low := vidmem, high, low;
      fgColour, bgColour, currentX, currentY := 0, 0xF, 0, 0;
    }

    method GetCursorOffset() returns (offset: nat)
      ensures offset == 2 * Cursor()
    {
      offset := high as int * 0x100;
      offset := offset + low as int;
      return offset * 2;
    }

    method SetCursorOffset(offset: nat)
      requires offset % 2 == 0 && offset < 2 * CELLS
      modifies this`high, this`low, this`currentX, this`currentY
      ensures 2 * Cursor() == offset
      ensures currentX == GetOffsetCol(offset / 2) && currentY == GetOffsetRow(offset / 2)
    {
      var half := offset / 2;
      currentX := GetOffsetCol(half);
      currentY := GetOffsetRow(half);
      RegisterBytes(half);
      high := half / 0x100 % 0x100;
      low := half % 0x100;
    }

    method Store(offset: nat, ch: byte)
      requires vidmem.Length == 2 * CELLS && offset % 2 == 0 && offset < 2 * CELLS
      modifies vidmem
      ensures StoredCell(old(vidmem[..]), vidmem[..], offset / 2, Cell(ch, bgColour))
    {
      ColourIsBackground(fgColour, bgColour);
      vidmem[offset] := ch;
      vidmem[offset + 1] := Colour(fgColour, bgColour) % 0x100;
      assert offset == 2 * (offset / 2);
    }

    method ScrollUp()
      requires vidmem.Length == 2 * CELLS
      modifies vidmem
      ensures ScrolledUp(old(vidmem[..]), vidmem[..])
    {
      var i := 0;
      while i < ROWS - 1
        invariant i <= ROWS - 1
        invariant forall k :: 0 <= k < 2 * COLS * i ==> vidmem[k] == old(vidmem[..])[k + 2 * COLS]
        invariant forall k :: 2 * COLS * i <= k < 2 * CELLS ==> vidmem[k] == old(vidmem[..])[k]
      {
        var steps := Memcpy(vidmem, GetOffset(0, i), GetOffset(0, i + 1), 2 * COLS);
        i := i + 1;
      }
      Memset(vidmem, GetOffset(0, ROWS - 1), 0, 2 * COLS);
    }

    method PutChar(ch: byte, ghost s: Sheet, ghost base: nat) returns (cursor: nat)
      requires Displays(s, base) && !(ch == BACKSPACE && Cursor() == 0)
      modifies vidmem, this`high, this`low, this`currentX, this`currentY
      ensures Displays(Put(s, ch), NextBase(s, base, ch)) && cursor == 2 * Cursor()
    {
      hide Shows, Stamped;
      PutStays(s, base, ch);
      cursor := GetCursorOffset();
      SameMove(s, base, Cursor(), ch);
      cursor := Stamp(cursor, ch);
      PutShows(old(vidmem[..]), vidmem[..], s, base, Cursor(), ch);
      if cursor >= ROWS * COLS * 2 {
        ghost var before := vidmem[..];
        ScrollUp();
        ScrollShows(before, vidmem[..], Put(s, ch), base);
        cursor := cursor - 2 * COLS;
      }
      SetCursorOffset(cursor);
    }

    /** The branches of put_char: what is stored, and where the cursor would be without scrolling. */
    method Stamp(at: nat, ch: byte) returns (cursor: nat)
      requires Valid() && at == 2 * Cursor() && (ch == BACKSPACE ==> 0 < Cursor())
      modifies vidmem
      ensures Stamped(old(vidmem[..]), vidmem[..], Cursor(), ch, bgColour)
      ensures cursor == 2 * Moved(Cursor(), ch)
    {
      cursor := at;
      RowAndCol(Cursor());
      var row := GetOffsetRow(cursor);
      var col := GetOffsetCol(cursor);
      if ch == NEWLINE {
        cursor := GetOffset(0, row + 1);
      } else if ch == RETURN {
        cursor := GetOffset(0, row);
      } else if ch == TAB {
        cursor := GetOffset(col + 4, row);
      } else if ch == BACKSPACE {
        cursor := cursor - 2;
        Store(cursor, SPACE);
      } else {
        Store(cursor, ch);
        cursor := cursor + 2;
      }
    }

    /** A string ends at its first zero byte. The result also counts that byte. */
    method PutString(str: seq<byte>, ghost n: nat, ghost s: Sheet, ghost base: nat) returns (i: nat)
      requires n < |str| && str[n] == 0 && forall k :: 0 <= k < n ==> str[k] != 0
      requires Displays(s, base) && StaysInside(s, base, str[..n])
      modifies vidmem, this`high, this`low, this`currentX, this`currentY
      ensures Displays(PutAll(s, str[..n]), BaseAfter(s, base, str[..n]))
      ensures i == n + 1
    {
      i := 0;
      ghost var t, b := s, base;
      var c := str[i];
      i := i + 1;
      while c != 0
        invariant 1 <= i <= n + 1 && c == str[i - 1] && Displays(t, b)
        invariant StaysInside(t, b, str[i - 1..n])
        invariant PutAll(t, str[i - 1..n]) == PutAll(s, str[..n])
        invariant BaseAfter(t, b, str[i - 1..n]) == BaseAfter(s, base, str[..n])
        decreases n - i + 1
      {
        ghost var rest := str[i - 1..n];
        assert rest[0] == c && rest[1..] == str[i..n];
        var offset := PutChar(c, t, b);
        t, b := Put(t, c), NextBase(t, b, c);
        c := str[i];
        i := i + 1;
      }
    }

    method ClearScreen()
      requires vidmem.Length == 2 * CELLS
      modifies vidmem, this`high, this`low, this`currentX, this`currentY
      ensures Displays(BlankSheet(bgColour), 0)
    {
      var i := 0;
      while i < CELLS
        invariant i <= CELLS
        invariant forall k :: 0 <= k < i ==> CellIn(vidmem[..], k) == Cell(SPACE, bgColour)
      {
        Store(i * 2, SPACE);
        i := i + 1;
      }
      SetCursorOffset(GetOffset(0, 0));
    }
  }
}
