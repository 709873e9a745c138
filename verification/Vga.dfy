/** The text console: an 80x25 cell buffer that scrolls in place. */
module Vga {
  import opened Words

  const WIDTH := 80
  const HEIGHT := 25
  const CELLS := 2000
  const NEWLINE: schar := 10
  const BLANK: u16 := 0x0F20

  type u16 = x: int | 0 <= x < 0x1_0000

  /** (color << 8) | ch, with `ch` sign-extended by the usual conversions, stored in 16 bits. */
  function Cell(ch: schar, color: byte): u16 {
    Or32(color * 0x100, if ch < 0 then U32_LIMIT + ch else ch) % 0x1_0000
  }

  // ---------------------------------------------------------------- the console on values

  datatype Screen = Screen(cells: seq<u16>, x: nat, y: nat)

  predicate InRange(s: Screen) {
    |s.cells| == CELLS && s.x < WIDTH && s.y < HEIGHT
  }

  function Blanks(n: nat): (r: seq<u16>)
    ensures |r| == n && forall k :: 0 <= k < n ==> r[k] == BLANK
  {
    seq(n, _ => BLANK)
  }

  /** vga_scroll_up */
  function Scroll(cells: seq<u16>): seq<u16>
    requires |cells| == CELLS
  {
    cells[WIDTH..] + Blanks(WIDTH)
  }

  /** Move the cursor to the start of the next line, scrolling at the bottom. */
  function NextLine(s: Screen): (r: Screen)
    requires InRange(s)
    ensures InRange(r)
  {
    if s.y + 1 < HEIGHT then s.(x := 0, y := s.y + 1)
    else Screen(Scroll(s.cells), 0, HEIGHT - 1)
  }

  /** vga_putchar */
  function Put(s: Screen, ch: schar, color: byte): (r: Screen)
    requires InRange(s)
    ensures InRange(r)
  {
    if ch == NEWLINE then NextLine(s)
    else
      var s' := s.(cells := s.cells[s.y * WIDTH + s.x := Cell(ch, color)]);
      if s.x + 1 < WIDTH then s'.(x := s.x + 1) else NextLine(s')
  }

  function PutAll(s: Screen, text: seq<schar>, color: byte): (r: Screen)
    requires InRange(s)
    ensures InRange(r)
  {
    if text == [] then s
    else Put(PutAll(s, text[..|text| - 1], color), text[|text| - 1], color)
  }

  /** The characters of a NUL-terminated string. */
  function CString(s: seq<schar>): seq<schar>
    requires 0 in s
  {
    if s[0] == 0 then [] else [s[0]] + CString(s[1..])
  }

  /** vga_move_cursor */
  function Move(s: Screen, x: byte, y: byte): (r: Screen)
    requires InRange(s)
    ensures InRange(r)
  {
    s.(x := if x >= WIDTH then WIDTH - 1 else x, y := if y >= HEIGHT then HEIGHT - 1 else y)
  }

  /** vga_clear */
  function Clear(): (r: Screen)
    ensures InRange(r)
  {
    Screen(Blanks(CELLS), 0, 0)
  }

  // ---------------------------------------------------------------- the driver

  class Console {
    const buffer: array<u16>
    var cursorX: byte
    var cursorY: byte

    ghost function State(): Screen
      reads this, buffer
    {
      Screen(buffer[..], cursorX, cursorY)
    }

    ghost predicate Valid()
      reads this, buffer
    {
      InRange(State())
    }

    /** vga_init */
    constructor (buffer: array<u16>)
      requires buffer.Length == CELLS
      modifies buffer
      ensures this.buffer == buffer && Valid() && State() == Clear()
    {
      this.buffer := buffer;
      cursorX, cursorY := 0, 0;
      new;
      ClearScreen();
    }

    method ClearScreen()
      requires buffer.Length == CELLS
      modifies this, buffer
      ensures Valid() && State() == Clear()
    {
      for i := 0 to WIDTH * HEIGHT
        invariant forall k :: 0 <= k < i ==> buffer[k] == BLANK
      {
        buffer[i] := BLANK;
      }
      cursorX := 0;
      cursorY := 0;
    }

    method ScrollUp()
      requires buffer.Length == CELLS
      modifies buffer
      ensures buffer[..] == Scroll(old(buffer[..]))
    {
      ghost var b := buffer[..];
      for y := 0 to HEIGHT - 1
        invariant forall k :: 0 <= k < y * WIDTH ==> buffer[k] == b[k + WIDTH]
        invariant forall k :: y * WIDTH <= k < CELLS ==> buffer[k] == b[k]
      {
        for x := 0 to WIDTH
          invariant forall k :: 0 <= k < y * WIDTH + x ==> buffer[k] == b[k + WIDTH]
          invariant forall k :: y * WIDTH + x <= k < CELLS ==> buffer[k] == b[k]
        {
          buffer[y * WIDTH + x] := buffer[(y + 1) * WIDTH + x];
        }
      }
      for x := 0 to WIDTH
        invariant forall k :: 0 <= k < CELLS - WIDTH ==> buffer[k] == b[k + WIDTH]
        invariant forall k :: CELLS - WIDTH <= k < CELLS - WIDTH + x ==> buffer[k] == BLANK
      {
        buffer[(HEIGHT - 1) * WIDTH + x] := BLANK;
      }
    }

    method PutChar(ch: schar, color: byte)
      requires Valid()
      modifies this, buffer
      ensures Valid() && State() == Put(old(State()), ch, color)
    {
      if ch == NEWLINE {
        cursorY := cursorY + 1;
        cursorX := 0;
        if cursorY >= HEIGHT {
          ScrollUp();
          cursorY := HEIGHT - 1;
        }
      } else {
        buffer[cursorY * WIDTH + cursorX] := Cell(ch, color);
        cursorX := cursorX + 1;
        if cursorX >= WIDTH {
          cursorX := 0;
          cursorY := cursorY + 1;
          if cursorY >= HEIGHT {
            ScrollUp();
            cursorY := HEIGHT - 1;
          }
        }
      }
    }

    /** vga_putstr of a string in memory; None stands for the null pointer. */
    method PutString(str: Option<seq<schar>>, color: byte)
      requires Valid() && (str.Some? ==> 0 in str.value)
      modifies this, buffer
      ensures Valid()
      ensures State() == if str.None? then old(State()) else PutAll(old(State()), CString(str.value), color)
    {
      if str.None? {
        return;
      }
      ghost var s0 := State();
      ghost var text := CString(str.value);
      CStringIsPrefix(str.value);
      var i := 0;
      while str.value[i] != 0
        invariant 0 <= i <= |text| && Valid()
        invariant State() == PutAll(s0, text[..i], color)
        decreases |text| - i
      {
        assert text[..i + 1][..i] == text[..i];
        PutChar(str.value[i], color);
        i := i + 1;
      }
      assert text[..i] == text;
    }

    method MoveCursor(x: byte, y: byte)
      requires Valid()
      modifies this
      ensures Valid() && State() == Move(old(State()), x, y)
    {
      cursorX := if x >= WIDTH then WIDTH - 1 else x;
      cursorY := if y >= HEIGHT then HEIGHT - 1 else y;
    }
  }

  /** The characters before the first NUL. */
  lemma {:induction false} CStringIsPrefix(s: seq<schar>)
    requires 0 in s
    ensures var t := CString(s);
      |t| < |s| && t == s[..|t|] && s[|t|] == 0 && 0 !in t
  {
    if s[0] == 0 {
    } else {
      CStringIsPrefix(s[1..]);
    }
  }

  // ---------------------------------------------------------------- cells

  lemma {:induction false} OrOnes(a: nat, k: nat)
    requires a < Shl(1, k)
    ensures BitOr(a, Shl(1, k) - 1) == Shl(1, k) - 1
  {
    if k == 0 {
    } else {
      OrOnes(a / 2, k - 1);
      assert Shl(1, k) - 1 == 2 * (Shl(1, k - 1) - 1) + 1;
      BitOrHalves(a, Shl(1, k) - 1);
    }
  }

  /** The sign bits of a negative character absorb the colour. */
  lemma SignAbsorbs(ch: schar, color: byte)
    requires ch < 0
    ensures Or32(color * 0x100, U32_LIMIT + ch) == U32_LIMIT + ch
  {
    Shl8(1);
    Shl8(color);
    Shl8(0xFF_FFFF);
    BitOrSplit(color, 0xFF_FFFF, 0, ch + 0x100, 8);
    assert BitOr(color, 0xFF_FFFF) == 0xFF_FFFF by {
      Shl12(1);
      Shl12(4096);
      ShlAdd(1, 12, 12);
      OrOnes(color, 24);
    }
  }

  lemma PlainOr(ch: schar, color: byte)
    requires ch >= 0
    ensures Or32(color * 0x100, ch) == color * 0x100 + ch
  {
    Shl8(0);
    Shl8(1);
    Shl8(color);
    BitOrSplit(color, 0, 0, ch, 8);
    assert BitOr(color, 0) == color && BitOr(0, ch) == ch;
  }

  /** What a cell holds: colour and character for a plain character, but the colour is lost to
      sign extension for a character with the top bit set. */
  lemma CellExact(ch: schar, color: byte)
    ensures Cell(ch, color) == if ch >= 0 then color * 0x100 + ch else 0xFF00 + (ch + 0x100)
  {
    if ch >= 0 {
      PlainOr(ch, color);
    } else {
      SignAbsorbs(ch, color);
      assert U32_LIMIT + ch == 0xFFFF * 0x1_0000 + (0x1_0000 + ch);
    }
  }

  lemma Shl8(a: nat)
    ensures Shl(a, 8) == 0x100 * a
  {
    assert Shl(a, 1) == 2 * a;
    assert Shl(a, 2) == 4 * a;
    assert Shl(a, 4) == 16 * a;
    assert Shl(a, 6) == 64 * a;
  }

  /** The attribute byte shows the requested colour exactly for plain characters, or when that
      colour is 0xFF anyway; the character byte is always right. */
  lemma CellAttribute(ch: schar, color: byte)
    ensures Cell(ch, color) / 0x100 == color <==> ch >= 0 || color == 0xFF
    ensures Cell(ch, color) % 0x100 == if ch >= 0 then ch else ch + 0x100
  {
    CellExact(ch, color);
  }

  function Distance(a: int, b: int): nat {
    if a < b then b - a else a - b
  }

  /** vga_move_cursor goes to the position on the screen that is nearest to the one asked for,
      which is that position itself when it exists, and changes no cell. */
  lemma MoveIsNearest(s: Screen, x: byte, y: byte, column: nat, row: nat)
    requires InRange(s) && column < 80 && row < 25
    ensures var r := Move(s, x, y);
      && r.cells == s.cells
      && r.x < 80 && r.y < 25
      && Distance(r.x, x) <= Distance(column, x) && Distance(r.y, y) <= Distance(row, y)
  {
  }

  // ---------------------------------------------------------------- the screen as numbers

  /** A white space on black: character byte 32, attribute byte 15. */
  predicate IsBlank(cell: u16) {
    cell % 0x100 == 32 && cell / 0x100 == 15
  }

  /** vga_clear: 80 * 25 white spaces on black, and the cursor at the top left. */
  lemma ClearIsBlank()
    ensures var s := Clear();
      |s.cells| == 80 * 25 && (forall k :: 0 <= k < 80 * 25 ==> IsBlank(s.cells[k])) && s.x == 0 && s.y == 0
    ensures Cell(32, 0x0F) == BLANK
  {
    CellExact(32, 0x0F);
    forall k | 0 <= k < 80 * 25 ensures IsBlank(Clear().cells[k]) {
      assert Clear().cells[k] == BLANK;
    }
  }

  /** vga_scroll_up, cell by cell: each shows what was below it, and the last row is blank. */
  lemma ScrollIsShift(cells: seq<u16>, column: nat, row: nat)
    requires |cells| == CELLS && column < 80 && row < 25
    ensures |Scroll(cells)| == 80 * 25
    ensures var cell := Scroll(cells)[80 * row + column];
      if row < 24 then cell == cells[80 * (row + 1) + column] else IsBlank(cell)
  {
    if row == 24 { assert Scroll(cells)[80 * row + column] == BLANK; }
  }

  /** Where the cursor goes from column `x` and row `y`: a newline to the start of the next row, any
      other character one column on, or from column 79 to the start of the next row; from row 24
      the screen scrolls and the cursor stays there. */
  predicate CursorMoves(x: nat, y: nat, newline: bool, x': nat, y': nat, scrolls: bool) {
    && (scrolls <==> y == 24 && (newline || x == 79))
    && if newline || x == 79 then x' == 0 && y' == (if y < 24 then y + 1 else 24) else x' == x + 1 && y' == y
  }

  /** vga_putchar for every character: 10 is the newline; any other character is stored with its
      colour at 80 * y + x, and no other cell changes before the screen scrolls. */
  lemma PutExact(s: Screen, ch: schar, color: byte)
    requires InRange(s)
    ensures
      var s' := Put(s, ch, color);
      var scrolls := s.y == 24 && (ch == 10 || s.x == 79);
      var cells := if ch == 10 then s.cells else s.cells[80 * s.y + s.x := Cell(ch, color)];
      && CursorMoves(s.x, s.y, ch == 10, s'.x, s'.y, scrolls)
      && s'.cells == if scrolls then Scroll(cells) else cells
  {
  }
}
