/** The console of boot/lcd/lcd.c: a cursor and a framebuffer of 32-bit pixels. */
module LcdConsole {
  import Memory
  import opened MachineInt
  import opened Terminal

  const FONT_WIDTH := 8
  const FONT_HEIGHT := 16

  /** A font byte after n passes of the pixel loop */
  function Shifted(bits: bv8, n: nat): bv8 {
    if n == 0 then bits else Shifted(bits, n - 1) << 1
  }

  /** Pixel k of a font byte, leftmost first: the loop tests the top bit and shifts left. */
  function FontBit(bits: bv8, k: nat): bool {
    Shifted(bits, k) & 0x80 != 0
  }

  /** Bit 7 - k of the byte */
  lemma FontBitIs(bits: bv8, k: nat)
    requires k < 8
    ensures FontBit(bits, k) <==> bits & (0x80 >> k) != 0
  {
    assert Shifted(bits, 1) == bits << 1;
    assert Shifted(bits, 2) == bits << 2;
    assert Shifted(bits, 3) == bits << 3;
    assert Shifted(bits, 4) == bits << 4;
    assert Shifted(bits, 5) == bits << 5;
    assert Shifted(bits, 6) == bits << 6;
    assert Shifted(bits, 7) == bits << 7;
    match k
    case 0 =>
    case 1 =>
    case 2 =>
    case 3 =>
    case 4 =>
    case 5 =>
    case 6 =>
    case _ =>
  }

  /** memset writes the low byte of the colour to each of the four bytes of a pixel. */
  function Filled(color: nat): nat {
    Memory.Uniform(color % 256)
  }

  class Console {
    /** Framebuffer, one element per pixel, xres pixels a line */
    const fb: array<nat>
    const xres: nat
    const yres: nat
    const logoHeight: nat
    const font: seq<bv8>
    const fg: nat
    const bg: nat
    var enabled: bool
    var col: int
    var row: int
    /** The characters the pixels show */
    ghost var cells: seq<Line>

    /** A panel and its framebuffer, with the console off */
    constructor (fb: array<nat>, xres: nat, yres: nat, logoHeight: nat, font: seq<bv8>, fg: nat, bg: nat)
      ensures this.fb == fb && this.xres == xres && this.yres == yres && this.logoHeight == logoHeight
      ensures this.font == font && this.fg == fg && this.bg == bg && !enabled
    {
      this.fb, this.xres, this.yres, this.logoHeight := fb, xres, yres, logoHeight;
      this.font, this.fg, this.bg := font, fg, bg;
      enabled, col, row := false, 0, 0;
      cells := [];
    }

    function Rows(): int {
      if yres >= logoHeight then (yres - logoHeight) / FONT_HEIGHT else -((logoHeight - yres) / FONT_HEIGHT)
    }

    function Cols(): nat {
      xres / FONT_WIDTH
    }

    /** Start of pixel line p in the framebuffer: p * xres, see LineStartIsProduct */
    function LineStart(p: nat): nat {
      if p == 0 then 0 else LineStart(p - 1) + xres
    }

    /** Position of a pixel in the framebuffer */
    function At(p: nat, q: nat): nat {
      LineStart(p) + q
    }

    ghost predicate Sized() {
      && FONT_WIDTH <= xres < 0x1_0000 && logoHeight + 2 * FONT_HEIGHT <= yres < 0x1_0000
      && LineStart(yres) <= fb.Length && 4 * LineStart(yres) < 0x8000_0000 && |font| == 256 * FONT_HEIGHT
      && Filled(bg) == bg
    }

    /** The colour of pixel k of line r of a character */
    function Ink(ch: Byte, r: nat, k: nat): nat
      requires |font| == 256 * FONT_HEIGHT && r < FONT_HEIGHT
    {
      if FontBit(font[ch * FONT_HEIGHT + r], k) then fg else bg
    }

    /** The font bit decides between the two colours. */
    lemma InkIs(ch: Byte, r: nat, k: nat)
      requires |font| == 256 * 16 && r < 16 && k < 8
      ensures Ink(ch, r, k) == if font[16 * ch + r] & (0x80 >> k) != 0 then fg else bg
    {
      FontBitIs(font[16 * ch + r], k);
    }

    /** The colour of pixel (p, q) of the console area */
    function PixelOf(cells: seq<Line>, p: nat, q: nat): nat
      requires |font| == 256 * FONT_HEIGHT && p / FONT_HEIGHT < |cells|
      requires q < 8 * Cols() ==> q / 8 < |cells[p / FONT_HEIGHT]|
    {
      if q >= 8 * Cols() then bg
      else
        match cells[p / FONT_HEIGHT][q / 8]
        case Blank => bg
        case Glyph(ch) => Ink(ch, p % FONT_HEIGHT, q % 8)
    }

    predicate IsGrid(cells: seq<Line>) {
      |cells| == Rows() && forall r :: 0 <= r < |cells| ==> |cells[r]| == Cols()
    }

    /** Below the logo, the pixels are those of the cells. */
    ghost predicate Shows(cells: seq<Line>)
      requires Sized() && IsGrid(cells)
      reads fb
    {
      forall p, q :: logoHeight <= p < logoHeight + FONT_HEIGHT * Rows() && 0 <= q < xres ==>
        At(p, q) < fb.Length && fb[At(p, q)] == PixelOf(cells, p - logoHeight, q)
    }

    ghost predicate Valid()
      reads this, fb
    {
      && Sized()
      && OnGrid(Screen(cells, col, row), Rows(), Cols())
      && Shows(cells)
    }

    /** Every visible pixel outside the rectangle keeps its colour, and so does what lies beyond the screen. */
    twostate predicate KeepsOutside(top: nat, bottom: nat, left: nat, right: nat)
      requires LineStart(yres) <= fb.Length
      reads fb
    {
      && (forall p, q :: 0 <= p < yres && 0 <= q < xres && !(top <= p < bottom && left <= q < right) ==>
            At(p, q) < fb.Length && fb[At(p, q)] == old(fb[At(p, q)]))
      && (forall k :: LineStart(yres) <= k < fb.Length ==> fb[k] == old(fb[k]))
    }

    /** The logo lines, the lines below the last text row and what lies beyond the screen are as before. */
    twostate predicate KeepsSurroundings()
      requires Sized()
      reads fb
    {
      KeepsOutside(logoHeight, logoHeight + FONT_HEIGHT * Rows(), 0, xres)
    }

    lemma {:induction false} LineStartIsProduct(p: nat)
      ensures LineStart(p) == p * xres
    {
      if p > 0 {
        LineStartIsProduct(p - 1);
        assert p * xres == (p - 1) * xres + xres;
      }
    }

    lemma {:induction false} AtIs(p: nat, q: nat)
      ensures At(p, q) == p * xres + q
    {
      LineStartIsProduct(p);
    }

    /** The grid fills the panel below the logo. */
    lemma {:induction false} GridFits()
      requires Sized()
      ensures logoHeight + 16 * Rows() <= yres < logoHeight + 16 * Rows() + 16
      ensures 8 * Cols() <= xres < 8 * Cols() + 8
    {}

    /** Pixel (i, j) of the cell in row r and column c is that bit of the character's glyph. */
    lemma {:induction false} CellShown(r: nat, c: nat, i: nat, j: nat, k: nat)
      requires Valid() && r < Rows() && c < Cols() && i < 16 && j < 8
      requires k == (logoHeight + 16 * r + i) * xres + (8 * c + j)
      ensures k < fb.Length
      ensures fb[k] == match cells[r][c]
                       case Blank => bg
                       case Glyph(ch) => if font[16 * ch + i] & (0x80 >> j) != 0 then fg else bg
    {
      var p, q := 16 * r + i, 8 * c + j;
      assert p / 16 == r && p % 16 == i && q / 8 == c && q % 8 == j;
      AtIs(logoHeight + p, q);
      if cells[r][c].Glyph? {
        InkIs(cells[r][c].ch, i, j);
      }
    }

    /** The pixels right of the last column have the background colour. */
    lemma {:induction false} MarginShown(p: nat, q: nat, k: nat)
      requires Valid() && p < 16 * Rows() && 8 * Cols() <= q < xres && k == (logoHeight + p) * xres + q
      ensures k < fb.Length && fb[k] == bg
    {
      AtIs(logoHeight + p, q);
    }

    /** Lines do not overlap. */
    lemma {:induction false} LinesApart(p: nat, i: nat)
      requires p < i
      ensures LineStart(p) + xres <= LineStart(i)
      decreases i
    {
      if p < i - 1 {
        LinesApart(p, i - 1);
      }
    }

    lemma {:induction false} AtBound(p: nat, q: nat)
      requires p < yres && q < xres
      ensures At(p, q) < LineStart(yres)
    {
      LinesApart(p, yres);
    }

    lemma {:induction false} AllInBounds()
      ensures forall p, q :: 0 <= p < yres && 0 <= q < xres ==> At(p, q) < LineStart(yres)
    {
      forall p, q | 0 <= p < yres && 0 <= q < xres
        ensures At(p, q) < LineStart(yres)
      {
        AtBound(p, q);
      }
    }

    /** The n positions from (p, x) on are pixels of line p and no others. */
    lemma {:induction false} OneLine(p: nat, x: nat, n: nat)
      requires x + n <= xres
      ensures forall i, j :: 0 <= i && 0 <= j < xres ==>
        (At(p, x) <= At(i, j) < At(p, x) + n <==> i == p && x <= j < x + n)
    {
      forall i, j | 0 <= i && 0 <= j < xres
        ensures At(p, x) <= At(i, j) < At(p, x) + n <==> i == p && x <= j < x + n
      {
        if i < p {
          LinesApart(i, p);
        } else if p < i {
          LinesApart(p, i);
        }
      }
    }

    /** The innermost loop of lcd_drawchars: eight pixels of one font byte */
    method DrawFontByte(d: nat, ch: Byte, r: nat)
      requires |font| == 256 * FONT_HEIGHT && r < FONT_HEIGHT && d + 8 <= fb.Length
      modifies fb
      ensures forall k :: d <= k < d + 8 ==> fb[k] == Ink(ch, r, k - d)
      ensures forall k :: 0 <= k < fb.Length && !(d <= k < d + 8) ==> fb[k] == old(fb[k])
    {
      var bits := font[ch * FONT_HEIGHT + r];
      ghost var byte := bits;
      for c := 0 to 8
        invariant bits == Shifted(byte, c)
        invariant forall k :: d <= k < d + c ==> fb[k] == Ink(ch, r, k - d)
        invariant forall k :: 0 <= k < fb.Length && !(d <= k < d + c) ==> fb[k] == old(fb[k])
      {
        fb[d + c] := if bits & 0x80 != 0 then fg else bg;
        bits := bits << 1;
      }
    }

    /** One pixel line of lcd_drawchars */
    method DrawLine(dest: nat, str: seq<Byte>, r: nat)
      requires |font| == 256 * FONT_HEIGHT && r < FONT_HEIGHT && dest + 8 * |str| <= fb.Length
      modifies fb
      ensures forall k :: dest <= k < dest + 8 * |str| ==> fb[k] == Ink(str[(k - dest) / 8], r, (k - dest) % 8)
      ensures forall k :: 0 <= k < fb.Length && !(dest <= k < dest + 8 * |str|) ==> fb[k] == old(fb[k])
    {
      var d := dest;
      for i := 0 to |str|
        invariant d == dest + 8 * i
        invariant forall k :: dest <= k < dest + 8 * i ==> fb[k] == Ink(str[(k - dest) / 8], r, (k - dest) % 8)
        invariant forall k :: 0 <= k < fb.Length && !(dest <= k < dest + 8 * i) ==> fb[k] == old(fb[k])
      {
        DrawFontByte(d, str[i], r);
        d := d + 8;
      }
    }

    /** The same, in terms of pixels */
    method DrawLineAt(dest: nat, ghost p: nat, ghost x: nat, str: seq<Byte>, r: nat)
      requires Sized() && r < FONT_HEIGHT && p < yres && x + 8 * |str| <= xres && dest == At(p, x)
      modifies fb
      ensures forall q :: x <= q < x + 8 * |str| ==>
        At(p, q) < fb.Length && fb[At(p, q)] == Ink(str[(q - x) / 8], r, (q - x) % 8)
      ensures KeepsOutside(p, p + 1, x, x + 8 * |str|)
    {
      AllInBounds();
      AtBound(p, xres - 1);
      OneLine(p, x, 8 * |str|);
      DrawLine(dest, str, r);
    }

    /** lcd_drawchars: paints a run of characters with its top left corner at (y, x). */
    method DrawChars(x: nat, y: nat, str: seq<Byte>)
      requires Sized() && y + FONT_HEIGHT <= yres && x + 8 * |str| <= xres
      modifies fb
      ensures forall p, q :: y <= p < y + FONT_HEIGHT && x <= q < x + 8 * |str| ==>
        At(p, q) < fb.Length && fb[At(p, q)] == Ink(str[(q - x) / 8], p - y, (q - x) % 8)
      ensures KeepsOutside(y, y + FONT_HEIGHT, x, x + 8 * |str|)
    {
      LineStartIsProduct(y);
      AllInBounds();
      var dest := y * xres + x;
      for r := 0 to FONT_HEIGHT
        invariant dest == At(y + r, x)
        invariant forall p, q :: y <= p < y + r && x <= q < x + 8 * |str| ==>
          fb[At(p, q)] == Ink(str[(q - x) / 8], p - y, (q - x) % 8)
        invariant KeepsOutside(y, y + r, x, x + 8 * |str|)
      {
        DrawLineAt(dest, y + r, x, str, r);
        dest := dest + xres;
      }
    }

    /** lcd_putc_xy for the character cell (r, c) */
    method PutcAt(c: nat, r: nat, ch: Byte, ghost grid: seq<Line>)
      requires Sized() && IsGrid(grid) && Shows(grid) && r < Rows() && c < Cols()
      modifies fb
      ensures Shows(grid[r := grid[r][c := Glyph(ch)]])
      ensures KeepsSurroundings()
    {
      DrawChars(c * FONT_WIDTH, r * FONT_HEIGHT + logoHeight, [ch]);
      ghost var next := grid[r := grid[r][c := Glyph(ch)]];
      forall p, q | logoHeight <= p < logoHeight + FONT_HEIGHT * Rows() && 0 <= q < xres
        ensures At(p, q) < fb.Length && fb[At(p, q)] == PixelOf(next, p - logoHeight, q)
      {
        ghost var y := p - logoHeight;
        assert old(fb[At(p, q)]) == PixelOf(grid, y, q);
        if 16 * r <= y < 16 * r + 16 && 8 * c <= q < 8 * c + 8 {
          assert y / 16 == r && q / 8 == c;
        } else {
          assert fb[At(p, q)] == old(fb[At(p, q)]);
          assert PixelOf(next, y, q) == PixelOf(grid, y, q);
        }
      }
    }

    // ----- scrolling -----

    lemma {:induction false} LineStartAdds(p: nat, n: nat)
      ensures LineStart(p + n) == LineStart(p) + LineStart(n)
    {
      if n > 0 {
        LineStartAdds(p, n - 1);
      }
    }

    lemma {:induction false} Reordered(x: nat, rows: nat)
      ensures FONT_HEIGHT * x * rows == FONT_HEIGHT * rows * x
    {}

    lemma {:induction false} RowsAreLines(rowSize: nat, rows: nat)
      requires rowSize == FONT_HEIGHT * xres
      ensures rowSize * rows == LineStart(FONT_HEIGHT * rows)
    {
      LineStartIsProduct(FONT_HEIGHT * rows);
      Reordered(xres, rows);
    }

    /** CONSOLE_ROW_FIRST, CONSOLE_ROW_SIZE and CONSOLE_SIZE, counted in pixels from the start of the framebuffer */
    method ConsoleSizes() returns (console: nat, rowSize: nat, size: nat)
      requires Sized()
      ensures console == LineStart(logoHeight)
      ensures rowSize == FONT_HEIGHT * xres
      ensures size == LineStart(FONT_HEIGHT * Rows())
    {
      LineStartIsProduct(logoHeight);
      console := logoHeight * xres;
      rowSize := FONT_HEIGHT * xres;
      var rows: nat := Rows();
      RowsAreLines(rowSize, rows);
      size := rowSize * rows;
    }

    /** memcpy: forwards, so that a source above the destination may overlap it */
    method Memcpy(dst: nat, src: nat, len: nat)
      requires dst <= src && src + len <= fb.Length
      modifies fb
      ensures forall k {:trigger fb[k]} :: dst <= k < dst + len ==> fb[k] == old(fb[k + (src - dst)])
      ensures forall k {:trigger fb[k]} :: 0 <= k < fb.Length && !(dst <= k < dst + len) ==> fb[k] == old(fb[k])
    {
      for i := 0 to len
        invariant forall k {:trigger fb[k]} :: dst <= k < dst + i ==> fb[k] == old(fb[k + (src - dst)])
        invariant forall k {:trigger fb[k]} :: 0 <= k < fb.Length && !(dst <= k < dst + i) ==> fb[k] == old(fb[k])
      {
        fb[dst + i] := fb[src + i];
      }
    }

    method Memset(dst: nat, color: nat, len: nat)
      requires dst + len <= fb.Length
      modifies fb
      ensures forall k {:trigger fb[k]} :: dst <= k < dst + len ==> fb[k] == Filled(color)
      ensures forall k {:trigger fb[k]} :: 0 <= k < fb.Length && !(dst <= k < dst + len) ==> fb[k] == old(fb[k])
    {
      for i := 0 to len
        invariant forall k {:trigger fb[k]} :: dst <= k < dst + i ==> fb[k] == Filled(color)
        invariant forall k {:trigger fb[k]} :: 0 <= k < fb.Length && !(dst <= k < dst + i) ==> fb[k] == old(fb[k])
      {
        fb[dst + i] := Filled(color);
      }
    }

    /** Line top + p starts LineStart(p) pixels below line top, and is one of the n lines from there just when p < n. */
    lemma {:induction false} PixelOffset(top: nat, p: nat, q: nat, n: nat)
      requires q < xres
      ensures At(top + p, q) == LineStart(top) + At(p, q)
      ensures At(p, q) < LineStart(n) <==> p < n
    {
      LineStartAdds(top, p);
      if p < n {
        LinesApart(p, n);
      } else if n < p {
        LinesApart(n, p);
      }
    }

    lemma {:induction false} OneRowDown(p: nat)
      ensures LineStart(p + FONT_HEIGHT) == LineStart(p) + FONT_HEIGHT * xres
    {
      LineStartAdds(p, FONT_HEIGHT);
      LineStartIsProduct(FONT_HEIGHT);
    }

    /** Where pixel line p below the line top lies, n pixel lines above the last text row */
    lemma {:induction false} PixelPlace(top: nat, n: nat, p: nat, q: nat)
      requires q < xres && p < n + FONT_HEIGHT
      ensures var last := LineStart(top) + LineStart(n);
        LineStart(top) <= At(top + p, q) < last + FONT_HEIGHT * xres && (At(top + p, q) < last <==> p < n)
    {
      PixelOffset(top, p, q, n);
      PixelOffset(top, p, q, n + FONT_HEIGHT);
      OneRowDown(n);
    }

    /** The lines outside the n lines from top on lie outside the memory of those lines. */
    lemma {:induction false} PixelElsewhere(top: nat, n: nat, p: nat, q: nat)
      requires q < xres && !(top <= p < top + n)
      ensures !(LineStart(top) <= At(p, q) < LineStart(top) + LineStart(n))
    {
      LineStartAdds(top, n);
      if p < top {
        LinesApart(p, top);
      } else if top + n < p {
        LinesApart(top + n, p);
      }
    }

    lemma {:induction false} ScrolledSizes(top: nat, n: nat)
      requires top + n + FONT_HEIGHT <= yres
      ensures LineStart(n + FONT_HEIGHT) == LineStart(n) + FONT_HEIGHT * xres
      ensures LineStart(top) + LineStart(n + FONT_HEIGHT) <= LineStart(yres)
    {
      OneRowDown(n);
      LineStartAdds(top, n + FONT_HEIGHT);
      if top + n + FONT_HEIGHT < yres {
        LinesApart(top + n + FONT_HEIGHT, yres);
      }
    }

    /** The scrolled characters, seen as pixels */
    lemma {:induction false} ScrolledCell(grid: seq<Line>, p: nat, q: nat)
      requires Sized() && IsGrid(grid) && p < FONT_HEIGHT * Rows() && q < xres
      ensures p < FONT_HEIGHT * (Rows() - 1) ==>
        PixelOf(Terminal.ScrollUp(grid, Cols()), p, q) == PixelOf(grid, FONT_HEIGHT + p, q)
      ensures p >= FONT_HEIGHT * (Rows() - 1) ==> PixelOf(Terminal.ScrollUp(grid, Cols()), p, q) == bg
    {
      assert (FONT_HEIGHT + p) / FONT_HEIGHT == p / FONT_HEIGHT + 1;
    }

    /** The two memory operations of console_scrollup, on the size pixels from console on */
    method ScrollPixels(console: nat, rowSize: nat, size: nat)
      requires rowSize <= size && console + size <= fb.Length
      modifies fb
      ensures forall k {:trigger fb[k]} :: console <= k < console + size - rowSize ==> fb[k] == old(fb[k + rowSize])
      ensures forall k {:trigger fb[k]} :: console + size - rowSize <= k < console + size ==> fb[k] == Filled(bg)
      ensures forall k {:trigger fb[k]} ::
        0 <= k < fb.Length && !(console <= k < console + size) ==> fb[k] == old(fb[k])
    {
      Memcpy(console, console + rowSize, size - rowSize);
      Memset(console + size - rowSize, bg, rowSize);
    }

    /** The same, in terms of the pixels of n lines from the line top on and of a last text row below them */
    method ScrollLines(console: nat, rowSize: nat, size: nat, ghost top: nat, ghost n: nat)
      requires console == LineStart(top) && rowSize == FONT_HEIGHT * xres && size == LineStart(n + FONT_HEIGHT)
      requires top + n + FONT_HEIGHT <= yres && LineStart(yres) <= fb.Length
      modifies fb
      ensures forall p, q {:trigger fb[At(p, q)]} :: top <= p < top + n && 0 <= q < xres ==>
        At(p, q) < fb.Length && At(p + FONT_HEIGHT, q) < fb.Length && fb[At(p, q)] == old(fb[At(p + FONT_HEIGHT, q)])
      ensures forall p, q {:trigger fb[At(p, q)]} :: top + n <= p < top + n + FONT_HEIGHT && 0 <= q < xres ==>
        At(p, q) < fb.Length && fb[At(p, q)] == Filled(bg)
      ensures KeepsOutside(top, top + n + FONT_HEIGHT, 0, xres)
    {
      ScrolledSizes(top, n);
      ScrollPixels(console, rowSize, size);
      forall p, q | top <= p < top + n + FONT_HEIGHT && 0 <= q < xres
        ensures At(p, q) < fb.Length
        ensures p < top + n ==> At(p + FONT_HEIGHT, q) < fb.Length && fb[At(p, q)] == old(fb[At(p + FONT_HEIGHT, q)])
        ensures p >= top + n ==> fb[At(p, q)] == Filled(bg)
      {
        PixelPlace(top, n, p - top, q);
        OneRowDown(p);
      }
      forall p, q | 0 <= p < yres && 0 <= q < xres && !(top <= p < top + n + FONT_HEIGHT)
        ensures At(p, q) < fb.Length && fb[At(p, q)] == old(fb[At(p, q)])
      {
        AtBound(p, q);
        PixelElsewhere(top, n + FONT_HEIGHT, p, q);
      }
    }

    /** console_scrollup, in terms of pixels */
    method ScrollArea(ghost n: nat)
      requires Sized() && n + FONT_HEIGHT == FONT_HEIGHT * Rows()
      modifies fb
      ensures forall p, q {:trigger At(p, q)} :: 0 <= p < yres && 0 <= q < xres ==> At(p, q) < fb.Length
      ensures forall p, q {:trigger fb[At(p, q)]} :: logoHeight <= p < logoHeight + n && 0 <= q < xres ==>
        fb[At(p, q)] == old(fb[At(p + FONT_HEIGHT, q)])
      ensures forall p, q {:trigger fb[At(p, q)]} ::
        logoHeight + n <= p < logoHeight + n + FONT_HEIGHT && 0 <= q < xres ==> fb[At(p, q)] == Filled(bg)
      ensures KeepsOutside(logoHeight, logoHeight + n + FONT_HEIGHT, 0, xres)
    {
      AllInBounds();
      var console, rowSize, size := ConsoleSizes();
      ScrollLines(console, rowSize, size, logoHeight, n);
    }

    /** console_scrollup, in terms of characters */
    method ScrollUp(ghost grid: seq<Line>)
      requires Sized() && IsGrid(grid) && Shows(grid)
      modifies fb
      ensures Shows(Terminal.ScrollUp(grid, Cols()))
      ensures KeepsSurroundings()
    {
      ghost var next := Terminal.ScrollUp(grid, Cols());
      assert IsGrid(next);
      ScrollArea(FONT_HEIGHT * Rows() - FONT_HEIGHT);
      forall p, q | logoHeight <= p < logoHeight + FONT_HEIGHT * Rows() && 0 <= q < xres
        ensures At(p, q) < fb.Length && fb[At(p, q)] == PixelOf(next, p - logoHeight, q)
      {
        ScrolledCell(grid, p - logoHeight, q);
      }
    }

    // ----- characters -----

    /** The characters on the console and its cursor */
    ghost function Shown(): (s: Screen)
      reads this
      ensures s.cells == cells && s.col == col && s.row == row
    {
      Screen(cells, col, row)
    }

    /** The test of lcd_putc, on unsigned words */
    predicate HasRoom() {
      !(logoHeight > (yres - 2 * FONT_HEIGHT) % WORD)
    }

    /** It holds when two text rows fit below the logo, and also when the subtraction wraps. */
    lemma HasRoomIff()
      requires yres < 0x1_0000_0000 && logoHeight <= 0x1_0000_0000 - 32
      ensures HasRoom() <==> yres >= logoHeight + 32 || yres < 32
    {
      if yres < 2 * FONT_HEIGHT {
        assert (yres - 2 * FONT_HEIGHT) % WORD == yres - 2 * FONT_HEIGHT + WORD;
      }
    }

    /** A panel of 31 lines below a logo of 120 */
    lemma {:induction false} SmallPanelPasses()
      requires yres == 31 && logoHeight == 120
      ensures HasRoom()
    {}

    /** Without room for a text row below the logo, the last line of any glyph is beyond the screen:
        this is why characters are sent only to a console that is valid whenever the test passes. */
    lemma {:induction false} GlyphNeedsRoom(r: nat, c: nat)
      requires logoHeight + FONT_HEIGHT > yres
      ensures At(logoHeight + r * FONT_HEIGHT + (FONT_HEIGHT - 1), c * FONT_WIDTH) >= LineStart(yres)
    {
      var p := logoHeight + r * FONT_HEIGHT + (FONT_HEIGHT - 1);
      LineStartAdds(yres, p - yres);
    }

    /** console_newline; a tab may leave the column past the last one. */
    method NewLine()
      requires Sized() && IsGrid(cells) && Shows(cells) && 0 <= row < Rows()
      modifies `col, `row, `cells, fb
      ensures Valid() && KeepsSurroundings()
      ensures Shown() == Terminal.NewLine(old(Shown()), Rows(), Cols())
    {
      AllInBounds();
      row := row + 1;
      col := 0;
      if row >= Rows() {
        ScrollUp(cells);
        cells := Terminal.ScrollUp(cells, Cols());
        row := row - 1;
      }
    }

    /** lcd_putc_xy at the cursor */
    method PutGlyph(ch: Byte)
      requires Valid()
      modifies `cells, fb
      ensures Valid() && KeepsSurroundings()
      ensures Shown() == Put(old(Shown()), ch)
    {
      PutcAt(col, row, ch, cells);
      cells := Put(Shown(), ch).cells;
    }

    /** console_back */
    method Back()
      requires Valid()
      modifies `col, `row, `cells, fb
      ensures Valid() && KeepsSurroundings()
      ensures Shown() == Put(Terminal.Back(old(Shown()), Cols()), SPACE)
    {
      col := col - 1;
      if col < 0 {
        col := Cols() - 1;
        row := row - 1;
        if row < 0 {
          row := 0;
        }
      }
      PutGlyph(SPACE);
    }

    /** lcd_putc: nothing when the console is off or has no room, otherwise one step of the terminal */
    method Putc(c: Byte)
      requires enabled && HasRoom() ==> Valid()
      modifies `col, `row, `cells, fb
      ensures enabled && HasRoom() ==> Valid() && KeepsSurroundings()
      ensures enabled && HasRoom() ==> Shown() == Step(old(Shown()), c, Rows(), Cols())
      ensures !(enabled && HasRoom()) ==> Shown() == old(Shown()) && fb[..] == old(fb[..])
    {
      if !enabled {
        return;
      }
      if logoHeight > (yres - 2 * FONT_HEIGHT) % WORD {
        return;
      }
      AllInBounds();
      if c == CR {
        col := 0;
      } else if c == LF {
        NewLine();
      } else if c == TAB {
        col := TabStop(col);
        if col >= Cols() {
          NewLine();
        }
      } else if c == BS {
        Back();
      } else {
        PutGlyph(c);
        col := col + 1;
        if col >= Cols() {
          NewLine();
        }
      }
    }

    /** The surroundings of the console area are those of an earlier framebuffer. */
    ghost predicate SurroundedAs(before: seq<nat>)
      requires Sized()
      reads fb
    {
      && |before| == fb.Length
      && (forall p, q :: 0 <= p < yres && 0 <= q < xres && !(logoHeight <= p < logoHeight + FONT_HEIGHT * Rows()) ==>
            At(p, q) < fb.Length && fb[At(p, q)] == before[At(p, q)])
      && (forall k :: LineStart(yres) <= k < fb.Length ==> fb[k] == before[k])
    }

    /** The pixel at a place of the screen */
    lemma {:induction false} Place(k: nat, n: nat) returns (p: nat, q: nat)
      requires k < LineStart(n)
      ensures p < n && q < xres && k == At(p, q)
      decreases n
    {
      if k >= LineStart(n - 1) {
        p, q := n - 1, k - LineStart(n - 1);
      } else {
        p, q := Place(k, n - 1);
      }
    }

    /** A place outside the lines of the console area is a pixel of another line or beyond the screen. */
    lemma {:induction false} SurroundingPlace(k: nat) returns (p: nat, q: nat)
      requires Sized() && k < LineStart(yres)
      requires k < logoHeight * xres || (logoHeight + FONT_HEIGHT * Rows()) * xres <= k
      ensures p < yres && q < xres && k == At(p, q)
      ensures !(logoHeight <= p < logoHeight + FONT_HEIGHT * Rows())
    {
      p, q := Place(k, yres);
      LineStartIsProduct(logoHeight);
      LineStartIsProduct(logoHeight + FONT_HEIGHT * Rows());
      if logoHeight < p {
        LinesApart(logoHeight, p);
      }
      if p < logoHeight + FONT_HEIGHT * Rows() {
        LinesApart(p, logoHeight + FONT_HEIGHT * Rows());
      }
    }

    /** So the memory before and after the console area is as before. */
    lemma {:induction false} SurroundingsKept(before: seq<nat>)
      requires Sized() && SurroundedAs(before)
      ensures forall k :: 0 <= k < fb.Length && (k < logoHeight * xres || (logoHeight + 16 * Rows()) * xres <= k) ==>
        fb[k] == before[k]
    {
      forall k | 0 <= k < fb.Length && (k < logoHeight * xres || (logoHeight + 16 * Rows()) * xres <= k)
        ensures fb[k] == before[k]
      {
        if k < LineStart(yres) {
          var p, q := SurroundingPlace(k);
        }
      }
    }

    /** One pass of lcd_puts, for character i of a text */
    method PutNext(ghost text: seq<Byte>, ghost i: nat, c: Byte, ghost start: Screen, ghost before: seq<nat>)
      requires i < |text| && c == text[i]
      requires HasRoom() ==> Valid() && SurroundedAs(before) && OnGrid(start, Rows(), Cols())
      requires HasRoom() ==> Shown() == Feed(start, text[..i], Rows(), Cols())
      modifies `col, `row, `cells, fb
      ensures enabled && HasRoom() ==> Valid() && SurroundedAs(before)
      ensures enabled && HasRoom() ==> Shown() == Feed(start, text[..i + 1], Rows(), Cols())
      ensures !(enabled && HasRoom()) ==> Shown() == old(Shown()) && fb[..] == old(fb[..])
    {
      if HasRoom() {
        FeedNext(start, text, i, Rows(), Cols());
      }
      Putc(c);
    }

    /** lcd_puts */
    method Puts(s: seq<Byte>)
      requires 0 in s
      requires enabled && HasRoom() ==> Valid()
      modifies `col, `row, `cells, fb
      ensures enabled && HasRoom() ==> Valid() && KeepsSurroundings()
      ensures enabled && HasRoom() ==> Shown() == Feed(old(Shown()), UpToNul(s), Rows(), Cols())
      ensures enabled && HasRoom() ==> forall k ::
        0 <= k < fb.Length && (k < logoHeight * xres || (logoHeight + 16 * Rows()) * xres <= k) ==> fb[k] == old(fb[k])
      ensures !(enabled && HasRoom()) ==> Shown() == old(Shown()) && fb[..] == old(fb[..])
    {
      if !enabled {
        return;
      }
      AllInBounds();
      ghost var text, start, before := UpToNul(s), Shown(), fb[..];
      var i := 0;
      while s[i] != 0
        invariant i <= |text|
        invariant HasRoom() ==> Valid() && SurroundedAs(before)
        invariant HasRoom() ==> Shown() == Feed(start, text[..i], Rows(), Cols())
        invariant !HasRoom() ==> Shown() == start && fb[..] == before
        decreases |s| - i
      {
        PutNext(text, i, s[i], start, before);
        i := i + 1;
      }
      assert text[..i] == text;
      if HasRoom() {
        SurroundingsKept(before);
      }
    }

    // ----- start -----

    lemma {:induction false} ScreenWords()
      ensures 4 * xres * yres / 4 == xres * yres
    {
      assert 4 * xres * yres == 4 * (xres * yres);
    }

    /** The fill loop of lcd_clear */
    method Clear()
      requires xres * yres <= fb.Length
      modifies fb
      ensures forall k :: 0 <= k < xres * yres ==> fb[k] == bg
      ensures forall k :: xres * yres <= k < fb.Length ==> fb[k] == old(fb[k])
    {
      var words := 4 * xres * yres / 4;
      ScreenWords();
      for i := 0 to words
        invariant forall k :: 0 <= k < i ==> fb[k] == bg
        invariant forall k :: i <= k < fb.Length ==> fb[k] == old(fb[k])
      {
        fb[i] := bg;
      }
    }

    /** lcd_console_init, on a cleared screen; the logo may have been drawn since. */
    method Initialize()
      requires Sized()
      requires forall p, q :: logoHeight <= p < yres && 0 <= q < xres ==> At(p, q) < fb.Length && fb[At(p, q)] == bg
      modifies `col, `row, `cells
      ensures Valid()
      ensures Shown() == Screen(seq(Rows(), _ => BlankLine(Cols())), 0, 1)
    {
      cells := seq(Rows(), _ => BlankLine(Cols()));
      col := 0;
      row := 1;
    }
  }

  /** Red, scrolled in by memset, is black. */
  lemma RedFillsBlack()
    ensures Filled(0xff_0000) == 0
  {}

  lemma LowByte(b0: Byte, rest: nat)
    ensures (b0 + 0x100 * rest) % 256 == b0
  {}

  lemma BytesIff(b0: Byte, b1: Byte, b2: Byte, b3: Byte)
    ensures b0 * 0x0101_0101 == b0 + 0x100 * b1 + 0x1_0000 * b2 + 0x100_0000 * b3 <==> b1 == b0 && b2 == b0 && b3 == b0
  {}

  /** Clearing by memset gives the colour just when its four bytes are equal, as in black 0 and white 0xffffffff. */
  lemma FilledIff(b0: Byte, b1: Byte, b2: Byte, b3: Byte, color: nat)
    requires color == b0 + 0x100 * b1 + 0x1_0000 * b2 + 0x100_0000 * b3
    ensures Filled(color) == b0 + 0x100 * b0 + 0x1_0000 * b0 + 0x100_0000 * b0
    ensures Filled(color) == color <==> b1 == b0 && b2 == b0 && b3 == b0
  {
    LowByte(b0, b1 + 0x100 * b2 + 0x1_0000 * b3);
    BytesIff(b0, b1, b2, b3);
  }
}
