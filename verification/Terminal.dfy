/** The text console of boot/lcd/lcd.c as a grid of characters with a cursor. */
module Terminal {
  import Memory
  import opened Bitwise
  import opened MachineInt

  type Byte = Memory.Byte

  datatype Cell = Blank | Glyph(ch: Byte)

  type Line = seq<Cell>

  datatype Screen = Screen(cells: seq<Line>, col: int, row: int)

  const CR: Byte := 13
  const LF: Byte := 10
  const TAB: Byte := 9
  const BS: Byte := 8
  const SPACE: Byte := 32

  /** A grid of rows x cols cells with the cursor on it */
  predicate OnGrid(s: Screen, rows: nat, cols: nat) {
    && |s.cells| == rows && (forall r :: 0 <= r < rows ==> |s.cells[r]| == cols)
    && 0 <= s.col < cols && 0 <= s.row < rows
  }

  function Put(s: Screen, ch: Byte): Screen
    requires 0 <= s.row < |s.cells| && 0 <= s.col < |s.cells[s.row]|
  {
    s.(cells := s.cells[s.row := s.cells[s.row][s.col := Glyph(ch)]])
  }

  function BlankLine(cols: nat): Line {
    seq(cols, _ => Blank)
  }

  function ScrollUp(cells: seq<Line>, cols: nat): seq<Line>
    requires |cells| > 0
  {
    cells[1..] + [BlankLine(cols)]
  }

  function NewLine(s: Screen, rows: nat, cols: nat): Screen
    requires 0 < rows == |s.cells|
  {
    if s.row + 1 >= rows then Screen(ScrollUp(s.cells, cols), 0, s.row) else s.(col := 0, row := s.row + 1)
  }

  /** Where a tab moves the cursor: (col | 8) & ~7 */
  function TabStop(col: nat): nat {
    col / 16 * 16 + 8
  }

  function Back(s: Screen, cols: nat): Screen {
    if s.col > 0 then s.(col := s.col - 1)
    else s.(col := cols - 1, row := if s.row > 0 then s.row - 1 else 0)
  }

  /** One character */
  function Step(s: Screen, c: Byte, rows: nat, cols: nat): (t: Screen)
    requires OnGrid(s, rows, cols)
    ensures OnGrid(t, rows, cols)
  {
    if c == CR then s.(col := 0)
    else if c == LF then NewLine(s, rows, cols)
    else if c == TAB then
      var t := s.(col := TabStop(s.col));
      if t.col >= cols then NewLine(t, rows, cols) else t
    else if c == BS then Put(Back(s, cols), SPACE)
    else
      var t := Put(s, c);
      if t.col + 1 >= cols then NewLine(t, rows, cols) else t.(col := t.col + 1)
  }

  /** A run of characters */
  function Feed(s: Screen, text: seq<Byte>, rows: nat, cols: nat): (t: Screen)
    requires OnGrid(s, rows, cols)
    ensures OnGrid(t, rows, cols)
    decreases |text|
  {
    if text == [] then s
    else Step(Feed(s, text[..|text| - 1], rows, cols), text[|text| - 1], rows, cols)
  }

  /** One character more */
  lemma FeedNext(s: Screen, text: seq<Byte>, i: nat, rows: nat, cols: nat)
    requires OnGrid(s, rows, cols) && i < |text|
    ensures Feed(s, text[..i + 1], rows, cols) == Step(Feed(s, text[..i], rows, cols), text[i], rows, cols)
  {
    assert text[..i + 1][..i] == text[..i];
  }

  /** The characters of a C string: those before its first NUL */
  function UpToNul(s: seq<Byte>): (text: seq<Byte>)
    requires 0 in s
    ensures |text| < |s| && text == s[..|text|] && s[|text|] == 0 && 0 !in text
  {
    if s[0] == 0 then [] else [s[0]] + UpToNul(s[1..])
  }

  /** No character */
  lemma FeedStart(s: Screen, rows: nat, cols: nat)
    requires OnGrid(s, rows, cols)
    ensures Feed(s, [], rows, cols) == s
  {}

  // ----- what each character does to the cells and the cursor -----

  lemma PutAt(s: Screen, ch: Byte, rows: nat, cols: nat, r: nat, c: nat)
    requires OnGrid(s, rows, cols) && r < rows && c < cols
    ensures OnGrid(Put(s, ch), rows, cols) && Put(s, ch).row == s.row && Put(s, ch).col == s.col
    ensures Put(s, ch).cells[r][c] == if r == s.row && c == s.col then Glyph(ch) else s.cells[r][c]
  {}

  /** Carriage return */
  lemma ReturnIs(s: Screen, rows: nat, cols: nat)
    requires OnGrid(s, rows, cols)
    ensures Step(s, 13, rows, cols) == Screen(s.cells, 0, s.row)
  {}

  /** Line feed: above the last row only the cursor moves, on the last row the lines do. */
  lemma LineFeedIs(s: Screen, rows: nat, cols: nat)
    requires OnGrid(s, rows, cols)
    ensures s.row + 1 < rows ==> Step(s, 10, rows, cols) == Screen(s.cells, 0, s.row + 1)
    ensures s.row + 1 == rows ==>
      var t := Step(s, 10, rows, cols);
      && t.col == 0 && t.row == s.row
      && forall r, c :: 0 <= r < rows && 0 <= c < cols ==>
           t.cells[r][c] == if r + 1 < rows then s.cells[r + 1][c] else Blank
  {}

  /** Tab: to column 8 of its block of sixteen; beyond the end of the line it is a line feed. */
  lemma TabIs(s: Screen, rows: nat, cols: nat)
    requires OnGrid(s, rows, cols)
    ensures s.col / 16 * 16 + 8 < cols ==> Step(s, 9, rows, cols) == Screen(s.cells, s.col / 16 * 16 + 8, s.row)
    ensures s.col / 16 * 16 + 8 >= cols ==> Step(s, 9, rows, cols) == Step(s, 10, rows, cols)
  {}

  /** Backspace: a space in the cell before, in the last cell of the row above from column 0,
      and in the last cell of its own row from the top left. */
  lemma BackspaceIs(s: Screen, rows: nat, cols: nat, r: nat, c: nat)
    requires OnGrid(s, rows, cols) && r < rows && c < cols
    ensures var t := Step(s, 8, rows, cols);
      && t.col == (if s.col > 0 then s.col - 1 else cols - 1)
      && t.row == (if s.col > 0 || s.row == 0 then s.row else s.row - 1)
      && t.cells[r][c] == if r == t.row && c == t.col then Glyph(32) else s.cells[r][c]
  {
    PutAt(Back(s, cols), SPACE, rows, cols, r, c);
  }

  /** Any other character is shown at the cursor, which moves on; at the end of the line a line feed follows. */
  lemma PrintableIs(s: Screen, ch: Byte, rows: nat, cols: nat, r: nat, c: nat) returns (u: Screen)
    requires OnGrid(s, rows, cols) && r < rows && c < cols && !(8 <= ch <= 10) && ch != 13
    ensures OnGrid(u, rows, cols) && u.row == s.row && u.col == s.col
    ensures u.cells[r][c] == if r == s.row && c == s.col then Glyph(ch) else s.cells[r][c]
    ensures s.col + 1 < cols ==> Step(s, ch, rows, cols) == Screen(u.cells, s.col + 1, s.row)
    ensures s.col + 1 == cols ==> Step(s, ch, rows, cols) == Step(u, 10, rows, cols)
  {
    u := Put(s, ch);
    PutAt(s, ch, rows, cols, r, c);
  }

  // ----- what the operations mean for a reader of the screen -----

  predicate Printable(c: Byte) {
    c != CR && c != LF && c != TAB && c != BS
  }

  /** Cell (r, c) of the unbounded page that starts as the screen s and blank lines below it,
      with the text written in reading order from the cursor on */
  function Written(s: Screen, text: seq<Byte>, rows: nat, cols: nat, r: nat, c: nat): Cell
    requires OnGrid(s, rows, cols) && c < cols
  {
    var start, place := s.row * cols + s.col, r * cols + c;
    if start <= place < start + |text| then Glyph(text[place - start])
    else if r < rows then s.cells[r][c] else Blank
  }

  /** The screen t shows the lines of that page from line k on, with its cursor behind the text. */
  ghost predicate ShowsPage(s: Screen, text: seq<Byte>, rows: nat, cols: nat, t: Screen, k: nat)
    requires OnGrid(s, rows, cols) && OnGrid(t, rows, cols)
  {
    && (t.row + k) * cols + t.col == s.row * cols + s.col + |text|
    && (k > 0 ==> t.row == rows - 1)
    && forall r, c :: 0 <= r < rows && 0 <= c < cols ==> t.cells[r][c] == Written(s, text, rows, cols, r + k, c)
  }

  lemma Earlier(r: nat, c: nat, i: nat, j: nat, cols: nat)
    requires c < cols && r < i
    ensures r * cols + c < i * cols + j
  {
    Distribute(i, r, cols);
    Multiples(cols, i - r);
  }

  /** Places in reading order */
  lemma SamePlace(r: nat, c: nat, i: nat, j: nat, cols: nat)
    requires c < cols && j < cols
    ensures r * cols + c == i * cols + j <==> r == i && c == j
    ensures r < i ==> r * cols + c < i * cols + j
  {
    if r < i {
      Earlier(r, c, i, j, cols);
    } else if i < r {
      Earlier(i, j, r, c, cols);
    }
  }

  /** A character in its place extends the page. */
  lemma PutExtends(s: Screen, text: seq<Byte>, ch: Byte, rows: nat, cols: nat, t: Screen, k: nat, r: nat, c: nat)
    requires OnGrid(s, rows, cols) && OnGrid(t, rows, cols) && ShowsPage(s, text, rows, cols, t, k)
    requires r < rows && c < cols
    ensures Put(t, ch).cells[r][c] == Written(s, text + [ch], rows, cols, r + k, c)
  {
    SamePlace(r + k, c, t.row + k, t.col, cols);
    assert t.cells[r][c] == Written(s, text, rows, cols, r + k, c);
  }

  /** The line that scrolling brings in is below the text. */
  lemma BelowIsBlank(s: Screen, text: seq<Byte>, rows: nat, cols: nat, r: nat, c: nat)
    requires OnGrid(s, rows, cols) && c < cols && r >= rows
    requires s.row * cols + s.col + |text| == r * cols
    ensures Written(s, text, rows, cols, r, c) == Blank
  {}

  lemma NextPlace(r: nat, cols: nat)
    ensures (r + 1) * cols == r * cols + cols
  {}

  /** One more printable character shows the longer page, perhaps from one line further on. */
  lemma StepExtends(s: Screen, text: seq<Byte>, ch: Byte, rows: nat, cols: nat, t: Screen, k: nat) returns (k': nat)
    requires OnGrid(s, rows, cols) && OnGrid(t, rows, cols) && ShowsPage(s, text, rows, cols, t, k) && Printable(ch)
    ensures ShowsPage(s, text + [ch], rows, cols, Step(t, ch, rows, cols), k')
  {
    var u := Put(t, ch);
    var v := Step(t, ch, rows, cols);
    forall r, c | 0 <= r < rows && 0 <= c < cols
      ensures u.cells[r][c] == Written(s, text + [ch], rows, cols, r + k, c)
    {
      PutExtends(s, text, ch, rows, cols, t, k, r, c);
    }
    NextPlace(t.row + k, cols);
    k' := if t.col + 1 >= cols && t.row + 1 >= rows then k + 1 else k;
    if k' == k + 1 {
      assert v.cells == u.cells[1..] + [BlankLine(cols)];
      forall r, c | 0 <= r < rows && 0 <= c < cols
        ensures v.cells[r][c] == Written(s, text + [ch], rows, cols, r + k', c)
      {
        if r == rows - 1 {
          BelowIsBlank(s, text + [ch], rows, cols, r + k', c);
        } else {
          assert v.cells[r] == u.cells[r + 1];
        }
      }
    }
  }

  /** Printable text of any length appears in reading order, wrapping at the right and scrolling at the bottom:
      the screen shows the page from line k on, and k is 0 exactly when the text stays on the screen. */
  lemma {:induction false} TextAppears(s: Screen, text: seq<Byte>, rows: nat, cols: nat) returns (k: nat)
    requires OnGrid(s, rows, cols)
    requires forall i :: 0 <= i < |text| ==> Printable(text[i])
    ensures ShowsPage(s, text, rows, cols, Feed(s, text, rows, cols), k)
    ensures k == 0 <==> s.row * cols + s.col + |text| < rows * cols
    decreases |text|
  {
    if text == [] {
      k := 0;
    } else {
      var front := text[..|text| - 1];
      k := TextAppears(s, front, rows, cols);
      k := StepExtends(s, front, text[|text| - 1], rows, cols, Feed(s, front, rows, cols), k);
      assert front + [text[|text| - 1]] == text;
    }
    var t := Feed(s, text, rows, cols);
    SamePlace(t.row + k, t.col, rows, 0, cols);
    SamePlace(rows, 0, t.row + k, t.col, cols);
  }

  /** A backspace after a character puts the cursor back, unless the character made the screen scroll. */
  lemma BackspaceReturnsIff(s: Screen, c: Byte, rows: nat, cols: nat)
    requires OnGrid(s, rows, cols) && rows > 1 && Printable(c)
    ensures var t := Step(Step(s, c, rows, cols), BS, rows, cols);
      t.col == s.col && t.row == s.row <==> !(s.col == cols - 1 && s.row == rows - 1)
  {}

  /** It then leaves a space where the character was, and every other cell as it was. */
  lemma BackspaceErases(s: Screen, c: Byte, rows: nat, cols: nat)
    requires OnGrid(s, rows, cols) && Printable(c)
    requires !(s.col == cols - 1 && s.row == rows - 1)
    ensures Step(Step(s, c, rows, cols), BS, rows, cols) == Put(s, SPACE)
  {
    var line := s.cells[s.row];
    assert line[s.col := Glyph(c)][s.col := Glyph(SPACE)] == line[s.col := Glyph(SPACE)];
  }

  lemma StopOf(col: nat)
    ensures TabStop(col) % 8 == 0
    ensures TabStop(col) == (col / 8 + 1) * 8 <==> col % 16 < 8
  {
    var q, r := col / 16, col % 16;
    assert col == 16 * q + r;
    assert col / 8 == 2 * q + r / 8;
  }

  /** A tab leaves the cursor at a multiple of eight, in the same line at the next one exactly from the lower half
      of a block of sixteen columns and if that one is on the line. */
  lemma TabIsNextStopIff(s: Screen, rows: nat, cols: nat)
    requires OnGrid(s, rows, cols)
    ensures var t := Step(s, TAB, rows, cols);
      && t.col % 8 == 0
      && (t.col == (s.col / 8 + 1) * 8 && t.row == s.row <==> s.col % 16 < 8 && s.col / 16 * 16 + 8 < cols)
  {
    StopOf(s.col);
  }

  /** It moves no character unless the line is full and the screen scrolls. */
  lemma TabKeepsText(s: Screen, rows: nat, cols: nat)
    requires OnGrid(s, rows, cols)
    ensures TabStop(s.col) < cols || s.row + 1 < rows ==> Step(s, TAB, rows, cols).cells == s.cells
  {}

  /** From column 15 a tab goes back, from column 8 it stays, and from column 96 of 100 it goes to the next line. */
  lemma TabMisses(s: Screen, rows: nat)
    requires OnGrid(s, rows, 100) && s.row + 1 < rows
    ensures s.col == 15 ==> Step(s, TAB, rows, 100) == s.(col := 8)
    ensures s.col == 8 ==> Step(s, TAB, rows, 100) == s
    ensures s.col == 96 ==> Step(s, TAB, rows, 100) == s.(col := 0, row := s.row + 1)
  {}

  lemma {:induction false} StopBits(q: nat, k: nat)
    ensures BitOf(16 * q + 8, k) <==> k == 3 || (k > 3 && BitOf(q, k - 4))
  {
    DoubleBits(8 * q + 4, k);
    DoubleBits(4 * q + 2, if k > 0 then k - 1 else 0);
    DoubleBits(2 * q + 1, if k > 1 then k - 2 else 0);
    DoubleBits(q, if k > 2 then k - 3 else 0);
  }

  /** Bit by bit, TabStop is what col |= 8 and then col &= ~7 leave. */
  lemma {:induction false} TabBits(col: nat, k: nat)
    ensures BitOf(TabStop(col), k) <==> (BitOf(col, k) || k == 3) && k >= 3
  {
    StopBits(col / 16, k);
    FourBits(col, if k >= 4 then k - 4 else 0);
  }

  function LineFeeds(n: nat): seq<Byte> {
    seq(n, _ => LF)
  }

  lemma LineFeedsSnoc(n: nat)
    requires n > 0
    ensures LineFeeds(n)[..n - 1] == LineFeeds(n - 1) && LineFeeds(n)[n - 1] == LF
  {}

  /** n line feeds from the last row move every line up by n. */
  lemma {:induction false} LineFeedsScroll(s: Screen, n: nat, rows: nat, cols: nat)
    requires OnGrid(s, rows, cols) && s.row == rows - 1 && n <= rows
    ensures var t := Feed(s, LineFeeds(n), rows, cols);
      && t.row == rows - 1
      && (forall r :: 0 <= r < rows - n ==> t.cells[r] == s.cells[r + n])
      && (forall r :: rows - n <= r < rows ==> t.cells[r] == BlankLine(cols))
    decreases n
  {
    if n == 0 {
      assert LineFeeds(0) == [];
    } else {
      LineFeedsScroll(s, n - 1, rows, cols);
      LineFeedsSnoc(n);
      var u := Feed(s, LineFeeds(n - 1), rows, cols);
      assert Feed(s, LineFeeds(n), rows, cols) == NewLine(u, rows, cols);
      assert ScrollUp(u.cells, cols) == u.cells[1..] + [BlankLine(cols)];
    }
  }
}
