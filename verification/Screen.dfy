/** CScreenDevice: the interpreter on its pixel buffer, proved against ScreenTerminal. */
module Screen {
  import opened ByteRing
  import opened Grid
  import opened ScreenTerminal
  import opened TerminalInput

  /** The pixels of the character cell in column `u` of row `v`. */
  predicate InCell(px: int, py: int, u: nat, v: nat) {
    CHAR_WIDTH * u <= px < CHAR_WIDTH * (u + 1) && CHAR_HEIGHT * v <= py < CHAR_HEIGHT * (v + 1)
  }

  /** The buffer has room for all cells; its lines may be longer. */
  predicate Fits(buffer: array2<Color>, columns: nat, rows: nat) {
    columns > 0 && rows > 0 && buffer.Length0 >= CHAR_HEIGHT * rows && buffer.Length1 >= CHAR_WIDTH * columns
  }

  type Pixels = seq<seq<Color>>

  predicate HasRoom(p: Pixels, columns: nat, rows: nat) {
    && columns > 0 && rows > 0 && |p| >= CHAR_HEIGHT * rows
    && forall y | 0 <= y < |p| :: |p[y]| >= CHAR_WIDTH * columns
  }

  /** The pixels of a buffer, by lines. */
  ghost function Snapshot(buffer: array2<Color>): (p: Pixels)
    reads buffer
    ensures |p| == buffer.Length0
    ensures forall y | 0 <= y < |p| :: |p[y]| == buffer.Length1
    ensures forall x, y | 0 <= y < buffer.Length0 && 0 <= x < buffer.Length1 :: p[y][x] == buffer[y, x]
  {
    seq(buffer.Length0, y requires 0 <= y < buffer.Length0 reads buffer =>
      seq(buffer.Length1, x requires 0 <= x < buffer.Length1 reads buffer => buffer[y, x]))
  }

  /** A cell of the picture shows a character. */
  ghost predicate Shows(p: Pixels, font: Font, cell: Cell, u: nat, v: nat)
    requires HasRoom(p, u + 1, v + 1)
  {
    forall px, py | InCell(px, py, u, v) ::
      p[py][px] == Pixel(font, cell, px - CHAR_WIDTH * u, py - CHAR_HEIGHT * v)
  }

  /** It shows a character with the cursor on it. */
  ghost predicate ShowsCursor(p: Pixels, font: Font, cell: Cell, color: Color, u: nat, v: nat)
    requires HasRoom(p, u + 1, v + 1)
  {
    forall px, py | InCell(px, py, u, v) ::
      p[py][px] == CursorPixel(font, cell, color, px - CHAR_WIDTH * u, py - CHAR_HEIGHT * v)
  }

  /** The picture of the cells, without a cursor. */
  ghost predicate Picture(p: Pixels, font: Font, cells: seq<seq<Cell>>, columns: nat, rows: nat)
    requires HasRoom(p, columns, rows) && Rectangular(cells, columns, rows)
  {
    forall u, v | 0 <= u < columns && 0 <= v < rows :: Shows(p, font, cells[v][u], u, v)
  }

  /** The picture of a terminal: its cells, and the cursor if it is on. */
  ghost predicate CursorPicture(p: Pixels, font: Font, t: Terminal, columns: nat, rows: nat)
    requires HasRoom(p, columns, rows) && Shape(t, columns, rows)
  {
    forall u, v | 0 <= u < columns && 0 <= v < rows ::
      if t.on && u == t.x && v == t.y then ShowsCursor(p, font, t.cells[v][u], t.color, u, v)
      else Shows(p, font, t.cells[v][u], u, v)
  }

  /** This picture pixel by pixel: characters of 8 by 16 pixels, each with three lines for the cursor below it. */
  lemma PictureInPixels(p: Pixels, font: Font, t: Terminal, columns: nat, rows: nat, px: nat, py: nat)
    requires GoodFont(font) && HasRoom(p, columns, rows) && Shape(t, columns, rows)
    requires CursorPicture(p, font, t, columns, rows) && px < 8 * columns && py < 19 * rows
    ensures var u, v := px / 8, py / 19;
      && u < columns && v < rows
      && p[py][px] == if py % 19 >= 16 then if t.on && u == t.x && v == t.y then t.color else 0
                      else if font.pixel(t.cells[v][u].c, px % 8, py % 19) then t.cells[v][u].color else 0
  {
    var u, v := px / 8, py / 19;
    var cursor := t.on && u == t.x && v == t.y;
    assert InCell(px, py, u, v);
    assert if cursor then ShowsCursor(p, font, t.cells[v][u], t.color, u, v) else Shows(p, font, t.cells[v][u], u, v);
  }

  /** No pixels outside of one cell are different. */
  predicate OnlyCell(p: Pixels, q: Pixels, u: nat, v: nat) {
    && |p| == |q| && (forall y | 0 <= y < |p| :: |p[y]| == |q[y]|)
    && forall px, py | 0 <= py < |p| && 0 <= px < |p[py]| && !InCell(px, py, u, v) :: q[py][px] == p[py][px]
  }

  /** When the pixels of one cell change, the picture is that of the cells with this one changed. */
  lemma OtherCellsStay(p: Pixels, q: Pixels, font: Font, cells: seq<seq<Cell>>, cell: Cell, u: nat, v: nat,
                       columns: nat, rows: nat)
    requires HasRoom(p, columns, rows) && HasRoom(q, columns, rows) && Rectangular(cells, columns, rows)
    requires u < columns && v < rows
    requires Picture(p, font, cells, columns, rows) && Shows(q, font, cell, u, v) && OnlyCell(p, q, u, v)
    ensures Picture(q, font, Put(cells, u, v, cell), columns, rows)
  {
  }

  // ---------- the cursor ----------

  /** The underline of one cell is inverted: black pixels get the colour, others become black. */
  predicate Inverted(p: Pixels, q: Pixels, u: nat, v: nat, color: Color) {
    && |p| == |q| && (forall y | 0 <= y < |p| :: |p[y]| == |q[y]|)
    && forall px, py | 0 <= py < |p| && 0 <= px < |p[py]| ::
         q[py][px] == if InCell(px, py, u, v) && py >= CHAR_HEIGHT * v + UNDERLINE
                      then if p[py][px] == BLACK then color else BLACK
                      else p[py][px]
  }

  /** Inverting draws the cursor into a picture without one. */
  lemma InvertDraws(p: Pixels, q: Pixels, font: Font, t: Terminal, columns: nat, rows: nat)
    requires GoodFont(font) && HasRoom(p, columns, rows) && HasRoom(q, columns, rows) && Shape(t, columns, rows)
    requires t.on && Picture(p, font, t.cells, columns, rows) && Inverted(p, q, t.x, t.y, t.color)
    ensures CursorPicture(q, font, t, columns, rows)
  {
  }

  /** Inverting takes the cursor out of a picture with one, and leaves the character under it. */
  lemma InvertRemoves(p: Pixels, q: Pixels, font: Font, t: Terminal, columns: nat, rows: nat)
    requires GoodFont(font) && HasRoom(p, columns, rows) && HasRoom(q, columns, rows) && Shape(t, columns, rows)
    requires t.on && CursorPicture(p, font, t, columns, rows) && Inverted(p, q, t.x, t.y, t.color)
    ensures Picture(q, font, t.cells, columns, rows)
  {
  }

  // ---------- scrolling and clearing ----------

  /** The lines of a region are moved up by the height of a character. */
  predicate MovedUp(p: Pixels, q: Pixels, top: nat, bottom: nat) {
    && |p| == |q| && (forall y | 0 <= y < |p| :: |p[y]| == |q[y]|) && CHAR_HEIGHT * bottom <= |p|
    && forall px, py | 0 <= py < |p| && 0 <= px < |p[py]| ::
         q[py][px] == if CHAR_HEIGHT * top <= py < CHAR_HEIGHT * (bottom - 1) && px < |p[py + CHAR_HEIGHT]|
           then p[py + CHAR_HEIGHT][px]
                      else if CHAR_HEIGHT * (bottom - 1) <= py < CHAR_HEIGHT * bottom then BLACK
                      else p[py][px]
  }

  lemma ScrollMovesCells(p: Pixels, q: Pixels, font: Font, cells: seq<seq<Cell>>, top: nat, bottom: nat,
                         columns: nat, rows: nat)
    requires GoodFont(font) && HasRoom(p, columns, rows) && HasRoom(q, columns, rows)
    requires Rectangular(cells, columns, rows)
    requires top < bottom <= rows && Picture(p, font, cells, columns, rows) && MovedUp(p, q, top, bottom)
    ensures Rectangular(Scrolled(cells, top, bottom, columns, BLANK), columns, rows)
    ensures Picture(q, font, Scrolled(cells, top, bottom, columns, BLANK), columns, rows)
  {
    var r := Scrolled(cells, top, bottom, columns, BLANK);
    forall u, v | 0 <= u < columns && 0 <= v < rows ensures Shows(q, font, r[v][u], u, v) {
      var from := if top <= v < bottom - 1 then v + 1 else v;
      assert Shows(p, font, cells[from][u], u, from);
      forall px, py | InCell(px, py, u, v)
        ensures q[py][px] == Pixel(font, r[v][u], px - CHAR_WIDTH * u, py - CHAR_HEIGHT * v)
      {
        if top <= v < bottom - 1 {
          assert InCell(px, py + CHAR_HEIGHT, u, v + 1);
        }
      }
    }
  }

  lemma FirstCellsStay(p: Pixels, q: Pixels, font: Font, k: nat)
    requires HasRoom(p, k + 1, 1) && HasRoom(q, k + 1, 1) && OnlyCell(p, q, k, 0)
    requires forall u | 0 <= u < k :: Shows(p, font, BLANK, u, 0)
    ensures forall u | 0 <= u < k :: Shows(q, font, BLANK, u, 0)
  {
    forall u | 0 <= u < k ensures Shows(q, font, BLANK, u, 0) {
      assert Shows(p, font, BLANK, u, 0);
      forall px, py | InCell(px, py, u, 0) ensures q[py][px] == Pixel(font, BLANK, px - CHAR_WIDTH * u, py) {
        assert !InCell(px, py, k, 0);
      }
    }
  }

  lemma AllBlack(p: Pixels, q: Pixels, font: Font, columns: nat, rows: nat)
    requires GoodFont(font) && HasRoom(p, columns, rows) && HasRoom(q, columns, rows)
    requires forall u | 0 <= u < columns :: Shows(p, font, BLANK, u, 0)
    requires BlackFrom(p, q, CHAR_HEIGHT)
    ensures Picture(q, font, Rows(BLANK, columns, rows), columns, rows)
  {
    forall u, v | 0 <= u < columns && 0 <= v < rows ensures Shows(q, font, BLANK, u, v) {
      assert v == 0 ==> Shows(p, font, BLANK, u, 0);
    }
  }

  /** The lines from `line` on are black. */
  predicate BlackFrom(p: Pixels, q: Pixels, line: nat) {
    && |p| == |q| && (forall y | 0 <= y < |p| :: |p[y]| == |q[y]|)
    && forall px, py | 0 <= py < |p| && 0 <= px < |p[py]| :: q[py][px] == if py >= line then BLACK else p[py][px]
  }

  lemma BlackIsCleared(p: Pixels, q: Pixels, font: Font, cells: seq<seq<Cell>>, x: nat, y: nat, columns: nat, rows: nat)
    requires GoodFont(font) && HasRoom(p, columns, rows) && HasRoom(q, columns, rows)
    requires Rectangular(cells, columns, rows)
    requires x < columns && y < rows
    requires Picture(p, font, WithErased(cells, y, x, columns - x, BLANK), columns, rows)
    requires BlackFrom(p, q, CHAR_HEIGHT * (y + 1))
    ensures Rectangular(Cleared(cells, x, y, rows, columns, BLANK), columns, rows)
    ensures Picture(q, font, Cleared(cells, x, y, rows, columns, BLANK), columns, rows)
  {
    var e, r := WithErased(cells, y, x, columns - x, BLANK), Cleared(cells, x, y, rows, columns, BLANK);
    RowsOfCleared(cells, x, y, rows, columns, BLANK);
    forall u, v | 0 <= u < columns && 0 <= v < rows ensures Shows(q, font, r[v][u], u, v) {
      assert Shows(p, font, e[v][u], u, v);
      if v > y {
        assert r[v][u] == BLANK;
      }
    }
  }

  // ---------- the device ----------

  /** The lines of a cell above `y` and the pixels of line `y` up to `x` show a character. */
  ghost predicate DrawnUpTo(buffer: array2<Color>, font: Font, cell: Cell, u: nat, v: nat, y: nat, x: nat)
    requires buffer.Length0 >= CHAR_HEIGHT * (v + 1) && buffer.Length1 >= CHAR_WIDTH * (u + 1)
    reads buffer
  {
    forall px, py | InCell(px, py, u, v)
                    && (py < CHAR_HEIGHT * v + y || (py == CHAR_HEIGHT * v + y && px < CHAR_WIDTH * u + x)) ::
      buffer[py, px] == Pixel(font, cell, px - CHAR_WIDTH * u, py - CHAR_HEIGHT * v)
  }

  /** The underline is inverted in the lines above `y`, and in line `y` up to `x`. */
  ghost predicate InvertedUpTo(p: Pixels, buffer: array2<Color>, u: nat, v: nat, color: Color, y: nat, x: nat)
    requires |p| == buffer.Length0 && forall i | 0 <= i < |p| :: |p[i]| == buffer.Length1
    reads buffer
  {
    forall px, py | 0 <= px < buffer.Length1 && 0 <= py < buffer.Length0 ::
      buffer[py, px] ==
        if InCell(px, py, u, v) && py >= CHAR_HEIGHT * v + UNDERLINE
           && (py < CHAR_HEIGHT * v + y || (py == CHAR_HEIGHT * v + y && px < CHAR_WIDTH * u + x))
        then if p[py][px] == BLACK then color else BLACK
        else p[py][px]
  }

  class CScreenDevice {
    const columns: nat           // width / character width
    const rows: nat              // used height / character height
    const font: Font
    const buffer: array2<Color>  // m_pBuffer, by lines
    var state: Mode
    var cursorX: nat             // in pixels
    var cursorY: nat
    var cursorOn: bool
    var color: Color
    var insertOn: bool
    var param1: nat
    var param2: nat
    var scrollStart: nat         // in pixels
    var scrollEnd: nat
    ghost var cells: seq<seq<Cell>>

    ghost function View(): Terminal
      reads this
    {
      Terminal(state, cursorX / CHAR_WIDTH, cursorY / CHAR_HEIGHT, cursorOn, color, insertOn, param1, param2,
               scrollStart / CHAR_HEIGHT, scrollEnd / CHAR_HEIGHT, cells)
    }

    /** The scroll region and the cells, whatever the cursor. */
    ghost predicate Region()
      reads this
    {
      && Fits(buffer, columns, rows) && GoodFont(font)
      && scrollStart % CHAR_HEIGHT == 0 && scrollEnd % CHAR_HEIGHT == 0
      && scrollStart < scrollEnd <= CHAR_HEIGHT * rows
      && Rectangular(cells, columns, rows)
    }

    /** Everything is on the boundaries of cells. */
    ghost predicate Aligned()
      reads this
    {
      && Region()
      && cursorX % CHAR_WIDTH == 0 && cursorY % CHAR_HEIGHT == 0
      && Shape(View(), columns, rows)
    }

    /** The picture of the cells. */
    ghost predicate Drawn()
      reads this, buffer
      requires Region()
    {
      Picture(Snapshot(buffer), font, cells, columns, rows)
    }

    /** While characters are written, the cursor is not in the picture. */
    ghost predicate Drawing()
      reads this, buffer
    {
      Aligned() && Picture(Snapshot(buffer), font, cells, columns, rows)
    }

    /** Between the calls of Write it is, if it is on. */
    ghost predicate Valid()
      reads this, buffer
    {
      Aligned() && CursorPicture(Snapshot(buffer), font, View(), columns, rows)
    }

    method DrawChar(c: byte, nPosX: nat, nPosY: nat, col: Color, ghost u: nat, ghost v: nat)
      requires Fits(buffer, columns, rows) && u < columns && v < rows
      requires nPosX == CHAR_WIDTH * u && nPosY == CHAR_HEIGHT * v
      modifies buffer
      ensures Shows(Snapshot(buffer), font, Cell(c, col), u, v)
      ensures OnlyCell(old(Snapshot(buffer)), Snapshot(buffer), u, v)
    {
      ghost var cell := Cell(c, col);
      var y := 0;
      while y < CHAR_HEIGHT
        invariant y <= CHAR_HEIGHT
        invariant DrawnUpTo(buffer, font, cell, u, v, y, 0)
        invariant forall px, py | 0 <= px < buffer.Length1 && 0 <= py < buffer.Length0 && !InCell(px, py, u, v) ::
                    buffer[py, px] == old(buffer[py, px])
      {
        var x := 0;
        while x < CHAR_WIDTH
          invariant x <= CHAR_WIDTH
          invariant DrawnUpTo(buffer, font, cell, u, v, y, x)
          invariant forall px, py | 0 <= px < buffer.Length1 && 0 <= py < buffer.Length0 && !InCell(px, py, u, v) ::
                    buffer[py, px] == old(buffer[py, px])
        {
          buffer[nPosY + y, nPosX + x] := if font.pixel(c, x, y) then col else BLACK;
          x := x + 1;
        }
        y := y + 1;
      }
    }

    method EraseChar(nPosX: nat, nPosY: nat, ghost u: nat, ghost v: nat)
      requires Fits(buffer, columns, rows) && GoodFont(font) && u < columns && v < rows
      requires nPosX == CHAR_WIDTH * u && nPosY == CHAR_HEIGHT * v
      modifies buffer
      ensures Shows(Snapshot(buffer), font, BLANK, u, v)
      ensures OnlyCell(old(Snapshot(buffer)), Snapshot(buffer), u, v)
    {
      ghost var cell := BLANK;
      var y := 0;
      while y < CHAR_HEIGHT
        invariant y <= CHAR_HEIGHT
        invariant DrawnUpTo(buffer, font, cell, u, v, y, 0)
        invariant forall px, py | 0 <= px < buffer.Length1 && 0 <= py < buffer.Length0 && !InCell(px, py, u, v) ::
                    buffer[py, px] == old(buffer[py, px])
      {
        var x := 0;
        while x < CHAR_WIDTH
          invariant x <= CHAR_WIDTH
          invariant DrawnUpTo(buffer, font, cell, u, v, y, x)
          invariant forall px, py | 0 <= px < buffer.Length1 && 0 <= py < buffer.Length0 && !InCell(px, py, u, v) ::
                    buffer[py, px] == old(buffer[py, px])
        {
          buffer[nPosY + y, nPosX + x] := BLACK;
          x := x + 1;
        }
        y := y + 1;
      }
    }

    /** The cell is blank in the picture, too. */
    method EraseCell(nPosX: nat, nPosY: nat, ghost u: nat, ghost v: nat)
      requires Fits(buffer, columns, rows) && GoodFont(font) && u < columns && v < rows
      requires nPosX == CHAR_WIDTH * u && nPosY == CHAR_HEIGHT * v
      requires Rectangular(cells, columns, rows) && Picture(Snapshot(buffer), font, cells, columns, rows)
      modifies buffer, this`cells
      ensures cells == Put(old(cells), u, v, BLANK)
      ensures Rectangular(cells, columns, rows) && Picture(Snapshot(buffer), font, cells, columns, rows)
    {
      ghost var p := Snapshot(buffer);
      EraseChar(nPosX, nPosY, u, v);
      OtherCellsStay(p, Snapshot(buffer), font, cells, BLANK, u, v, columns, rows);
      cells := Put(cells, u, v, BLANK);
    }

    /** Erase the cells of a row from one column of pixels up to another. */
    method EraseCells(from: nat, to: nat, nPosY: nat, ghost u: nat, ghost n: nat, ghost v: nat)
      requires Fits(buffer, columns, rows) && GoodFont(font) && u + n <= columns && v < rows
      requires from == CHAR_WIDTH * u && to == CHAR_WIDTH * (u + n) && nPosY == CHAR_HEIGHT * v
      requires Rectangular(cells, columns, rows) && Picture(Snapshot(buffer), font, cells, columns, rows)
      modifies buffer, this`cells
      ensures cells == WithErased(old(cells), v, u, n, BLANK)
      ensures Rectangular(cells, columns, rows) && Picture(Snapshot(buffer), font, cells, columns, rows)
    {
      ghost var was := cells;
      NothingErased(was, v, u, BLANK);
      var nPosX := from;
      ghost var k := 0;
      while nPosX < to
        invariant k <= n && nPosX == CHAR_WIDTH * (u + k)
        invariant cells == WithErased(was, v, u, k, BLANK)
        invariant Rectangular(cells, columns, rows) && Picture(Snapshot(buffer), font, cells, columns, rows)
      {
        OneMoreErased(was, v, u, k, BLANK);
        EraseCell(nPosX, nPosY, u + k, v);
        nPosX := nPosX + CHAR_WIDTH;
        k := k + 1;
      }
    }

    method InvertCursor()
      requires Aligned()
      modifies buffer
      ensures !cursorOn ==> Snapshot(buffer) == old(Snapshot(buffer))
      ensures cursorOn ==> Inverted(old(Snapshot(buffer)), Snapshot(buffer), View().x, View().y, color)
    {
      if !cursorOn {
        return;
      }
      ghost var p, u, v := Snapshot(buffer), View().x, View().y;
      var y := UNDERLINE;
      while y < CHAR_HEIGHT
        invariant UNDERLINE <= y <= CHAR_HEIGHT
        invariant InvertedUpTo(p, buffer, u, v, color, y, 0)
      {
        var x := 0;
        while x < CHAR_WIDTH
          invariant x <= CHAR_WIDTH
          invariant InvertedUpTo(p, buffer, u, v, color, y, x)
        {
          if buffer[cursorY + y, cursorX + x] == BLACK {
            buffer[cursorY + y, cursorX + x] := color;
          } else {
            buffer[cursorY + y, cursorX + x] := BLACK;
          }
          x := x + 1;
        }
        y := y + 1;
      }
    }

    /** Move the lines of the scroll region up and clear the last ones. */
    method ScrollLines()
      requires Region()
      modifies buffer
      ensures MovedUp(old(Snapshot(buffer)), Snapshot(buffer), View().top, View().bottom)
    {
      var lines := CHAR_HEIGHT;
      var y := scrollStart;
      while y < scrollEnd - lines
        invariant scrollStart <= y <= scrollEnd - lines
        invariant forall px, py | 0 <= px < buffer.Length1 && 0 <= py < buffer.Length0 ::
                    buffer[py, px] == if scrollStart <= py < y then old(buffer[py + CHAR_HEIGHT, px])
                      else old(buffer[py, px])
      {
        var x := 0;
        while x < buffer.Length1
          invariant x <= buffer.Length1
          invariant forall px, py | 0 <= px < buffer.Length1 && 0 <= py < buffer.Length0 ::
                      buffer[py, px] == if scrollStart <= py < y || (py == y && px < x)
                        then old(buffer[py + CHAR_HEIGHT, px])
                                        else old(buffer[py, px])
        {
          buffer[y, x] := buffer[y + lines, x];
          x := x + 1;
        }
        y := y + 1;
      }
      while y < scrollEnd
        invariant scrollEnd - lines <= y <= scrollEnd
        invariant forall px, py | 0 <= px < buffer.Length1 && 0 <= py < buffer.Length0 ::
                    buffer[py, px] == if scrollStart <= py < scrollEnd - lines then old(buffer[py + CHAR_HEIGHT, px])
                                      else if scrollEnd - lines <= py < y then BLACK else old(buffer[py, px])
      {
        var x := 0;
        while x < buffer.Length1
          invariant x <= buffer.Length1
          invariant forall px, py | 0 <= px < buffer.Length1 && 0 <= py < buffer.Length0 ::
                      buffer[py, px] == if scrollStart <= py < scrollEnd - lines then old(buffer[py + CHAR_HEIGHT, px])
                                        else if scrollEnd - lines <= py < y || (py == y && px < x) then BLACK
                                        else old(buffer[py, px])
        {
          buffer[y, x] := BLACK;
          x := x + 1;
        }
        y := y + 1;
      }
    }

    /** Clear the lines from one on to the end of the buffer. */
    method BlackenFrom(line: nat)
      requires line <= buffer.Length0
      modifies buffer
      ensures BlackFrom(old(Snapshot(buffer)), Snapshot(buffer), line)
    {
      var y := line;
      while y < buffer.Length0
        invariant line <= y <= buffer.Length0
        invariant forall px, py | 0 <= px < buffer.Length1 && 0 <= py < buffer.Length0 ::
                    buffer[py, px] == if line <= py < y then BLACK else old(buffer[py, px])
      {
        var x := 0;
        while x < buffer.Length1
          invariant x <= buffer.Length1
          invariant forall px, py | 0 <= px < buffer.Length1 && 0 <= py < buffer.Length0 ::
                      buffer[py, px] == if line <= py < y || (py == y && px < x) then BLACK else old(buffer[py, px])
        {
          buffer[y, x] := BLACK;
          x := x + 1;
        }
        y := y + 1;
      }
    }

    method Scroll()
      requires Region() && Drawn()
      modifies buffer, this`cells
      ensures Region() && Drawn()
      ensures cells == Scrolled(old(cells), View().top, View().bottom, columns, BLANK)
    {
      ghost var p := Snapshot(buffer);
      ScrollLines();
      ScrollMovesCells(p, Snapshot(buffer), font, cells, View().top, View().bottom, columns, rows);
      cells := Scrolled(cells, View().top, View().bottom, columns, BLANK);
    }

    method CursorDown()
      requires Drawing()
      modifies this`cursorY, this`cells, buffer
      ensures Drawing() && View() == Down(old(View()), columns, rows)
    {
      ScrollKeepsShape(View(), columns, rows);
      cursorY := cursorY + CHAR_HEIGHT;
      if cursorY >= scrollEnd {
        Scroll();
        cursorY := cursorY - CHAR_HEIGHT;
      }
      assert View() == Down(old(View()), columns, rows);
    }

    method CursorNewLine()
      requires Drawing()
      modifies this`cursorX, this`cursorY, this`cells, buffer
      ensures Drawing() && View() == NewLine(old(View()), columns, rows)
    {
      cursorX := 0;
      CursorDown();
    }

    method CursorLeft()
      requires Drawing()
      modifies this`cursorX, this`cursorY
      ensures Drawing() && View() == Left(old(View()), columns, rows)
    {
      if cursorX > 0 {
        cursorX := cursorX - CHAR_WIDTH;
      } else if cursorY > scrollStart {
        cursorX := CHAR_WIDTH * columns - CHAR_WIDTH;
        cursorY := cursorY - CHAR_HEIGHT;
      }
    }

    method CursorRight()
      requires Drawing()
      modifies this`cursorX, this`cursorY, this`cells, buffer
      ensures Drawing() && View() == Right(old(View()), columns, rows)
    {
      if cursorX + CHAR_WIDTH >= CHAR_WIDTH * columns {
        CursorNewLine();
      } else {
        cursorX := cursorX + CHAR_WIDTH;
      }
    }

    method CursorUp()
      requires Drawing()
      modifies this`cursorY
      ensures Drawing() && View() == Up(old(View()), columns, rows)
    {
      if cursorY > scrollStart {
        cursorY := cursorY - CHAR_HEIGHT;
      }
    }

    method CursorHome()
      requires Drawing()
      modifies this`cursorX, this`cursorY
      ensures Drawing() && View() == Home(old(View()))
    {
      cursorX := 0;
      cursorY := scrollStart;
    }

    /** Row or column 0 gives a position far outside, in unsigned arithmetic. */
    method CursorMove(row: nat, column: nat)
      requires Drawing()
      modifies this`cursorX, this`cursorY
      ensures Drawing() && View() == Move(old(View()), row, column, columns, rows)
    {
      if row > 0 && column > 0 {
        var nPosX := (column - 1) * CHAR_WIDTH;
        var nPosY := (row - 1) * CHAR_HEIGHT;
        if nPosX < CHAR_WIDTH * columns && nPosY >= scrollStart && nPosY < scrollEnd {
          cursorX := nPosX;
          cursorY := nPosY;
        }
      }
    }

    method SetScrollRegion(startRow: nat, endRow: nat)
      requires Drawing()
      modifies this`scrollStart, this`scrollEnd, this`cursorX, this`cursorY
      ensures Drawing() && View() == SetRegion(old(View()), startRow, endRow, columns, rows)
    {
      var usedHeight := CHAR_HEIGHT * rows;
      if startRow > 0 {
        var start := (startRow - 1) * CHAR_HEIGHT;
        var end := endRow * CHAR_HEIGHT;
        if start < usedHeight && end > 0 && end <= usedHeight && start < end {
          scrollStart := start;
          scrollEnd := end;
        }
      }
      cursorX := 0;
      cursorY := scrollStart;
    }

    method Tabulator()
      requires Drawing()
      modifies this`cursorX, this`cursorY, this`cells, buffer
      ensures Drawing() && View() == Tab(old(View()), columns, rows)
    {
      var stop := NextTab(cursorX);
      if stop >= CHAR_WIDTH * columns {
        CursorNewLine();
      } else {
        cursorX := stop;
      }
    }

    method DisplayChar(c: byte)
      requires Drawing()
      modifies this`cursorX, this`cursorY, this`cells, buffer
      ensures Drawing() && View() == Display(old(View()), c, columns, rows)
    {
      if 0x20 <= c {
        ghost var p, u, v := Snapshot(buffer), View().x, View().y;
        DrawChar(c, cursorX, cursorY, color, u, v);
        OtherCellsStay(p, Snapshot(buffer), font, cells, Cell(c, color), u, v, columns, rows);
        cells := Put(cells, u, v, Cell(c, color));
        CursorRight();
      }
    }

    method EraseFromCursor(count: nat)
      requires Drawing()
      modifies this`cells, buffer
      ensures Drawing() && View() == EraseChars(old(View()), count, columns, rows)
    {
      ghost var u, v := View().x, View().y;
      if count == 0 {
        NothingErased(cells, v, u, BLANK);
        return;
      }
      var endX := cursorX + count * CHAR_WIDTH;
      if endX > CHAR_WIDTH * columns {
        endX := CHAR_WIDTH * columns;
      }
      EraseCells(cursorX, endX, cursorY, u, if u + count > columns then columns - u else count, v);
    }

    method ClearToLineEnd()
      requires Drawing()
      modifies this`cells, buffer
      ensures Drawing() && View() == ClearLineEnd(old(View()), columns, rows)
    {
      EraseCells(cursorX, CHAR_WIDTH * columns, cursorY, View().x, columns - View().x, View().y);
    }

    method ClearToDisplayEnd()
      requires Drawing()
      modifies this`cells, buffer
      ensures Drawing() && View() == ClearDisplayEnd(old(View()), columns, rows)
    {
      ghost var was, x, y := cells, View().x, View().y;
      ClearToLineEnd();
      ghost var p := Snapshot(buffer);
      BlackenFrom(cursorY + CHAR_HEIGHT);
      BlackIsCleared(p, Snapshot(buffer), font, was, x, y, columns, rows);
      cells := Cleared(was, x, y, rows, columns, BLANK);
    }

    constructor (width: nat, height: nat, pitch: nat, f: Font)
      requires width % CHAR_WIDTH == 0 && width > 0 && height >= CHAR_HEIGHT && pitch >= width && GoodFont(f)
      ensures columns == width / CHAR_WIDTH && rows == height / CHAR_HEIGHT && font == f
      ensures Fits(buffer, columns, rows) && fresh(buffer) && buffer.Length0 == height && buffer.Length1 == pitch
      ensures state == Start && cursorOn && color == NORMAL_COLOR
    {
      columns, rows, font := width / CHAR_WIDTH, height / CHAR_HEIGHT, f;
      buffer := new Color[height, pitch]((i, j) => BLACK);
      state, cursorX, cursorY, cursorOn, color, insertOn := Start, 0, 0, true, NORMAL_COLOR, false;
      param1, param2, scrollStart, scrollEnd := 0, 0, 0, 0;
      cells := [];
    }

    /** Whatever is in the frame buffer: a blank display with the cursor in its first cell. */
    method Initialize()
      requires Fits(buffer, columns, rows) && GoodFont(font) && color != BLACK
      modifies this, buffer
      ensures Valid()
      ensures View() == old(View()).(x := 0, y := 0, top := 0, bottom := rows, cells := Rows(BLANK, columns, rows))
    {
      scrollStart, scrollEnd := 0, CHAR_HEIGHT * rows;
      cursorX, cursorY := 0, scrollStart;
      ClearFirstLine();
      ghost var p := Snapshot(buffer);
      BlackenFrom(cursorY + CHAR_HEIGHT);
      cells := Rows(BLANK, columns, rows);
      AllBlack(p, Snapshot(buffer), font, columns, rows);
      ghost var q := Snapshot(buffer);
      InvertCursor();
      CursorDrawn(q);
    }

    /** ClearLineEnd in the first row, before the picture means anything. */
    method ClearFirstLine()
      requires Fits(buffer, columns, rows) && GoodFont(font)
      modifies buffer
      ensures forall u | 0 <= u < columns :: Shows(Snapshot(buffer), font, BLANK, u, 0)
    {
      var nPosX := 0;
      ghost var k := 0;
      while nPosX < CHAR_WIDTH * columns
        invariant k <= columns && nPosX == CHAR_WIDTH * k
        invariant forall u | 0 <= u < k :: Shows(Snapshot(buffer), font, BLANK, u, 0)
      {
        ghost var p := Snapshot(buffer);
        EraseChar(nPosX, 0, k, 0);
        FirstCellsStay(p, Snapshot(buffer), font, k);
        nPosX := nPosX + CHAR_WIDTH;
        k := k + 1;
      }
    }

    lemma CursorDrawn(p: Pixels)
      requires Aligned() && HasRoom(p, columns, rows) && Picture(p, font, cells, columns, rows)
      requires !cursorOn ==> Snapshot(buffer) == p
      requires cursorOn ==> Inverted(p, Snapshot(buffer), View().x, View().y, color)
      ensures Valid()
    {
      if cursorOn {
        InvertDraws(p, Snapshot(buffer), font, View(), columns, rows);
      }
    }

    lemma CursorRemoved(p: Pixels)
      requires Aligned() && HasRoom(p, columns, rows) && CursorPicture(p, font, View(), columns, rows)
      requires !cursorOn ==> Snapshot(buffer) == p
      requires cursorOn ==> Inverted(p, Snapshot(buffer), View().x, View().y, color)
      ensures Drawing()
    {
      if cursorOn {
        InvertRemoves(p, Snapshot(buffer), font, View(), columns, rows);
      }
    }

    method WriteStart(c: byte)
      requires Drawing()
      modifies this, buffer
      ensures Drawing() && View() == StepStart(old(View()), c, columns, rows)
    {
      if c == 8 {
        CursorLeft();
      } else if c == 9 {
        Tabulator();
      } else if c == 10 {
        CursorNewLine();
      } else if c == 13 {
        cursorX := 0;
      } else if c == 27 {
        state := Escape;
      } else {
        DisplayChar(c);
      }
    }

    method WriteBracket(c: byte)
      requires Drawing()
      modifies this, buffer
      ensures Drawing() && View() == StepBracket(old(View()), c, columns, rows)
    {
      state := Start;
      if c == '?' as byte {
        state := QuestionMark;
      } else if c == 'A' as byte {
        CursorUp();
      } else if c == 'B' as byte {
        CursorDown();
      } else if c == 'C' as byte {
        CursorRight();
      } else if c == 'D' as byte {
        CursorLeft();
      } else if c == 'H' as byte {
        CursorHome();
      } else if c == 'J' as byte {
        ClearToDisplayEnd();
      } else if c == 'K' as byte {
        ClearToLineEnd();
      } else if IsDigit(c) {
        param1 := Digit(c);
        state := Number1;
      }
    }

    method SetStandoutMode(n: nat)
      requires Drawing()
      modifies this`color
      ensures Drawing() && View() == Standout(old(View()), n)
    {
      if n == 0 || n == 27 {
        color := NORMAL_COLOR;
      } else if n == 1 {
        color := HIGH_COLOR;
      } else if n == 2 {
        color := HALF_COLOR;
      }
    }

    method WriteNumber1(c: byte)
      requires Drawing() && state == Number1
      modifies this, buffer
      ensures Drawing() && View() == StepNumber1(old(View()), c, columns, rows)
    {
      state := Start;
      if c == ';' as byte {
        state := Semicolon;
      } else if c == 'X' as byte {
        EraseFromCursor(param1);
      } else if c == 'h' as byte || c == 'l' as byte {
        if param1 == 4 {
          insertOn := c == 'h' as byte;
        }
      } else if c == 'm' as byte {
        SetStandoutMode(param1);
      } else if IsDigit(c) {
        param1 := param1 * 10 + Digit(c);
        state := if param1 > 99 then Start else Number1;
      }
    }

    method WriteNumber2(c: byte)
      requires Drawing() && state == Number2
      modifies this, buffer
      ensures Drawing() && View() == StepNumber2(old(View()), c, columns, rows)
    {
      state := Start;
      if c == 'H' as byte {
        CursorMove(param1, param2);
      } else if c == 'r' as byte {
        SetScrollRegion(param1, param2);
      } else if IsDigit(c) {
        param2 := param2 * 10 + Digit(c);
        state := if param2 > 199 then Start else Number2;
      }
    }

    method WriteNumber3(c: byte)
      requires Drawing() && state == Number3
      modifies this
      ensures Drawing() && View() == StepNumber3(old(View()), c)
    {
      state := Start;
      if c == 'h' as byte || c == 'l' as byte {
        if param1 == 25 {
          cursorOn := c == 'h' as byte;
        }
      } else if IsDigit(c) {
        param1 := param1 * 10 + Digit(c);
        state := if param1 > 99 then Start else Number3;
      }
    }

    method WriteChar(c: byte)
      requires Drawing()
      modifies this, buffer
      ensures Drawing() && View() == Step(old(View()), c, columns, rows)
    {
      match state
      case Start => WriteStart(c);
      case Escape => state := if c == '[' as byte then Bracket else Start;
      case Bracket => WriteBracket(c);
      case Number1 => WriteNumber1(c);
      case Semicolon =>
        if IsDigit(c) {
          param2 := Digit(c);
          state := Number2;
        } else {
          state := Start;
        }
      case QuestionMark =>
        if IsDigit(c) {
          param1 := Digit(c);
          state := Number3;
        } else {
          state := Start;
        }
      case Number2 => WriteNumber2(c);
      case Number3 => WriteNumber3(c);
    }

    /** Whatever is written: afterwards the frame buffer is the picture of the terminal that has read it. */
    method Write(text: seq<byte>) returns (n: nat)
      requires Valid()
      modifies this, buffer
      ensures Valid() && n == |text| && View() == Run(old(View()), text, columns, rows)
    {
      ghost var p := Snapshot(buffer);
      InvertCursor();
      CursorRemoved(p);
      n := 0;
      assert text[0..] == text;
      while n < |text|
        invariant n <= |text| && Drawing()
        invariant Run(View(), text[n..], columns, rows) == Run(old(View()), text, columns, rows)
      {
        assert text[n..][0] == text[n] && text[n..][1..] == text[n + 1..];
        WriteChar(text[n]);
        n := n + 1;
      }
      p := Snapshot(buffer);
      InvertCursor();
      CursorDrawn(p);
    }
  }

  /** The next tabulator stop, in pixels; stops are every 8 characters. */
  function NextTab(x: nat): (stop: nat)
    ensures x % CHAR_WIDTH == 0 ==> stop % CHAR_WIDTH == 0 && stop / CHAR_WIDTH == (x / CHAR_WIDTH + 8) / 8 * 8
  {
    var tabWidth := CHAR_WIDTH * 8;
    assert x % CHAR_WIDTH == 0 ==> x + tabWidth == CHAR_WIDTH * (x / CHAR_WIDTH + 8);
    (x + tabWidth) / tabWidth * tabWidth
  }
}
