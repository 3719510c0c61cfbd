/** CHD44780Device: the driver with its shadow buffer, proved against LcdTerminal and the controller. */
module Hd44780 {
  import opened ByteRing
  import opened Grid
  import opened LcdTerminal
  import opened TerminalInput

  /** The shadow buffer holds the cells. */
  ghost predicate Shadows(buffer: array2<byte>, cells: seq<seq<byte>>, columns: nat, rows: nat)
    requires buffer.Length0 >= rows && buffer.Length1 >= columns && Rectangular(cells, columns, rows)
    reads buffer
  {
    forall x, y | 0 <= x < columns && 0 <= y < rows :: buffer[y, x] == cells[y][x]
  }

  /** The controller's memory holds the cells. */
  ghost predicate Shown(lcd: Lcd, cells: seq<seq<byte>>, columns: nat, rows: nat)
    requires ValidLcd(lcd) && Rectangular(cells, columns, rows) && Fits(columns, rows)
  {
    forall x, y | 0 <= x < columns && 0 <= y < rows :: lcd.ddram[Address(x, y, columns)] == cells[y][x]
  }

  lemma AddressesDiffer(x: nat, y: nat, u: nat, v: nat, columns: nat, rows: nat)
    requires Fits(columns, rows) && x < columns && y < rows && u < columns && v < rows
    ensures Address(x, y, columns) == Address(u, v, columns) ==> x == u && y == v
  {
  }

  /** Setting the address and writing a character shows it in its cell, and changes no other one. */
  lemma CharIsShown(lcd: Lcd, cells: seq<seq<byte>>, columns: nat, rows: nat, x: nat, y: nat, c: byte, after: Lcd)
    requires ValidLcd(lcd) && Rectangular(cells, columns, rows) && Fits(columns, rows) && x < columns && y < rows
    requires Shown(lcd, cells, columns, rows)
    requires after == Command(Command(lcd, false, 0x80 + Address(x, y, columns)), true, c)
    ensures Shown(after, Put(cells, x, y, c), columns, rows)
    ensures after.cursor == lcd.cursor && after.two == lcd.two
  {
  }

  class CHD44780Device {
    const columns: nat
    const rows: nat
    const buffer: array2<byte>
    var state: Mode
    var cursorX: nat
    var cursorY: nat
    var cursorOn: bool
    var param1: nat
    var param2: nat
    var rs: bool                      // the pin RS
    ghost var lcd: Lcd                // the controller
    ghost var cells: seq<seq<byte>>   // what the display shows

    ghost predicate Sized()
      reads this
    {
      && Fits(columns, rows) && buffer.Length0 == 4 && buffer.Length1 == 40
      && ValidLcd(lcd) && lcd.two == (rows > 1) && !rs
      && Rectangular(cells, columns, rows)
    }

    /** The buffer and the controller's memory hold the cells. */
    ghost predicate Agree()
      reads this, buffer
    {
      Sized() && Shadows(buffer, cells, columns, rows) && Shown(lcd, cells, columns, rows)
    }

    ghost predicate Valid()
      reads this, buffer
    {
      && Agree()
      && cursorX < columns && cursorY < rows && lcd.cursor == cursorOn
    }

    ghost function View(): Terminal
      reads this
    {
      Terminal(state, cursorX, cursorY, cursorOn, param1, param2, cells)
    }

    /** Two half bytes over the pins D4 to D7. */
    method WriteByte(b: byte)
      requires ValidLcd(lcd)
      modifies this`lcd
      ensures lcd == Command(old(lcd), rs, b)
    {
      var high := b / 16;
      var low := b % 16;
      lcd := Command(lcd, rs, 16 * high + low);
    }

    method SetChar(x: nat, y: nat, c: byte)
      requires Agree() && x < columns && y < rows
      modifies this`lcd, this`rs, this`cells, buffer
      ensures Agree()
      ensures cells == Put(old(cells), x, y, c) && lcd.cursor == old(lcd.cursor)
    {
      CharIsShown(lcd, cells, columns, rows, x, y, c,
        Command(Command(lcd, false, 0x80 + Address(x, y, columns)), true, c));
      WriteByte(0x80 + Address(x, y, columns));
      rs := true;
      WriteByte(c);
      rs := false;
      buffer[y, x] := c;
      cells := Put(cells, x, y, c);
    }

    /** SetChar with blanks for part of a row. */
    method EraseRow(y: nat, from: nat, to: nat)
      requires Agree() && from <= to <= columns && y < rows
      modifies this`lcd, this`rs, this`cells, buffer
      ensures Agree() && lcd.cursor == old(lcd.cursor)
      ensures cells == WithErased(old(cells), y, from, to - from, SPACE)
    {
      ghost var was := cells;
      var x := from;
      NothingErased(was, y, from, SPACE);
      while x < to
        invariant from <= x <= to && Agree() && lcd.cursor == old(lcd.cursor)
        invariant cells == WithErased(was, y, from, x - from, SPACE)
      {
        OneMoreErased(was, y, from, x - from, SPACE);
        SetChar(x, y, SPACE);
        x := x + 1;
      }
    }

    /** Copy a row to the one above. */
    method CopyUp(y: nat)
      requires Agree() && 1 <= y < rows
      modifies this`lcd, this`rs, this`cells, buffer
      ensures Agree() && lcd.cursor == old(lcd.cursor)
      ensures cells == WithCopied(old(cells), y, columns)
    {
      ghost var was := cells;
      var x := 0;
      NothingCopied(was, y);
      while x < columns
        invariant x <= columns && Agree() && lcd.cursor == old(lcd.cursor)
        invariant cells == WithCopied(was, y, x)
      {
        OneMoreCopied(was, y, x);
        SetChar(x, y - 1, buffer[y, x]);
        x := x + 1;
      }
    }

    method MoveUp()
      requires Agree()
      modifies this`lcd, this`rs, this`cells, buffer
      ensures Agree() && lcd.cursor == old(lcd.cursor)
      ensures cells == MovedUp(old(cells), rows)
    {
      ghost var was := cells;
      var y := 1;
      NothingMovedUp(was);
      while y < rows
        invariant 1 <= y <= rows && Agree() && lcd.cursor == old(lcd.cursor)
        invariant cells == MovedUp(was, y)
      {
        OneMoreMovedUp(was, y, columns);
        CopyUp(y);
        y := y + 1;
      }
    }

    method Scroll()
      requires Agree()
      modifies this`lcd, this`rs, this`cells, buffer
      ensures Agree() && lcd.cursor == old(lcd.cursor)
      ensures cells == Scrolled(old(cells), 0, rows, columns, SPACE)
    {
      AllMovedUp(cells, columns);
      MoveUp();
      EraseRow(rows - 1, 0, columns);
    }

    method SetCursorMode(visible: bool)
      requires ValidLcd(lcd) && !rs
      modifies this`cursorOn, this`lcd
      ensures cursorOn == lcd.cursor == visible && ValidLcd(lcd)
      ensures lcd.ddram == old(lcd.ddram) && lcd.two == old(lcd.two)
    {
      cursorOn := visible;
      WriteByte(if cursorOn then 0x0E else 0x0C);
    }

    method CursorDown()
      requires Valid()
      modifies this`cursorY, this`lcd, this`rs, this`cells, buffer
      ensures Valid() && View() == Down(old(View()), columns, rows)
    {
      cursorY := cursorY + 1;
      if cursorY >= rows {
        Scroll();
        cursorY := cursorY - 1;
      }
    }

    method CursorNewLine()
      requires Valid()
      modifies this`cursorX, this`cursorY, this`lcd, this`rs, this`cells, buffer
      ensures Valid() && View() == NewLine(old(View()), columns, rows)
    {
      cursorX := 0;
      CursorDown();
    }

    method CursorLeft()
      requires Valid()
      modifies this`cursorX, this`cursorY
      ensures Valid() && View() == Left(old(View()), columns, rows)
    {
      if cursorX > 0 {
        cursorX := cursorX - 1;
      } else if cursorY > 0 {
        cursorX := columns - 1;
        cursorY := cursorY - 1;
      }
    }

    method CursorRight()
      requires Valid()
      modifies this`cursorX, this`cursorY, this`lcd, this`rs, this`cells, buffer
      ensures Valid() && View() == Right(old(View()), columns, rows)
    {
      if cursorX + 1 >= columns {
        CursorNewLine();
      } else {
        cursorX := cursorX + 1;
      }
    }

    method CursorUp()
      requires Valid()
      modifies this`cursorY
      ensures Valid() && View() == old(View()).(y := if old(cursorY) > 0 then old(cursorY) - 1 else 0)
    {
      if cursorY > 0 {
        cursorY := cursorY - 1;
      }
    }

    /** The code decrements unsigned numbers, of which 0 becomes the largest one. */
    method CursorMove(row: nat, column: nat)
      requires Valid()
      modifies this`cursorX, this`cursorY
      ensures Valid() && View() == Move(old(View()), row, column, columns, rows)
    {
      if column > 0 && column - 1 < columns && row > 0 && row - 1 < rows {
        cursorX := column - 1;
        cursorY := row - 1;
      }
    }

    method Tabulator()
      requires Valid()
      modifies this`cursorX, this`cursorY, this`lcd, this`rs, this`cells, buffer
      ensures Valid() && View() == Tab(old(View()), columns, rows)
    {
      var stop := (cursorX + 8) / 8 * 8;
      if stop >= columns {
        CursorNewLine();
      } else {
        cursorX := stop;
      }
    }

    method DisplayChar(c: byte)
      requires Valid()
      modifies this`cursorX, this`cursorY, this`lcd, this`rs, this`cells, buffer
      ensures Valid() && View() == Display(old(View()), c, columns, rows)
    {
      if SPACE <= c {
        var code := c;
        if 0x80 <= code <= 0x87 {
          code := code - 0x80;
        }
        SetChar(cursorX, cursorY, code);
        CursorRight();
      }
    }

    method EraseFromCursor(count: nat)
      requires Valid()
      modifies this`lcd, this`rs, this`cells, buffer
      ensures Valid() && View() == EraseChars(old(View()), count, columns, rows)
    {
      if count == 0 {
        NothingErased(cells, cursorY, cursorX, SPACE);
        return;
      }
      var endX := cursorX + count;
      if endX > columns {
        endX := columns;
      }
      EraseRow(cursorY, cursorX, endX);
    }

    method ClearToLineEnd()
      requires Valid()
      modifies this`lcd, this`rs, this`cells, buffer
      ensures Valid() && View() == ClearLineEnd(old(View()), columns, rows)
    {
      EraseRow(cursorY, cursorX, columns);
    }

    /** The whole display is cleared by a command of the controller. */
    method ClearAll()
      requires Sized()
      modifies this`lcd, this`cells, buffer
      ensures Agree() && lcd.cursor == old(lcd.cursor)
      ensures cells == Rows(SPACE, columns, rows)
    {
      WriteByte(0x01);
      ghost var l := lcd;
      var y := 0;
      while y < rows
        invariant y <= rows && lcd == l
        invariant forall u, v | 0 <= u < columns && 0 <= v < y :: buffer[v, u] == SPACE
      {
        var x := 0;
        while x < columns
          invariant x <= columns && lcd == l
          invariant forall u, v | 0 <= u < columns && 0 <= v < y :: buffer[v, u] == SPACE
          invariant forall u | 0 <= u < x :: buffer[y, u] == SPACE
        {
          buffer[y, x] := SPACE;
          x := x + 1;
        }
        y := y + 1;
      }
      cells := Rows(SPACE, columns, rows);
      assert Shown(lcd, cells, columns, rows) by {
        forall u, v | 0 <= u < columns && 0 <= v < rows ensures lcd.ddram[Address(u, v, columns)] == SPACE {
          AddressesDiffer(u, v, u, v, columns, rows);
        }
      }
    }

    method ClearRowsBelow()
      requires Valid()
      modifies this`lcd, this`rs, this`cells, buffer
      ensures Valid() && cells == Cleared(old(cells), cursorX, cursorY, rows, columns, SPACE)
    {
      ghost var was := cells;
      FirstCleared(was, cursorX, cursorY, columns, SPACE);
      EraseRow(cursorY, cursorX, columns);
      var y := cursorY + 1;
      while y < rows
        invariant cursorY < y <= rows && Agree() && lcd.cursor == old(lcd.cursor)
        invariant cells == Cleared(was, cursorX, cursorY, y, columns, SPACE)
      {
        OneMoreCleared(was, cursorX, cursorY, y, columns, SPACE);
        EraseRow(y, 0, columns);
        y := y + 1;
      }
    }

    method ClearToDisplayEnd()
      requires Valid()
      modifies this`lcd, this`rs, this`cells, buffer
      ensures Valid() && View() == ClearDisplayEnd(old(View()), columns, rows)
    {
      if cursorX == 0 && cursorY == 0 {
        AllCleared(cells, columns, rows, SPACE);
        ClearAll();
      } else {
        ClearRowsBelow();
      }
    }

    constructor (c: nat, r: nat)
      requires Fits(c, r)
      ensures columns == c && rows == r && fresh(buffer)
      ensures buffer.Length0 == 4 && buffer.Length1 == 40 && ValidLcd(lcd) && !rs && state == Start
    {
      columns, rows := c, r;
      buffer := new byte[4, 40]((i, j) => SPACE);
      state, cursorX, cursorY, cursorOn, param1, param2, rs := Start, 0, 0, false, 0, 0, false;
      lcd := Lcd(seq(DDRAM, i => SPACE), 0, false, false);
      cells := [];
    }

    /** Switch the cursor on and clear the display, whatever the controller's memory was. */
    method Initialize()
      requires Fits(columns, rows) && buffer.Length0 == 4 && buffer.Length1 == 40 && ValidLcd(lcd) && !rs
      modifies this, buffer
      ensures Valid()
      ensures View() == old(View()).(x := 0, y := 0, on := true, cells := Rows(SPACE, columns, rows))
    {
      WriteByte(if rows == 1 then 0x20 else 0x28);
      SetCursorMode(true);
      cursorX := 0;
      cursorY := 0;
      cells := Rows(SPACE, columns, rows);
      ClearAll();
      WriteByte(0x06);
    }

    method WriteStart(c: byte)
      requires Valid() && state == Start
      modifies this, buffer
      ensures Valid() && View() == Step(old(View()), c, columns, rows)
    {
      if c == 8 {
        CursorLeft();
      } else if c == 9 {
        Tabulator();
      } else if c == 10 {
        CursorNewLine();
      } else if c == 13 {
        cursorX := 0;
      } else if c == 27 {
        state := Escape;
      } else {
        DisplayChar(c);
      }
    }

    method WriteBracket(c: byte)
      requires Valid() && state == Bracket
      modifies this, buffer
      ensures Valid() && View() == Step(old(View()), c, columns, rows)
    {
      state := Start;
      if c == '?' as byte {
        state := QuestionMark;
      } else if c == 'A' as byte {
        CursorUp();
      } else if c == 'B' as byte {
        CursorDown();
      } else if c == 'C' as byte {
        CursorRight();
      } else if c == 'D' as byte {
        CursorLeft();
      } else if c == 'H' as byte {
        cursorX := 0;
        cursorY := 0;
      } else if c == 'J' as byte {
        ClearToDisplayEnd();
      } else if c == 'K' as byte {
        ClearToLineEnd();
      } else if IsDigit(c) {
        param1 := Digit(c);
        state := Number1;
      }
    }

    method WriteNumber(c: byte)
      requires Valid() && state != Start && state != Bracket
      modifies this, buffer
      ensures Valid() && View() == Step(old(View()), c, columns, rows)
    {
      match state
      case Escape =>
        state := if c == '[' as byte then Bracket else Start;
      case Number1 =>
        if c == ';' as byte {
          state := Semicolon;
        } else if c == 'X' as byte {
          state := Start;
          EraseFromCursor(param1);
        } else if IsDigit(c) {
          param1 := param1 * 10 + Digit(c);
          if param1 > 99 {
            state := Start;
          }
        } else {
          state := Start;
        }
      case Semicolon =>
        if IsDigit(c) {
          param2 := Digit(c);
          state := Number2;
        } else {
          state := Start;
        }
      case QuestionMark =>
        if IsDigit(c) {
          param1 := Digit(c);
          state := Number3;
        } else {
          state := Start;
        }
      case Number2 =>
        if c == 'H' as byte {
          state := Start;
          CursorMove(param1, param2);
        } else if IsDigit(c) {
          param2 := param2 * 10 + Digit(c);
          if param2 > 199 {
            state := Start;
          }
        } else {
          state := Start;
        }
      case Number3 =>
        if c == 'h' as byte || c == 'l' as byte {
          if param1 == 25 {
            SetCursorMode(c == 'h' as byte);
          }
          state := Start;
        } else if IsDigit(c) {
          param1 := param1 * 10 + Digit(c);
          if param1 > 99 {
            state := Start;
          }
        } else {
          state := Start;
        }
    }

    method WriteChar(c: byte)
      requires Valid()
      modifies this, buffer
      ensures Valid() && View() == Step(old(View()), c, columns, rows)
    {
      if state == Start {
        WriteStart(c);
      } else if state == Bracket {
        WriteBracket(c);
      } else {
        WriteNumber(c);
      }
    }

    /** Afterwards the controller's cursor is on the cursor's cell, if it is shown. */
    method Write(text: seq<byte>) returns (n: nat)
      requires Valid()
      modifies this, buffer
      ensures Valid() && n == |text| && View() == Run(old(View()), text, columns, rows)
      ensures cursorOn ==> lcd.address == Address(cursorX, cursorY, columns)
    {
      n := 0;
      assert text[0..] == text;
      while n < |text|
        invariant n <= |text| && Valid()
        invariant Run(View(), text[n..], columns, rows) == Run(old(View()), text, columns, rows)
      {
        assert text[n..][0] == text[n] && text[n..][1..] == text[n + 1..];
        WriteChar(text[n]);
        n := n + 1;
      }
      if cursorOn {
        AddressesDiffer(cursorX, cursorY, cursorX, cursorY, columns, rows);
        WriteByte(0x80 + Address(cursorX, cursorY, columns));
      }
    }
  }

  // ---------- rows ----------

  /** Row `y` is copied to the one above up to column `x`. */
  function WithCopied(cells: seq<seq<byte>>, y: nat, x: nat): seq<seq<byte>>
    requires 1 <= y < |cells| && |cells[y]| == |cells[y - 1]| && x <= |cells[y]|
  {
    cells[y - 1 := cells[y][..x] + cells[y - 1][x..]]
  }

  lemma NothingCopied(cells: seq<seq<byte>>, y: nat)
    requires 1 <= y < |cells| && |cells[y]| == |cells[y - 1]|
    ensures WithCopied(cells, y, 0) == cells
  {
    assert cells[y][..0] + cells[y - 1][0..] == cells[y - 1];
  }

  lemma OneMoreCopied(cells: seq<seq<byte>>, y: nat, x: nat)
    requires 1 <= y < |cells| && |cells[y]| == |cells[y - 1]| && x < |cells[y]|
    ensures WithCopied(cells, y, x)[y] == cells[y]
    ensures Put(WithCopied(cells, y, x), x, y - 1, cells[y][x]) == WithCopied(cells, y, x + 1)
  {
    var row := cells[y][..x] + cells[y - 1][x..];
    assert row[..x] + [cells[y][x]] + row[x + 1..] == cells[y][..x + 1] + cells[y - 1][x + 1..];
  }

  /** The rows from 1 to `y` have been copied up. */
  function MovedUp(cells: seq<seq<byte>>, y: nat): (r: seq<seq<byte>>)
    requires 1 <= y <= |cells|
    ensures |r| == |cells|
  {
    cells[1..y] + cells[y - 1..]
  }

  lemma NothingMovedUp(cells: seq<seq<byte>>)
    requires cells != []
    ensures MovedUp(cells, 1) == cells
  {
  }

  lemma OneMoreMovedUp(cells: seq<seq<byte>>, y: nat, columns: nat)
    requires 1 <= y < |cells| && Rectangular(cells, columns, |cells|)
    ensures Rectangular(MovedUp(cells, y), columns, |cells|)
    ensures WithCopied(MovedUp(cells, y), y, columns) == MovedUp(cells, y + 1)
  {
    var m := MovedUp(cells, y);
    assert m[y][..columns] + m[y - 1][columns..] == cells[y];
  }

  lemma AllMovedUp(cells: seq<seq<byte>>, columns: nat)
    requires cells != [] && Rectangular(cells, columns, |cells|)
    ensures Rectangular(MovedUp(cells, |cells|), columns, |cells|)
    ensures WithErased(MovedUp(cells, |cells|), |cells| - 1, 0, columns, SPACE)
            == Scrolled(cells, 0, |cells|, columns, SPACE)
  {
    var m := MovedUp(cells, |cells|);
    assert Erased(m[|cells| - 1], 0, columns, SPACE) == Row(SPACE, columns);
  }
}
