/** The character grid behind the screen: escape sequences, scroll region, colours, and how it looks in pixels. */
module ScreenTerminal {
  import opened ByteRing
  import opened Grid
  import opened TerminalInput

  type Color = nat

  const BLACK: Color := 0
  const NORMAL_COLOR: Color := 0xFFDF   // COLOR16 (31, 31, 31)
  const HIGH_COLOR: Color := 0xF800     // COLOR16 (31, 0, 0)
  const HALF_COLOR: Color := 0x001F     // COLOR16 (0, 0, 31)

  const CHAR_WIDTH: nat := 8
  const CHAR_HEIGHT: nat := 19
  const UNDERLINE: nat := 16

  datatype Cell = Cell(c: byte, color: Color)

  const BLANK := Cell(0x20, BLACK)

  /** The cursor's position and the scroll region, of rows `top` to `bottom` - 1, count characters. */
  datatype Terminal = Terminal(mode: Mode, x: nat, y: nat, on: bool, color: Color, insert: bool, p1: nat, p2: nat,
                               top: nat, bottom: nat, cells: seq<seq<Cell>>)

  /** The cursor is on a cell inside of the scroll region; something drawn can be seen. */
  predicate Shape(t: Terminal, columns: nat, rows: nat) {
    && t.x < columns && t.top <= t.y < t.bottom <= rows && t.color != BLACK
    && Rectangular(t.cells, columns, rows)
  }

  // ---------- operations ----------

  function Down(t: Terminal, columns: nat, rows: nat): Terminal
    requires Shape(t, columns, rows)
  {
    if t.y + 1 < t.bottom then t.(y := t.y + 1) else
      t.(cells := Scrolled(t.cells, t.top, t.bottom, columns, BLANK))
  }

  function NewLine(t: Terminal, columns: nat, rows: nat): Terminal
    requires Shape(t, columns, rows)
  {
    Down(t.(x := 0), columns, rows)
  }

  function Left(t: Terminal, columns: nat, rows: nat): Terminal
    requires Shape(t, columns, rows)
  {
    if t.x > 0 then t.(x := t.x - 1) else if t.y > t.top then t.(x := columns - 1, y := t.y - 1) else t
  }

  function Right(t: Terminal, columns: nat, rows: nat): Terminal
    requires Shape(t, columns, rows)
  {
    if t.x + 1 < columns then t.(x := t.x + 1) else NewLine(t, columns, rows)
  }

  function Up(t: Terminal, columns: nat, rows: nat): Terminal
    requires Shape(t, columns, rows)
  {
    if t.y > t.top then t.(y := t.y - 1) else t
  }

  function Home(t: Terminal): Terminal {
    t.(x := 0, y := t.top)
  }

  function Tab(t: Terminal, columns: nat, rows: nat): Terminal
    requires Shape(t, columns, rows)
  {
    var stop := (t.x + 8) / 8 * 8;
    if stop < columns then t.(x := stop) else NewLine(t, columns, rows)
  }

  /** Counted from 1; a position outside of the scroll region is ignored. */
  function Move(t: Terminal, row: nat, column: nat, columns: nat, rows: nat): Terminal {
    if 1 <= column <= columns && t.top < row <= t.bottom then t.(x := column - 1, y := row - 1) else t
  }

  /** Rows from `start` to `end`, counted from 1; an impossible region is ignored.  The cursor goes home. */
  function SetRegion(t: Terminal, start: nat, end: nat, columns: nat, rows: nat): Terminal {
    Home(if 1 <= start <= end <= rows then t.(top := start - 1, bottom := end) else t)
  }

  function EraseChars(t: Terminal, n: nat, columns: nat, rows: nat): Terminal
    requires Shape(t, columns, rows)
  {
    var count := if t.x + n > columns then columns - t.x else n;
    t.(cells := WithErased(t.cells, t.y, t.x, count, BLANK))
  }

  function ClearLineEnd(t: Terminal, columns: nat, rows: nat): Terminal
    requires Shape(t, columns, rows)
  {
    EraseChars(t, columns, columns, rows)
  }

  /** This clears below the scroll region, too. */
  function ClearDisplayEnd(t: Terminal, columns: nat, rows: nat): Terminal
    requires Shape(t, columns, rows)
  {
    t.(cells := Cleared(t.cells, t.x, t.y, rows, columns, BLANK))
  }

  function Display(t: Terminal, c: byte, columns: nat, rows: nat): Terminal
    requires Shape(t, columns, rows)
  {
    if c < 0x20 then t else Right(t.(cells := Put(t.cells, t.x, t.y, Cell(c, t.color))), columns, rows)
  }

  function Standout(t: Terminal, n: nat): Terminal {
    if n == 0 || n == 27 then t.(color := NORMAL_COLOR)
    else if n == 1 then t.(color := HIGH_COLOR)
    else if n == 2 then t.(color := HALF_COLOR)
    else t
  }

  // ---------- the stream ----------

  /** After a bracket.  Inserting and deleting of lines and characters is accepted but does nothing. */
  function StepBracket(t: Terminal, c: byte, columns: nat, rows: nat): Terminal
    requires Shape(t, columns, rows)
  {
    var s := t.(mode := Start);
    if c == '?' as byte then t.(mode := QuestionMark)
    else if c == 'A' as byte then Up(s, columns, rows)
    else if c == 'B' as byte then Down(s, columns, rows)
    else if c == 'C' as byte then Right(s, columns, rows)
    else if c == 'D' as byte then Left(s, columns, rows)
    else if c == 'H' as byte then Home(s)
    else if c == 'J' as byte then ClearDisplayEnd(s, columns, rows)
    else if c == 'K' as byte then ClearLineEnd(s, columns, rows)
    else if IsDigit(c) then t.(mode := Number1, p1 := Digit(c))
    else s
  }

  function StepNumber1(t: Terminal, c: byte, columns: nat, rows: nat): Terminal
    requires Shape(t, columns, rows)
  {
    var s := t.(mode := Start);
    if c == ';' as byte then t.(mode := Semicolon)
    else if c == 'X' as byte then EraseChars(s, t.p1, columns, rows)
    else if c == 'h' as byte || c == 'l' as byte then
      if t.p1 == 4 then s.(insert := c == 'h' as byte) else s
    else if c == 'm' as byte then Standout(s, t.p1)
    else if IsDigit(c) then
      var p := t.p1 * 10 + Digit(c);
      if p > 99 then s.(p1 := p) else t.(p1 := p)
    else s
  }

  function StepNumber2(t: Terminal, c: byte, columns: nat, rows: nat): Terminal
    requires Shape(t, columns, rows)
  {
    var s := t.(mode := Start);
    if c == 'H' as byte then Move(s, t.p1, t.p2, columns, rows)
    else if c == 'r' as byte then SetRegion(s, t.p1, t.p2, columns, rows)
    else if IsDigit(c) then
      var p := t.p2 * 10 + Digit(c);
      if p > 199 then s.(p2 := p) else t.(p2 := p)
    else s
  }

  function StepNumber3(t: Terminal, c: byte): Terminal {
    var s := t.(mode := Start);
    if c == 'h' as byte || c == 'l' as byte then
      if t.p1 == 25 then s.(on := c == 'h' as byte) else s
    else if IsDigit(c) then
      var p := t.p1 * 10 + Digit(c);
      if p > 99 then s.(p1 := p) else t.(p1 := p)
    else s
  }

  function StepStart(t: Terminal, c: byte, columns: nat, rows: nat): Terminal
    requires Shape(t, columns, rows)
  {
    if c == 8 then Left(t, columns, rows)
    else if c == 9 then Tab(t, columns, rows)
    else if c == 10 then NewLine(t, columns, rows)
    else if c == 13 then t.(x := 0)
    else if c == 27 then t.(mode := Escape)
    else Display(t, c, columns, rows)
  }

  /** One character of the stream. */
  function Step(t: Terminal, c: byte, columns: nat, rows: nat): Terminal
    requires Shape(t, columns, rows)
  {
    match t.mode
    case Start => StepStart(t, c, columns, rows)
    case Escape => t.(mode := if c == '[' as byte then Bracket else Start)
    case Bracket => StepBracket(t, c, columns, rows)
    case Number1 => StepNumber1(t, c, columns, rows)
    case Semicolon => if IsDigit(c) then t.(mode := Number2, p2 := Digit(c)) else t.(mode := Start)
    case QuestionMark => if IsDigit(c) then t.(mode := Number3, p1 := Digit(c)) else t.(mode := Start)
    case Number2 => StepNumber2(t, c, columns, rows)
    case Number3 => StepNumber3(t, c)
  }

  function Run(t: Terminal, text: seq<byte>, columns: nat, rows: nat): Terminal
    requires Shape(t, columns, rows)
    decreases |text|
  {
    if text == [] then t else
      StepKeepsShape(t, text[0], columns, rows);
      Run(Step(t, text[0], columns, rows), text[1..], columns, rows)
  }

  // ---------- the cursor stays in the scroll region ----------

  lemma ScrollKeepsShape(t: Terminal, columns: nat, rows: nat)
    requires Shape(t, columns, rows)
    ensures Shape(Down(t, columns, rows), columns, rows)
    ensures Shape(NewLine(t, columns, rows), columns, rows)
    ensures Shape(Right(t, columns, rows), columns, rows)
    ensures Shape(Tab(t, columns, rows), columns, rows)
  {
  }

  lemma EraseKeepsShape(t: Terminal, n: nat, columns: nat, rows: nat)
    requires Shape(t, columns, rows)
    ensures Shape(EraseChars(t, n, columns, rows), columns, rows)
  {
  }

  lemma ClearKeepsShape(t: Terminal, columns: nat, rows: nat)
    requires Shape(t, columns, rows)
    ensures Shape(ClearDisplayEnd(t, columns, rows), columns, rows)
  {
    RowsOfCleared(t.cells, t.x, t.y, rows, columns, BLANK);
  }

  lemma DisplayKeepsShape(t: Terminal, c: byte, columns: nat, rows: nat)
    requires Shape(t, columns, rows)
    ensures Shape(Display(t, c, columns, rows), columns, rows)
  {
    ScrollKeepsShape(t.(cells := Put(t.cells, t.x, t.y, Cell(c, t.color))), columns, rows);
  }

  lemma BracketKeepsShape(t: Terminal, c: byte, columns: nat, rows: nat)
    requires Shape(t, columns, rows)
    ensures Shape(StepBracket(t, c, columns, rows), columns, rows)
  {
    var s := t.(mode := Start);
    ScrollKeepsShape(s, columns, rows);
    EraseKeepsShape(s, columns, columns, rows);
    ClearKeepsShape(s, columns, rows);
  }

  lemma Number1KeepsShape(t: Terminal, c: byte, columns: nat, rows: nat)
    requires Shape(t, columns, rows)
    ensures Shape(StepNumber1(t, c, columns, rows), columns, rows)
  {
    EraseKeepsShape(t.(mode := Start), t.p1, columns, rows);
  }

  lemma Number2KeepsShape(t: Terminal, c: byte, columns: nat, rows: nat)
    requires Shape(t, columns, rows)
    ensures Shape(StepNumber2(t, c, columns, rows), columns, rows)
  {
  }

  lemma StartKeepsShape(t: Terminal, c: byte, columns: nat, rows: nat)
    requires Shape(t, columns, rows)
    ensures Shape(StepStart(t, c, columns, rows), columns, rows)
  {
    ScrollKeepsShape(t, columns, rows);
    DisplayKeepsShape(t, c, columns, rows);
  }

  lemma StepKeepsShape(t: Terminal, c: byte, columns: nat, rows: nat)
    requires Shape(t, columns, rows)
    ensures Shape(Step(t, c, columns, rows), columns, rows)
  {
    StartKeepsShape(t, c, columns, rows);
    BracketKeepsShape(t, c, columns, rows);
    Number1KeepsShape(t, c, columns, rows);
    Number2KeepsShape(t, c, columns, rows);
  }

  /** Whatever is written, the cursor stays on a cell inside of the scroll region. */
  lemma {:induction false} RunKeepsShape(t: Terminal, text: seq<byte>, columns: nat, rows: nat)
    requires Shape(t, columns, rows)
    ensures Shape(Run(t, text, columns, rows), columns, rows)
    decreases |text|
  {
    if text != [] {
      StepKeepsShape(t, text[0], columns, rows);
      RunKeepsShape(Step(t, text[0], columns, rows), text[1..], columns, rows);
    }
  }

  /** How the characters are cut into calls of Write makes no difference. */
  lemma {:induction false} CallsDoNotMatter(t: Terminal, a: seq<byte>, b: seq<byte>, columns: nat, rows: nat)
    requires Shape(t, columns, rows)
    ensures Shape(Run(t, a, columns, rows), columns, rows)
    ensures Run(Run(t, a, columns, rows), b, columns, rows) == Run(t, a + b, columns, rows)
    decreases |a|
  {
    RunKeepsShape(t, a, columns, rows);
    if a == [] {
      assert a + b == b;
    } else {
      StepKeepsShape(t, a[0], columns, rows);
      CallsDoNotMatter(Step(t, a[0], columns, rows), a[1..], b, columns, rows);
      assert (a + b)[0] == a[0] && (a + b)[1..] == a[1..] + b;
    }
  }

  // ---------- pixels ----------

  /** The pixels of each character, from column and line. */
  datatype Font = Font(pixel: (byte, nat, nat) -> bool)

  /** Blanks have no pixels, and no character has any in the lines of the underline. */
  ghost predicate GoodFont(f: Font) {
    && (forall x, y :: !f.pixel(0x20, x, y))
    && (forall c, x, y | y >= UNDERLINE :: !f.pixel(c, x, y))
  }

  /** What a cell looks like. */
  function Pixel(f: Font, cell: Cell, x: nat, y: nat): Color {
    if f.pixel(cell.c, x, y) then cell.color else BLACK
  }

  /** What a cell looks like when the cursor of this colour is on it. */
  function CursorPixel(f: Font, cell: Cell, color: Color, x: nat, y: nat): Color {
    if y >= UNDERLINE then color else Pixel(f, cell, x, y)
  }
}
