/** The character grid and escape sequences of the HD44780 display driver, and the controller's memory. */
module LcdTerminal {
  import opened ByteRing
  import opened Grid
  import opened TerminalInput

  const SPACE: byte := 0x20

  // ---------- the terminal ----------

  /** `cells` are the rows of the display; `p1` and `p2` the numbers of an escape sequence. */
  datatype Terminal = Terminal(mode: Mode, x: nat, y: nat, on: bool, p1: nat, p2: nat, cells: seq<seq<byte>>)

  /** The cursor is on a cell of a display of this size. */
  predicate Shape(t: Terminal, columns: nat, rows: nat) {
    t.x < columns && t.y < rows && Rectangular(t.cells, columns, rows)
  }

  function Down(t: Terminal, columns: nat, rows: nat): Terminal
    requires Shape(t, columns, rows)
  {
    if t.y + 1 < rows then t.(y := t.y + 1) else t.(cells := Scrolled(t.cells, 0, rows, columns, SPACE))
  }

  function NewLine(t: Terminal, columns: nat, rows: nat): Terminal
    requires Shape(t, columns, rows)
  {
    Down(t.(x := 0), columns, rows)
  }

  function Left(t: Terminal, columns: nat, rows: nat): Terminal
    requires Shape(t, columns, rows)
  {
    if t.x > 0 then t.(x := t.x - 1) else if t.y > 0 then t.(x := columns - 1, y := t.y - 1) else t
  }

  function Right(t: Terminal, columns: nat, rows: nat): Terminal
    requires Shape(t, columns, rows)
  {
    if t.x + 1 < columns then t.(x := t.x + 1) else NewLine(t, columns, rows)
  }

  function Tab(t: Terminal, columns: nat, rows: nat): Terminal
    requires Shape(t, columns, rows)
  {
    var stop := (t.x + 8) / 8 * 8;
    if stop < columns then t.(x := stop) else NewLine(t, columns, rows)
  }

  /** Counted from 1; a position outside of the display is ignored. */
  function Move(t: Terminal, row: nat, column: nat, columns: nat, rows: nat): Terminal {
    if 1 <= column <= columns && 1 <= row <= rows then t.(x := column - 1, y := row - 1) else t
  }

  function EraseChars(t: Terminal, n: nat, columns: nat, rows: nat): Terminal
    requires Shape(t, columns, rows)
  {
    var count := if t.x + n > columns then columns - t.x else n;
    t.(cells := WithErased(t.cells, t.y, t.x, count, SPACE))
  }

  function ClearLineEnd(t: Terminal, columns: nat, rows: nat): Terminal
    requires Shape(t, columns, rows)
  {
    EraseChars(t, columns, columns, rows)
  }

  function ClearDisplayEnd(t: Terminal, columns: nat, rows: nat): Terminal
    requires Shape(t, columns, rows)
  {
    t.(cells := Cleared(t.cells, t.x, t.y, rows, columns, SPACE))
  }

  /** The codes 0x80 to 0x87 are the definable characters 0 to 7. */
  function Code(c: byte): byte {
    if 0x80 <= c <= 0x87 then c - 0x80 else c
  }

  function Display(t: Terminal, c: byte, columns: nat, rows: nat): Terminal
    requires Shape(t, columns, rows)
  {
    if c < SPACE then t else
      Right(t.(cells := Put(t.cells, t.x, t.y, Code(c))), columns, rows)
  }

  /** One character of the stream. */
  function Step(t: Terminal, c: byte, columns: nat, rows: nat): Terminal
    requires Shape(t, columns, rows)
  {
    var s := t.(mode := Start);
    match t.mode
    case Start =>
      if c == 8 then Left(t, columns, rows)
      else if c == 9 then Tab(t, columns, rows)
      else if c == 10 then NewLine(t, columns, rows)
      else if c == 13 then t.(x := 0)
      else if c == 27 then t.(mode := Escape)
      else Display(t, c, columns, rows)
    case Escape => if c == '[' as byte then t.(mode := Bracket) else s
    case Bracket =>
      if c == '?' as byte then t.(mode := QuestionMark)
      else if c == 'A' as byte then s.(y := if t.y > 0 then t.y - 1 else 0)
      else if c == 'B' as byte then Down(s, columns, rows)
      else if c == 'C' as byte then Right(s, columns, rows)
      else if c == 'D' as byte then Left(s, columns, rows)
      else if c == 'H' as byte then s.(x := 0, y := 0)
      else if c == 'J' as byte then ClearDisplayEnd(s, columns, rows)
      else if c == 'K' as byte then ClearLineEnd(s, columns, rows)
      else if IsDigit(c) then t.(mode := Number1, p1 := Digit(c))
      else s
    case Number1 =>
      if c == ';' as byte then t.(mode := Semicolon)
      else if c == 'X' as byte then EraseChars(s, t.p1, columns, rows)
      else if IsDigit(c) then
        var p := t.p1 * 10 + Digit(c);
        if p > 99 then s.(p1 := p) else t.(p1 := p)
      else s
    case Semicolon => if IsDigit(c) then t.(mode := Number2, p2 := Digit(c)) else s
    case QuestionMark => if IsDigit(c) then t.(mode := Number3, p1 := Digit(c)) else s
    case Number2 =>
      if c == 'H' as byte then Move(s, t.p1, t.p2, columns, rows)
      else if IsDigit(c) then
        var p := t.p2 * 10 + Digit(c);
        if p > 199 then s.(p2 := p) else t.(p2 := p)
      else s
    case Number3 =>
      if c == 'h' as byte || c == 'l' as byte then
        if t.p1 == 25 then s.(on := c == 'h' as byte) else s
      else if IsDigit(c) then
        var p := t.p1 * 10 + Digit(c);
        if p > 99 then s.(p1 := p) else t.(p1 := p)
      else s
  }

  lemma StepKeepsShape(t: Terminal, c: byte, columns: nat, rows: nat)
    requires Shape(t, columns, rows)
    ensures Shape(Step(t, c, columns, rows), columns, rows)
  {
    if t.mode.Start? {
      StartKeepsShape(t, c, columns, rows);
    } else if t.mode.Bracket? {
      BracketKeepsShape(t, c, columns, rows);
    } else {
      ScreenKeepsShape(t.(mode := Start), c, columns, rows);
    }
  }

  lemma StartKeepsShape(t: Terminal, c: byte, columns: nat, rows: nat)
    requires Shape(t, columns, rows) && t.mode.Start?
    ensures Shape(Step(t, c, columns, rows), columns, rows)
  {
    ScreenKeepsShape(t, c, columns, rows);
  }

  lemma BracketKeepsShape(t: Terminal, c: byte, columns: nat, rows: nat)
    requires Shape(t, columns, rows) && t.mode.Bracket?
    ensures Shape(Step(t, c, columns, rows), columns, rows)
  {
    ScreenKeepsShape(t.(mode := Start), c, columns, rows);
  }

  lemma ScreenKeepsShape(t: Terminal, c: byte, columns: nat, rows: nat)
    requires Shape(t, columns, rows)
    ensures Shape(Down(t, columns, rows), columns, rows)
    ensures Shape(NewLine(t, columns, rows), columns, rows)
    ensures Shape(Display(t, c, columns, rows), columns, rows)
    ensures Shape(EraseChars(t, t.p1, columns, rows), columns, rows)
    ensures Shape(ClearLineEnd(t, columns, rows), columns, rows)
    ensures Shape(ClearDisplayEnd(t, columns, rows), columns, rows)
  {
  }

  function Run(t: Terminal, text: seq<byte>, columns: nat, rows: nat): Terminal
    requires Shape(t, columns, rows)
    decreases |text|
  {
    if text == [] then t else
      StepKeepsShape(t, text[0], columns, rows);
      Run(Step(t, text[0], columns, rows), text[1..], columns, rows)
  }

  /** Whatever is written, the cursor stays on the display and the display keeps its size. */
  lemma {:induction false} RunKeepsShape(t: Terminal, text: seq<byte>, columns: nat, rows: nat)
    requires Shape(t, columns, rows)
    ensures Shape(Run(t, text, columns, rows), columns, rows)
    decreases |text|
  {
    if text != [] {
      StepKeepsShape(t, text[0], columns, rows);
      RunKeepsShape(Step(t, text[0], columns, rows), text[1..], columns, rows);
    }
  }

  /** How the characters are cut into calls of Write makes no difference. */
  lemma {:induction false} CallsDoNotMatter(t: Terminal, a: seq<byte>, b: seq<byte>, columns: nat, rows: nat)
    requires Shape(t, columns, rows)
    ensures Shape(Run(t, a, columns, rows), columns, rows)
    ensures Run(Run(t, a, columns, rows), b, columns, rows) == Run(t, a + b, columns, rows)
    decreases |a|
  {
    RunKeepsShape(t, a, columns, rows);
    if a == [] {
      assert a + b == b;
    } else {
      StepKeepsShape(t, a[0], columns, rows);
      CallsDoNotMatter(Step(t, a[0], columns, rows), a[1..], b, columns, rows);
      assert (a + b)[0] == a[0] && (a + b)[1..] == a[1..] + b;
    }
  }

  // ---------- the controller ----------

  const DDRAM: nat := 0x80

  /** `ddram` is the display memory, `address` the address counter, `cursor` whether the cursor is shown, `two`
      whether the memory is that of two lines. */
  datatype Lcd = Lcd(ddram: seq<byte>, address: nat, cursor: bool, two: bool)

  predicate ValidLcd(l: Lcd) {
    |l.ddram| == DDRAM && l.address < DDRAM
  }

  /** The address counter goes around the memory of one line or of two. */
  function NextAddress(a: nat, two: bool): (r: nat)
    ensures r < DDRAM
    ensures InMemory(a, two) ==> InMemory(r, two)
  {
    if two then if a == 0x27 then 0x40 else if a == 0x67 then 0 else (a + 1) % DDRAM
    else if a == 0x4F then 0 else (a + 1) % DDRAM
  }

  /** Commands with RS low, and data for the display memory with RS high. */
  function Command(l: Lcd, rs: bool, b: byte): (r: Lcd)
    requires ValidLcd(l)
    ensures ValidLcd(r)
  {
    if rs then
      l.(ddram := l.ddram[l.address := b], address := NextAddress(l.address, l.two))
    else if b >= 0x80 then l.(address := b - 0x80)
    else if 0x20 <= b < 0x40 then l.(two := b / 8 % 2 == 1)
    else if b == 0x01 then l.(ddram := seq(DDRAM, i => SPACE), address := 0)
    else if b == 0x0E then l.(cursor := true)
    else if b == 0x0C then l.(cursor := false)
    else l
  }

  /** The commands that the driver uses. */
  lemma Commands(l: Lcd, a: nat)
    requires ValidLcd(l) && a < 0x80
    ensures Command(l, false, 0x20) == l.(two := false) && Command(l, false, 0x28) == l.(two := true)
    ensures Command(l, false, 0x0C) == l.(cursor := false) && Command(l, false, 0x0E) == l.(cursor := true)
    ensures Command(l, false, 0x80 + a) == l.(address := a) && Command(l, false, 0x06) == l
    ensures var clear := Command(l, false, 0x01);
      clear == l.(address := 0, ddram := clear.ddram) && forall i | 0 <= i < DDRAM :: clear.ddram[i] == 0x20
  {
  }

  /** GetDDRAMAddress. */
  function Address(x: nat, y: nat, columns: nat): nat {
    match y
    case 0 => x
    case 1 => 0x40 + x
    case 2 => columns + x
    case _ => 0x40 + columns + x
  }

  /** An address of the memory behind a display of one line or of two. */
  predicate InMemory(a: nat, two: bool) {
    if two then a <= 0x27 || 0x40 <= a <= 0x67 else a <= 0x4F
  }

  /** The rows begin at these addresses: the third and fourth ones follow the first and the second one. */
  lemma RowsBeginAt(x: nat, columns: nat)
    ensures Address(x, 0, columns) == x && Address(x, 1, columns) == 0x40 + x
    ensures Address(x, 2, 20) == 0x14 + x && Address(x, 3, 20) == 0x54 + x
    ensures Address(x, 2, 16) == 0x10 + x && Address(x, 3, 16) == 0x50 + x
    ensures Address(x, 2, columns) == Address(columns + x, 0, columns)
    ensures Address(x, 3, columns) == Address(columns + x, 1, columns)
  {
  }

  /** The displays that exist. */
  predicate Fits(columns: nat, rows: nat) {
    1 <= columns && 1 <= rows <= 4 && (if rows <= 2 then columns <= 40 else columns <= 20)
  }

  /** Every cell of a display has memory exactly if the display has up to 2 rows, or up to 20 columns. */
  lemma AddressesExistIff(columns: nat, rows: nat)
    requires 1 <= columns <= 40 && 1 <= rows <= 4
    ensures (forall x, y | 0 <= x < columns && 0 <= y < rows :: InMemory(Address(x, y, columns), rows > 1))
      <==> Fits(columns, rows)
  {
    if rows > 2 && columns > 20 {
      assert 0x27 < Address(columns - 1, 2, columns) == 2 * columns - 1;
      assert Address(39 - columns + 1, 2, columns) == 40;
      assert !InMemory(Address(39 - columns + 1, 2, columns), true);
    }
  }

  /** It does happen: the third row of a display of 40 columns has no memory for its first cell, and its cell 24
      shares that of the first cell of the second row. */
  lemma FortyByFourDoesNotFit()
    ensures !InMemory(Address(0, 2, 40), true) && Address(24, 2, 40) == Address(0, 1, 40)
  {
  }

  /** Two cells share an address exactly if a third row reaches the second: in displays of more than 2 rows
      and more than 32 columns. */
  lemma AddressesDifferIff(columns: nat, rows: nat)
    requires 1 <= columns <= 40 && 1 <= rows <= 4
    ensures (forall x, y, u, v | 0 <= x < columns && 0 <= y < rows && 0 <= u < columns && 0 <= v < rows
                                 && Address(x, y, columns) == Address(u, v, columns) :: x == u && y == v)
            <==> rows <= 2 || columns <= 32
  {
    if rows > 2 && columns > 32 {
      assert Address(0x40 - columns, 2, columns) == Address(0, 1, columns) == 0x40;
    }
  }
}
