/** What control characters and escape sequences do to the screen. */
module ScreenSequences {
  import opened ByteRing
  import opened Grid
  import opened TerminalInput
  import opened ScreenTerminal

  /** What can be seen of a terminal, and what writing to it depends on between sequences. */
  datatype Look = Look(x: nat, y: nat, on: bool, color: nat, insert: bool, top: nat, bottom: nat,
                       cells: seq<seq<Cell>>)

  function LookOf(t: Terminal): Look {
    Look(t.x, t.y, t.on, t.color, t.insert, t.top, t.bottom, t.cells)
  }

  /** The terminal is not inside of an escape sequence. */
  predicate Ready(t: Terminal, columns: nat, rows: nat) {
    Shape(t, columns, rows) && t.mode == Start
  }

  /** After this text the terminal is ready and looks like that. */
  predicate Gives(t: Terminal, text: seq<byte>, columns: nat, rows: nat, look: Look)
    requires Shape(t, columns, rows)
  {
    Run(t, text, columns, rows).mode == Start && LookOf(Run(t, text, columns, rows)) == look
  }

  // ---------- cells ----------

  predicate SameSize(a: seq<seq<Cell>>, b: seq<seq<Cell>>, columns: nat, rows: nat) {
    Rectangular(a, columns, rows) && Rectangular(b, columns, rows)
  }

  /** The rows of the scroll region moved up by one, and the last one is black. */
  predicate MovedUp(a: seq<seq<Cell>>, b: seq<seq<Cell>>, top: nat, bottom: nat, columns: nat, rows: nat) {
    SameSize(a, b, columns, rows) && bottom <= rows &&
    forall u, v | 0 <= u < columns && 0 <= v < rows ::
      b[v][u] == if top <= v < bottom - 1 then a[v + 1][u] else if v == bottom - 1 then Cell(0x20, 0) else a[v][u]
  }

  /** One cell is different. */
  predicate OneCell(a: seq<seq<Cell>>, b: seq<seq<Cell>>, x: nat, y: nat, c: Cell, columns: nat, rows: nat) {
    SameSize(a, b, columns, rows) &&
    forall u, v | 0 <= u < columns && 0 <= v < rows :: b[v][u] == if u == x && v == y then c else a[v][u]
  }

  /** The cells `from` to `to` - 1 of a row are black, and all of the rows `below` to `rows` - 1. */
  predicate Blackened(a: seq<seq<Cell>>, b: seq<seq<Cell>>, y: nat, from: nat, to: nat, below: nat, columns: nat,
                      rows: nat) {
    SameSize(a, b, columns, rows) &&
    forall u, v | 0 <= u < columns && 0 <= v < rows ::
      b[v][u] == if (v == y && from <= u < to) || v >= below then Cell(0x20, 0) else a[v][u]
  }

  /** To column `x` of the next row; below the last row of the scroll region it scrolls. */
  predicate NextRow(l: Look, m: Look, x: nat, columns: nat, rows: nat) {
    if l.y + 1 < l.bottom then m == l.(x := x, y := l.y + 1)
    else m == l.(x := x, cells := m.cells) && MovedUp(l.cells, m.cells, l.top, l.bottom, columns, rows)
  }

  /** One cell on; behind the last one of the row to the next row. */
  predicate Advanced(l: Look, m: Look, columns: nat, rows: nat) {
    if l.x + 1 < columns then m == l.(x := l.x + 1) else NextRow(l, m, 0, columns, rows)
  }

  /** One cell back; in front of the first one of the row to the end of the row above, in the scroll region. */
  function Back(l: Look, columns: nat): Look
    requires columns > 0
  {
    if l.x > 0 then l.(x := l.x - 1) else if l.y > l.top then l.(x := columns - 1, y := l.y - 1) else l
  }

  // ---------- characters ----------

  lemma OneByte(t: Terminal, c: byte, columns: nat, rows: nat)
    requires Shape(t, columns, rows)
    ensures Run(t, [c], columns, rows) == Step(t, c, columns, rows)
  {
    StepKeepsShape(t, c, columns, rows);
    assert [c][1..] == [];
  }

  lemma DownIsNextRow(t: Terminal, u: Terminal, columns: nat, rows: nat)
    requires Shape(t, columns, rows) && u == Down(t, columns, rows)
    ensures u.mode == t.mode && NextRow(LookOf(t), LookOf(u), t.x, columns, rows)
  {
    if t.y + 1 >= t.bottom {
      ScrolledIsMovedUp(t.cells, u.cells, t.top, t.bottom, columns, rows);
    }
  }

  lemma ScrolledIsMovedUp(a: seq<seq<Cell>>, b: seq<seq<Cell>>, top: nat, bottom: nat, columns: nat, rows: nat)
    requires Rectangular(a, columns, rows) && top < bottom <= rows && b == Scrolled(a, top, bottom, columns, BLANK)
    ensures MovedUp(a, b, top, bottom, columns, rows)
  {
  }

  lemma Backspace(t: Terminal, columns: nat, rows: nat)
    requires Ready(t, columns, rows)
    ensures Gives(t, [0x08], columns, rows, Back(LookOf(t), columns))
  {
    OneByte(t, 0x08, columns, rows);
  }

  /** To the next multiple of 8, or the next row. */
  lemma Tabulator(t: Terminal, columns: nat, rows: nat)
    requires Ready(t, columns, rows)
    ensures Run(t, [0x09], columns, rows).mode == Start
    ensures var l, m := LookOf(t), LookOf(Run(t, [0x09], columns, rows));
      if m.y == l.y && m.x > 0 then l.x < m.x <= l.x + 8 && m.x % 8 == 0 && m.x < columns && m == l.(x := m.x)
      else (forall stop | l.x < stop < columns :: stop % 8 != 0) && NextRow(l, m, 0, columns, rows)
  {
    OneByte(t, 0x09, columns, rows);
    DownIsNextRow(t.(x := 0), Down(t.(x := 0), columns, rows), columns, rows);
  }

  lemma LineFeed(t: Terminal, columns: nat, rows: nat)
    requires Ready(t, columns, rows)
    ensures Run(t, [0x0A], columns, rows).mode == Start
    ensures NextRow(LookOf(t), LookOf(Run(t, [0x0A], columns, rows)), 0, columns, rows)
  {
    OneByte(t, 0x0A, columns, rows);
    DownIsNextRow(t.(x := 0), Run(t, [0x0A], columns, rows), columns, rows);
  }

  lemma CarriageReturn(t: Terminal, columns: nat, rows: nat)
    requires Ready(t, columns, rows)
    ensures Gives(t, [0x0D], columns, rows, LookOf(t).(x := 0))
  {
    OneByte(t, 0x0D, columns, rows);
  }

  /** The character is in the cell of the cursor, in the current colour; then one cell on. */
  lemma Printable(t: Terminal, c: byte, columns: nat, rows: nat)
    requires Ready(t, columns, rows) && c >= 0x20
    ensures Run(t, [c], columns, rows).mode == Start
    ensures exists cells: seq<seq<Cell>> ::
      && OneCell(t.cells, cells, t.x, t.y, Cell(c, t.color), columns, rows)
      && Advanced(LookOf(t).(cells := cells), LookOf(Run(t, [c], columns, rows)), columns, rows)
  {
    var cells := Put(t.cells, t.x, t.y, Cell(c, t.color));
    OneByte(t, c, columns, rows);
    assert OneCell(t.cells, cells, t.x, t.y, Cell(c, t.color), columns, rows);
    RightAdvances(t.(cells := cells), Run(t, [c], columns, rows), columns, rows);
  }

  lemma RightAdvances(t: Terminal, u: Terminal, columns: nat, rows: nat)
    requires Shape(t, columns, rows) && u == Right(t, columns, rows)
    ensures u.mode == t.mode && Advanced(LookOf(t), LookOf(u), columns, rows)
  {
    if t.x + 1 >= columns {
      DownIsNextRow(t.(x := 0), u, columns, rows);
    }
  }

  lemma OtherControls(t: Terminal, c: byte, columns: nat, rows: nat)
    requires Ready(t, columns, rows) && c < 0x20 && c != 0x08 && c != 0x09 && c != 0x0A && c != 0x0D && c != 0x1B
    ensures Gives(t, [c], columns, rows, LookOf(t))
  {
    OneByte(t, c, columns, rows);
  }

  // ---------- sequences without numbers ----------

  /** The text is a sequence behind ESC [. */
  lemma Csi(t: Terminal, s: seq<byte>, columns: nat, rows: nat)
    requires Ready(t, columns, rows)
    ensures Run(t, [ESC, '[' as byte] + s, columns, rows) == Run(t.(mode := Bracket), s, columns, rows)
  {
    OneByte(t, ESC, columns, rows);
    OneByte(t.(mode := Escape), '[' as byte, columns, rows);
    CallsDoNotMatter(t, [ESC], ['[' as byte] + s, columns, rows);
    CallsDoNotMatter(t.(mode := Escape), ['[' as byte], s, columns, rows);
    assert [ESC] + (['[' as byte] + s) == [ESC, '[' as byte] + s;
  }

  lemma CsiByte(t: Terminal, c: byte, columns: nat, rows: nat)
    requires Ready(t, columns, rows)
    ensures Run(t, [ESC, '[' as byte, c], columns, rows) == Step(t.(mode := Bracket), c, columns, rows)
  {
    assert [ESC, '[' as byte] + [c] == [ESC, '[' as byte, c];
    Csi(t, [c], columns, rows);
    OneByte(t.(mode := Bracket), c, columns, rows);
  }

  lemma EscapeOther(t: Terminal, c: byte, columns: nat, rows: nat)
    requires Ready(t, columns, rows) && c != '[' as byte
    ensures Gives(t, [ESC, c], columns, rows, LookOf(t))
  {
    OneByte(t, ESC, columns, rows);
    OneByte(t.(mode := Escape), c, columns, rows);
    CallsDoNotMatter(t, [ESC], [c], columns, rows);
    assert [ESC] + [c] == [ESC, c];
  }

  /** ESC [ A: up, not above the scroll region. */
  lemma CursorUp(t: Terminal, columns: nat, rows: nat)
    requires Ready(t, columns, rows)
    ensures Gives(t, [ESC, '[' as byte, 'A' as byte], columns, rows,
                  LookOf(t).(y := if t.y > t.top then t.y - 1 else t.y))
  {
    CsiByte(t, 'A' as byte, columns, rows);
  }

  /** ESC [ B: down; in the last row of the scroll region it scrolls. */
  lemma CursorDown(t: Terminal, columns: nat, rows: nat)
    requires Ready(t, columns, rows)
    ensures var u := Run(t, [ESC, '[' as byte, 'B' as byte], columns, rows);
      u.mode == Start && NextRow(LookOf(t), LookOf(u), t.x, columns, rows)
  {
    CsiByte(t, 'B' as byte, columns, rows);
    DownIsNextRow(t, Run(t, [ESC, '[' as byte, 'B' as byte], columns, rows), columns, rows);
  }

  /** ESC [ C: one cell on. */
  lemma CursorRight(t: Terminal, columns: nat, rows: nat)
    requires Ready(t, columns, rows)
    ensures var u := Run(t, [ESC, '[' as byte, 'C' as byte], columns, rows);
      u.mode == Start && Advanced(LookOf(t), LookOf(u), columns, rows)
  {
    CsiByte(t, 'C' as byte, columns, rows);
    RightAdvances(t, Run(t, [ESC, '[' as byte, 'C' as byte], columns, rows), columns, rows);
  }

  /** ESC [ D: one cell back. */
  lemma CursorLeft(t: Terminal, columns: nat, rows: nat)
    requires Ready(t, columns, rows)
    ensures Gives(t, [ESC, '[' as byte, 'D' as byte], columns, rows, Back(LookOf(t), columns))
  {
    CsiByte(t, 'D' as byte, columns, rows);
  }

  /** ESC [ H: to the first cell of the scroll region. */
  lemma CursorHome(t: Terminal, columns: nat, rows: nat)
    requires Ready(t, columns, rows)
    ensures Gives(t, [ESC, '[' as byte, 'H' as byte], columns, rows, LookOf(t).(x := 0, y := t.top))
  {
    CsiByte(t, 'H' as byte, columns, rows);
  }

  /** ESC [ J: the rest of the row and all rows below are black, also those behind the scroll region. */
  lemma ClearToEnd(t: Terminal, columns: nat, rows: nat)
    requires Ready(t, columns, rows)
    ensures var u := Run(t, [ESC, '[' as byte, 'J' as byte], columns, rows);
      && u.mode == Start && LookOf(u) == LookOf(t).(cells := u.cells)
      && Blackened(t.cells, u.cells, t.y, t.x, columns, t.y + 1, columns, rows)
  {
    CsiByte(t, 'J' as byte, columns, rows);
    RowsOfCleared(t.cells, t.x, t.y, rows, columns, BLANK);
  }

  /** ESC [ K: the rest of the row is black. */
  lemma ClearToLineEnd(t: Terminal, columns: nat, rows: nat)
    requires Ready(t, columns, rows)
    ensures var u := Run(t, [ESC, '[' as byte, 'K' as byte], columns, rows);
      && u.mode == Start && LookOf(u) == LookOf(t).(cells := u.cells)
      && Blackened(t.cells, u.cells, t.y, t.x, columns, rows, columns, rows)
  {
    CsiByte(t, 'K' as byte, columns, rows);
  }

  /** Other characters end the sequence without effect. */
  lemma CsiOther(t: Terminal, c: byte, columns: nat, rows: nat)
    requires Ready(t, columns, rows) && !('A' as byte <= c <= 'D' as byte) && !('0' as byte <= c <= '9' as byte)
    requires c != 'H' as byte && c != 'J' as byte && c != 'K' as byte && c != '?' as byte
    ensures Gives(t, [ESC, '[' as byte, c], columns, rows, LookOf(t))
  {
    CsiByte(t, c, columns, rows);
  }

  // ---------- numbers ----------

  /** The modes in which a number is read, the number so far, and the limit behind which it is given up. */
  predicate InNumber(t: Terminal, acc: nat, limit: nat) {
    || ((t.mode == Number1 || t.mode == Number3) && t.p1 == acc && limit == 99)
    || (t.mode == Number2 && t.p2 == acc && limit == 199)
  }

  function WithNumber(t: Terminal, n: nat): Terminal {
    if t.mode == Number2 then t.(p2 := n) else t.(p1 := n)
  }

  lemma {:induction false} MoreDigits(t: Terminal, acc: nat, limit: nat, digits: seq<byte>, columns: nat, rows: nat)
    requires Shape(t, columns, rows) && InNumber(t, acc, limit)
    requires forall i | 0 <= i < |digits| :: 0x30 <= digits[i] <= 0x39
    requires Value(acc, digits) <= limit
    ensures Run(t, digits, columns, rows) == WithNumber(t, Value(acc, digits))
    decreases |digits|
  {
    if digits != [] {
      var n := acc * 10 + (digits[0] - 0x30);
      ValueGrows(n, digits[1..]);
      assert Step(t, digits[0], columns, rows) == WithNumber(t, n);
      MoreDigits(WithNumber(t, n), n, limit, digits[1..], columns, rows);
    }
  }

  lemma ReadsNumber(t: Terminal, digits: seq<byte>, n: nat, columns: nat, rows: nat)
    requires Shape(t, columns, rows) && Decimal(digits, n)
    requires t.mode == Bracket || t.mode == QuestionMark || t.mode == Semicolon
    requires n <= if t.mode == Semicolon then 199 else 99
    ensures Run(t, digits, columns, rows) == WithNumber(t.(mode := NumberMode(t.mode)), n)
  {
    var d := digits[0] - 0x30;
    var u := WithNumber(t.(mode := NumberMode(t.mode)), d);
    assert Step(t, digits[0], columns, rows) == u;
    MoreDigits(u, d, if t.mode == Semicolon then 199 else 99, digits[1..], columns, rows);
  }

  /** A sequence of ESC [, a number and one more character. */
  lemma CsiNumber(t: Terminal, digits: seq<byte>, n: nat, c: byte, columns: nat, rows: nat)
    requires Ready(t, columns, rows) && Decimal(digits, n) && n <= 99
    ensures Run(t, [ESC, '[' as byte] + (digits + [c]), columns, rows)
            == Step(t.(mode := Number1, p1 := n), c, columns, rows)
  {
    Csi(t, digits + [c], columns, rows);
    ReadsNumber(t.(mode := Bracket), digits, n, columns, rows);
    CallsDoNotMatter(t.(mode := Bracket), digits, [c], columns, rows);
    OneByte(t.(mode := Number1, p1 := n), c, columns, rows);
  }

  /** ESC [ n X: n cells of the row are black, as far as there are so many. */
  lemma EraseCharacters(t: Terminal, digits: seq<byte>, n: nat, columns: nat, rows: nat)
    requires Ready(t, columns, rows) && Decimal(digits, n) && n <= 99
    ensures var u := Run(t, [ESC, '[' as byte] + (digits + ['X' as byte]), columns, rows);
      && u.mode == Start && LookOf(u) == LookOf(t).(cells := u.cells)
      && Blackened(t.cells, u.cells, t.y, t.x, t.x + n, rows, columns, rows)
  {
    CsiNumber(t, digits, n, 'X' as byte, columns, rows);
  }

  /** ESC [ n m: 0 and 27 select white, 1 red and 2 blue. */
  lemma SelectColor(t: Terminal, digits: seq<byte>, n: nat, columns: nat, rows: nat)
    requires Ready(t, columns, rows) && Decimal(digits, n) && n <= 99
    ensures Gives(t, [ESC, '[' as byte] + (digits + ['m' as byte]), columns, rows,
                  LookOf(t).(color := if n == 0 || n == 27 then 0xFFDF else if n == 1 then 0xF800
                                      else if n == 2 then 0x001F else t.color))
  {
    CsiNumber(t, digits, n, 'm' as byte, columns, rows);
  }

  /** ESC [ 4 h and ESC [ 4 l are noted. */
  lemma InsertMode(t: Terminal, digits: seq<byte>, n: nat, h: bool, columns: nat, rows: nat)
    requires Ready(t, columns, rows) && Decimal(digits, n) && n <= 99
    ensures Gives(t, [ESC, '[' as byte] + (digits + [if h then 'h' as byte else 'l' as byte]), columns, rows,
                  LookOf(t).(insert := if n == 4 then h else t.insert))
  {
    CsiNumber(t, digits, n, if h then 'h' as byte else 'l' as byte, columns, rows);
  }

  lemma CsiNumberOther(t: Terminal, digits: seq<byte>, n: nat, c: byte, columns: nat, rows: nat)
    requires Ready(t, columns, rows) && Decimal(digits, n) && n <= 99
    requires c != ';' as byte && c != 'X' as byte && c != 'h' as byte && c != 'l' as byte && c != 'm' as byte
    requires !('0' as byte <= c <= '9' as byte)
    ensures Gives(t, [ESC, '[' as byte] + (digits + [c]), columns, rows, LookOf(t))
  {
    CsiNumber(t, digits, n, c, columns, rows);
  }

  /** A number above 99 ends the sequence with its last digit. */
  lemma CsiNumberTooLarge(t: Terminal, digits: seq<byte>, n: nat, d: byte, columns: nat, rows: nat)
    requires Ready(t, columns, rows) && Decimal(digits, n) && n <= 99 && '0' as byte <= d <= '9' as byte
    requires n * 10 + (d - 0x30) > 99
    ensures Gives(t, [ESC, '[' as byte] + (digits + [d]), columns, rows, LookOf(t))
  {
    CsiNumber(t, digits, n, d, columns, rows);
  }

  // ---------- two numbers ----------

  lemma CsiTwoNumbers(t: Terminal, first: seq<byte>, m: nat, second: seq<byte>, n: nat, c: byte, columns: nat,
                      rows: nat)
    requires Ready(t, columns, rows) && Decimal(first, m) && m <= 99 && Decimal(second, n) && n <= 199
    ensures Run(t, TwoNumbers(first, second, c), columns, rows)
            == Step(t.(mode := Number2, p1 := m, p2 := n), c, columns, rows)
  {
    var a := t.(mode := Bracket);
    var b := t.(mode := Number1, p1 := m);
    var d := t.(mode := Semicolon, p1 := m);
    Csi(t, first + ([';' as byte] + (second + [c])), columns, rows);
    ReadsNumber(a, first, m, columns, rows);
    CallsDoNotMatter(a, first, [';' as byte] + (second + [c]), columns, rows);
    OneByte(b, ';' as byte, columns, rows);
    CallsDoNotMatter(b, [';' as byte], second + [c], columns, rows);
    ReadsNumber(d, second, n, columns, rows);
    CallsDoNotMatter(d, second, [c], columns, rows);
    OneByte(t.(mode := Number2, p1 := m, p2 := n), c, columns, rows);
  }

  /** ESC [ row ; column H: to this position, counted from 1, if it is in the scroll region. */
  lemma CursorMove(t: Terminal, first: seq<byte>, row: nat, second: seq<byte>, column: nat, columns: nat, rows: nat)
    requires Ready(t, columns, rows) && Decimal(first, row) && row <= 99 && Decimal(second, column) && column <= 199
    ensures Gives(t, TwoNumbers(first, second, 'H' as byte), columns, rows,
                  if 1 <= column <= columns && t.top + 1 <= row <= t.bottom then
                    LookOf(t).(x := column - 1, y := row - 1)
                  else LookOf(t))
  {
    CsiTwoNumbers(t, first, row, second, column, 'H' as byte, columns, rows);
  }

  /** ESC [ start ; end r: these rows, counted from 1, are the scroll region, if there are such rows; then to the
      first cell of the scroll region. */
  lemma ScrollRegion(t: Terminal, first: seq<byte>, start: nat, second: seq<byte>, end: nat, columns: nat, rows: nat)
    requires Ready(t, columns, rows) && Decimal(first, start) && start <= 99 && Decimal(second, end) && end <= 199
    ensures Gives(t, TwoNumbers(first, second, 'r' as byte), columns, rows,
                  if 1 <= start <= end <= rows then
                    LookOf(t).(top := start - 1, bottom := end, x := 0, y := start - 1)
                  else LookOf(t).(x := 0, y := t.top))
  {
    CsiTwoNumbers(t, first, start, second, end, 'r' as byte, columns, rows);
  }

  lemma CsiTwoNumbersOther(t: Terminal, first: seq<byte>, m: nat, second: seq<byte>, n: nat, c: byte, columns: nat,
                           rows: nat)
    requires Ready(t, columns, rows) && Decimal(first, m) && m <= 99 && Decimal(second, n) && n <= 199
    requires c != 'H' as byte && c != 'r' as byte
    requires '0' as byte <= c <= '9' as byte ==> n * 10 + (c - 0x30) > 199
    ensures Gives(t, TwoNumbers(first, second, c), columns, rows, LookOf(t))
  {
    CsiTwoNumbers(t, first, m, second, n, c, columns, rows);
  }

  // ---------- the cursor ----------

  lemma CsiQuestion(t: Terminal, digits: seq<byte>, n: nat, c: byte, columns: nat, rows: nat)
    requires Ready(t, columns, rows) && Decimal(digits, n) && n <= 99
    ensures Run(t, [ESC, '[' as byte] + (['?' as byte] + (digits + [c])), columns, rows)
            == Step(t.(mode := Number3, p1 := n), c, columns, rows)
  {
    var a, b := t.(mode := Bracket), t.(mode := QuestionMark);
    Csi(t, ['?' as byte] + (digits + [c]), columns, rows);
    OneByte(a, '?' as byte, columns, rows);
    CallsDoNotMatter(a, ['?' as byte], digits + [c], columns, rows);
    ReadsNumber(b, digits, n, columns, rows);
    CallsDoNotMatter(b, digits, [c], columns, rows);
    OneByte(t.(mode := Number3, p1 := n), c, columns, rows);
  }

  /** ESC [ ? 25 h switches the cursor on, and ESC [ ? 25 l off. */
  lemma CursorMode(t: Terminal, digits: seq<byte>, n: nat, h: bool, columns: nat, rows: nat)
    requires Ready(t, columns, rows) && Decimal(digits, n) && n <= 99
    ensures Gives(t, [ESC, '[' as byte] + (['?' as byte] + (digits + [if h then 'h' as byte else 'l' as byte])),
                  columns, rows, LookOf(t).(on := if n == 25 then h else t.on))
  {
    CsiQuestion(t, digits, n, if h then 'h' as byte else 'l' as byte, columns, rows);
  }

  lemma CsiQuestionOther(t: Terminal, digits: seq<byte>, n: nat, c: byte, columns: nat, rows: nat)
    requires Ready(t, columns, rows) && Decimal(digits, n) && n <= 99 && c != 'h' as byte && c != 'l' as byte
    requires '0' as byte <= c <= '9' as byte ==> n * 10 + (c - 0x30) > 99
    ensures Gives(t, [ESC, '[' as byte] + (['?' as byte] + (digits + [c])), columns, rows, LookOf(t))
  {
    CsiQuestion(t, digits, n, c, columns, rows);
  }

  /** A sequence that lacks a number ends at the character in its place. */
  lemma NumberMissing(t: Terminal, digits: seq<byte>, n: nat, c: byte, columns: nat, rows: nat)
    requires Ready(t, columns, rows) && Decimal(digits, n) && n <= 99 && !('0' as byte <= c <= '9' as byte)
    ensures Gives(t, [ESC, '[' as byte] + (['?' as byte] + [c]), columns, rows, LookOf(t))
    ensures Gives(t, [ESC, '[' as byte] + (digits + ([';' as byte] + [c])), columns, rows, LookOf(t))
  {
    var a, b, d := t.(mode := Bracket), t.(mode := QuestionMark), t.(mode := Number1, p1 := n);
    Csi(t, ['?' as byte] + [c], columns, rows);
    OneByte(a, '?' as byte, columns, rows);
    CallsDoNotMatter(a, ['?' as byte], [c], columns, rows);
    OneByte(b, c, columns, rows);
    Csi(t, digits + ([';' as byte] + [c]), columns, rows);
    ReadsNumber(a, digits, n, columns, rows);
    CallsDoNotMatter(a, digits, [';' as byte] + [c], columns, rows);
    OneByte(d, ';' as byte, columns, rows);
    CallsDoNotMatter(d, [';' as byte], [c], columns, rows);
    OneByte(d.(mode := Semicolon), c, columns, rows);
  }
}
