/** Property files: the character-by-character parser, a line-by-line reference for it, and the printer. */
module Properties {

  datatype Option<T> = None | Some(value: T)

  datatype Pair = Pair(name: string, value: string)

  const MAX_NAME: nat := 98     // MAX_PROPERTY_NAME_LENGTH-2
  const MAX_VALUE: nat := 498   // MAX_PROPERTY_VALUE_LENTGH-2

  // ---------- the table ----------

  predicate IsSet(table: seq<Pair>, name: string) {
    exists i | 0 <= i < |table| :: table[i].name == name
  }

  /** A name that is set already keeps its value. */
  function AddProperty(table: seq<Pair>, name: string, value: string): seq<Pair> {
    if IsSet(table, name) then table else table + [Pair(name, value)]
  }

  // ---------- the parser ----------

  datatype State = WaitForName | CopyName | WaitForValue | CopyValue | IgnoreComment

  /** `name` and `value` are what has been copied of the current line. */
  datatype Parser = Parser(state: State, name: string, value: string, line: nat, table: seq<Pair>)

  const START := Parser(WaitForName, "", "", 1, [])

  predicate IsNameChar(c: char) {
    'A' <= c <= 'Z' || 'a' <= c <= 'z' || '0' <= c <= '9' || c == '_' || c == '-' || c == '.'
  }

  predicate IsBlank(c: char) {
    c == ' ' || c == '\t'
  }

  /** Without trailing blanks, but never without the first character. */
  function Trim(value: string): (r: string)
    ensures r <= value
  {
    if |value| > 1 && IsBlank(value[|value| - 1]) then Trim(value[..|value| - 1]) else value
  }

  function EndOfLine(p: Parser, table: seq<Pair>): Parser {
    Parser(WaitForName, "", "", p.line + 1, table)
  }

  /** Parse for one character; None when it returns FALSE. */
  function Step(p: Parser, c: char): Option<Parser> {
    if c == '\r' then Some(p) else
      match p.state
      case WaitForName =>
        if IsBlank(c) then Some(p)
        else if c == '\n' then Some(EndOfLine(p, p.table))
        else if c == '#' then Some(p.(state := IgnoreComment))
        else if IsNameChar(c) then Some(p.(state := CopyName, name := [c]))
        else None
      case CopyName =>
        if IsNameChar(c) then if |p.name| >= MAX_NAME then None else Some(p.(name := p.name + [c]))
        else if c == '=' || IsBlank(c) then Some(p.(state := WaitForValue))
        else if c == '\n' then Some(EndOfLine(p, AddProperty(p.table, p.name, "")))
        else None
      case WaitForValue =>
        if IsBlank(c) || c == '=' then Some(p)
        else if c == '\n' then Some(EndOfLine(p, AddProperty(p.table, p.name, "")))
        else if ' ' < c <= '~' then Some(p.(state := CopyValue, value := [c]))
        else None
      case CopyValue =>
        if c == '\n' then Some(EndOfLine(p, AddProperty(p.table, p.name, Trim(p.value))))
        else if !(' ' <= c <= '~') then None
        else if |p.value| >= MAX_VALUE then None
        else Some(p.(value := p.value + [c]))
      case IgnoreComment =>
        if c == '\n' then Some(EndOfLine(p, p.table)) else Some(p)
  }

  function Feed(p: Parser, text: string): Option<Parser>
    decreases |text|
  {
    if text == [] then Some(p) else
      match Step(p, text[0])
      case None => None
      case Some(q) => Feed(q, text[1..])
  }

  /** The parser after as much of the text as it accepts. */
  function Stop(p: Parser, text: string): Parser
    decreases |text|
  {
    if text == [] || Step(p, text[0]).None? then p else Stop(Step(p, text[0]).value, text[1..])
  }

  /** What Load makes of a file's text when the parser was left as `p`; the last line is ended for it. */
  function LoadFrom(p: Parser, text: string): Option<seq<Pair>> {
    match Feed(Reset(p), text + "\n")
    case None => None
    case Some(q) => Some(q.table)
  }

  /** Load empties the table and counts lines anew, and leaves the rest of the parser alone. */
  function Reset(p: Parser): Parser {
    p.(line := 1, table := [])
  }

  function Load(text: string): Option<seq<Pair>> {
    LoadFrom(START, text)
  }

  // ---------- the printer ----------

  function PrintPair(p: Pair): string {
    p.name + "=" + p.value + "\n"
  }

  function Print(table: seq<Pair>): string {
    if table == [] then "" else PrintPair(table[0]) + Print(table[1..])
  }

  // ---------- which tables a file can hold ----------

  predicate IsName(s: string) {
    0 < |s| <= MAX_NAME && forall i | 0 <= i < |s| :: IsNameChar(s[i])
  }

  predicate IsPartialValue(s: string) {
    && 0 < |s| <= MAX_VALUE && s[0] != ' ' && s[0] != '='
    && forall i | 0 <= i < |s| :: ' ' <= s[i] <= '~'
  }

  /** Printable, not beginning with a blank or '=', not ending with a blank, or empty. */
  predicate IsValue(s: string) {
    s == "" || (IsPartialValue(s) && s[|s| - 1] != ' ')
  }

  ghost predicate Canonical(table: seq<Pair>) {
    && (forall i | 0 <= i < |table| :: IsName(table[i].name) && IsValue(table[i].value))
    && (forall i, j | 0 <= i < j < |table| :: table[i].name != table[j].name)
  }

  // ---------- a successful Load makes a canonical table ----------

  ghost predicate Good(p: Parser) {
    && Canonical(p.table)
    && (p.state == CopyName || p.state == WaitForValue || p.state == CopyValue ==> IsName(p.name))
    && (p.state == CopyValue ==> IsPartialValue(p.value))
  }

  lemma {:induction false} TrimIsValue(s: string)
    requires IsPartialValue(s)
    ensures IsValue(Trim(s))
    decreases |s|
  {
    if |s| > 1 && IsBlank(s[|s| - 1]) {
      TrimIsValue(s[..|s| - 1]);
    }
  }

  lemma AddKeepsCanonical(table: seq<Pair>, name: string, value: string)
    requires Canonical(table) && IsName(name) && IsValue(value)
    ensures Canonical(AddProperty(table, name, value))
  {
  }

  lemma StepKeepsGood(p: Parser, c: char)
    requires Good(p) && Step(p, c).Some?
    ensures Good(Step(p, c).value)
  {
    if c == '\n' {
      match p.state
      case CopyName => AddKeepsCanonical(p.table, p.name, "");
      case WaitForValue => AddKeepsCanonical(p.table, p.name, "");
      case CopyValue =>
        TrimIsValue(p.value);
        AddKeepsCanonical(p.table, p.name, Trim(p.value));
      case _ =>
    }
  }

  lemma {:induction false} FeedKeepsGood(p: Parser, text: string)
    requires Good(p) && Feed(p, text).Some?
    ensures Good(Feed(p, text).value)
    decreases |text|
  {
    if text != [] {
      StepKeepsGood(p, text[0]);
      FeedKeepsGood(Step(p, text[0]).value, text[1..]);
    }
  }

  lemma LoadIsCanonical(text: string)
    requires Load(text).Some?
    ensures Canonical(Load(text).value)
  {
    FeedKeepsGood(START, text + "\n");
  }

  // ---------- loading what was printed ----------

  lemma {:induction false} FeedConcat(p: Parser, a: string, b: string)
    ensures Feed(p, a + b) == match Feed(p, a) case None => None case Some(q) => Feed(q, b)
    decreases |a|
  {
    if a == [] {
      assert a + b == b;
    } else {
      assert (a + b)[1..] == a[1..] + b;
      if Step(p, a[0]).Some? {
        FeedConcat(Step(p, a[0]).value, a[1..], b);
      }
    }
  }

  lemma {:induction false} FeedName(p: Parser, s: string)
    requires p.state == CopyName && |p.name| + |s| <= MAX_NAME && forall i | 0 <= i < |s| :: IsNameChar(s[i])
    ensures Feed(p, s) == Some(p.(name := p.name + s))
    decreases |s|
  {
    if s == [] {
      assert p.name + s == p.name;
    } else {
      var q := p.(name := p.name + [s[0]]);
      FeedName(q, s[1..]);
      assert q.name + s[1..] == p.name + s;
    }
  }

  lemma {:induction false} FeedValue(p: Parser, s: string)
    requires p.state == CopyValue && |p.value| + |s| <= MAX_VALUE && forall i | 0 <= i < |s| :: ' ' <= s[i] <= '~'
    ensures Feed(p, s) == Some(p.(value := p.value + s))
    decreases |s|
  {
    if s == [] {
      assert p.value + s == p.value;
    } else {
      var q := p.(value := p.value + [s[0]]);
      FeedValue(q, s[1..]);
      assert q.value + s[1..] == p.value + s;
    }
  }

  lemma FeedPair(p: Parser, pair: Pair)
    requires p.state == WaitForName && p.name == "" && p.value == ""
    requires IsName(pair.name) && IsValue(pair.value)
    ensures Feed(p, PrintPair(pair)) == Some(EndOfLine(p, AddProperty(p.table, pair.name, pair.value)))
  {
    var n, v := pair.name, pair.value;
    var p1 := p.(state := CopyName, name := [n[0]]);
    var p2 := p1.(name := n);
    var p3 := p2.(state := WaitForValue);
    assert n == [n[0]] + n[1..];
    assert Feed(p, n) == Some(p2) by {
      FeedName(p1, n[1..]);
    }
    assert Feed(p2, "=") == Some(p3) by {
      assert "="[1..] == "";
    }
    assert Feed(p3, v + "\n") == Some(EndOfLine(p, AddProperty(p.table, n, v))) by {
      if v == "" {
        assert v + "\n" == "\n" && "\n"[1..] == "";
      } else {
        var p4 := p3.(state := CopyValue, value := [v[0]]);
        assert v == [v[0]] + v[1..];
        FeedValue(p4, v[1..]);
        assert Feed(p3, v) == Some(p4.(value := v));
        FeedConcat(p3, v, "\n");
        assert "\n"[1..] == "";
      }
    }
    FeedConcat(p, n, "=");
    FeedConcat(p, n + "=", v + "\n");
    assert PrintPair(pair) == n + "=" + (v + "\n");
  }

  lemma {:induction false} FeedPrinted(p: Parser, table: seq<Pair>)
    requires p.state == WaitForName && p.name == "" && p.value == ""
    requires Canonical(p.table + table)
    ensures Feed(p, Print(table)) == Some(Parser(WaitForName, "", "", p.line + |table|, p.table + table))
    decreases |table|
  {
    if table == [] {
      assert p.table + table == p.table;
    } else {
      var all := p.table + table;
      assert all[|p.table|] == table[0];
      assert forall i | 0 <= i < |p.table| :: p.table[i] == all[i];
      FeedPair(p, table[0]);
      var q := EndOfLine(p, p.table + [table[0]]);
      assert q.table + table[1..] == all;
      FeedPrinted(q, table[1..]);
      FeedConcat(p, PrintPair(table[0]), Print(table[1..]));
    }
  }

  /** Exactly the canonical tables come back from a file: those that a Load made, and no others. */
  lemma LoadUndoesSaveIff(table: seq<Pair>)
    ensures Load(Print(table)) == Some(table) <==> Canonical(table)
  {
    if Canonical(table) {
      assert START.table + table == table;
      FeedPrinted(START, table);
      FeedConcat(START, Print(table), "\n");
      assert "\n"[1..] == "";
    }
    if Load(Print(table)) == Some(table) {
      LoadIsCanonical(Print(table));
    }
  }

  /** A table that was loaded from any file is the same after saving and loading it again. */
  lemma LoadSaveLoad(text: string)
    requires Load(text).Some?
    ensures Load(Print(Load(text).value)) == Load(text)
  {
    LoadIsCanonical(text);
    LoadUndoesSaveIff(Load(text).value);
  }

  // ---------- the error line ----------

  function Newlines(text: string): nat {
    if text == "" then 0 else Newlines(text[1..]) + (if text[0] == '\n' then 1 else 0)
  }

  lemma {:induction false} FeedStops(p: Parser, text: string)
    ensures Feed(p, text).Some? ==> Stop(p, text) == Feed(p, text).value
    decreases |text|
  {
    if text != [] && Step(p, text[0]).Some? {
      FeedStops(Step(p, text[0]).value, text[1..]);
    }
  }

  /** A successful Load leaves the parser ready for another one. */
  lemma LoadEndsClean(p: Parser, text: string)
    requires Feed(p, text + "\n").Some?
    ensures Reset(Feed(p, text + "\n").value) == START
  {
    FeedConcat(p, text, "\n");
    assert "\n"[1..] == "";
  }

  /** The parser's line is the number of the line that it reads. */
  lemma {:induction false} LineIsCounted(p: Parser, text: string)
    requires Feed(p, text).Some?
    ensures Feed(p, text).value.line == p.line + Newlines(text)
    decreases |text|
  {
    if text != [] {
      LineIsCounted(Step(p, text[0]).value, text[1..]);
    }
  }

  /** The parser refuses character `k` of the text. */
  ghost predicate Refuses(p: Parser, text: string, k: nat) {
    k < |text| && Feed(p, text[..k]).Some? && Step(Feed(p, text[..k]).value, text[k]).None?
  }

  lemma RefusesLater(p: Parser, text: string, k: nat)
    requires 0 < k < |text|
    ensures Refuses(p, text, k)
            <==> Step(p, text[0]).Some? && Refuses(Step(p, text[0]).value, text[1..], k - 1)
  {
    assert text[..k][0] == text[0] && text[..k][1..] == text[1..][..k - 1];
  }

  /** It stops at the character that it refuses, of which there is only one. */
  lemma {:induction false} StopsWhereRefused(p: Parser, text: string, k: nat)
    requires Refuses(p, text, k)
    ensures Feed(p, text).None? && Feed(p, text[..k]) == Some(Stop(p, text))
    ensures forall j: nat | Refuses(p, text, j) :: j == k
    decreases k
  {
    assert text[..0] == "";
    if k > 0 {
      RefusesLater(p, text, k);
      assert text[..k][0] == text[0] && text[..k][1..] == text[1..][..k - 1];
      StopsWhereRefused(Step(p, text[0]).value, text[1..], k - 1);
    }
    forall j: nat | 0 < j < |text| ensures Refuses(p, text, j) ==> j == k {
      RefusesLater(p, text, j);
    }
  }

  lemma {:induction false} SomethingIsRefused(p: Parser, text: string) returns (k: nat)
    requires Feed(p, text).None?
    ensures Refuses(p, text, k)
    decreases |text|
  {
    assert text[..0] == "";
    if Step(p, text[0]).None? {
      k := 0;
    } else {
      var j := SomethingIsRefused(Step(p, text[0]).value, text[1..]);
      k := j + 1;
      RefusesLater(p, text, k);
    }
  }

  /** When Load fails, GetErrorLine is the number of the line with the character that was refused. */
  lemma ErrorLine(p: Parser, text: string)
    requires Feed(p, text).None?
    ensures exists k: nat :: Refuses(p, text, k)
    ensures forall k: nat | Refuses(p, text, k) :: Stop(p, text).line == p.line + Newlines(text[..k])
  {
    var k := SomethingIsRefused(p, text);
    StopsWhereRefused(p, text, k);
    LineIsCounted(p, text[..k]);
  }

  // ---------- Load after a failed Load ----------

  /** The line that a text ends with. */
  function LineSoFar(text: string): string {
    if text == "" || text[|text| - 1] == '\n' then "" else LineSoFar(text[..|text| - 1]) + [text[|text| - 1]]
  }

  /** Nothing but blanks: a name may still begin. */
  predicate OnlyBlanks(s: string) {
    forall i | 0 <= i < |s| :: IsBlank(s[i]) || s[i] == '\r'
  }

  /** Between lines, and in comments, nothing has been copied. */
  predicate Tidy(p: Parser) {
    p.state == WaitForName || p.state == IgnoreComment ==> p.name == "" && p.value == ""
  }

  lemma FeedLast(p: Parser, text: string)
    requires text != "" && Feed(p, text).Some?
    ensures Feed(p, text[..|text| - 1]).Some?
    ensures Step(Feed(p, text[..|text| - 1]).value, text[|text| - 1]) == Feed(p, text)
  {
    var n := |text| - 1;
    assert text == text[..n] + [text[n]];
    FeedConcat(p, text[..n], [text[n]]);
    assert [text[n]][1..] == [];
  }

  /** The parser waits for a name just when nothing but blanks has come since the last newline. */
  lemma {:induction false} WaitsForNameIff(text: string, p: Parser)
    requires Feed(START, text) == Some(p)
    ensures p.state == WaitForName <==> OnlyBlanks(LineSoFar(text))
    ensures Tidy(p) && Good(p)
    decreases |text|
  {
    if text != "" {
      var n := |text| - 1;
      FeedLast(START, text);
      var q := Feed(START, text[..n]).value;
      WaitsForNameIff(text[..n], q);
      StepKeepsGood(q, text[n]);
      BlanksGoOn(LineSoFar(text[..n]), text[n]);
    }
  }

  lemma BlanksGoOn(s: string, c: char)
    ensures OnlyBlanks(s + [c]) <==> OnlyBlanks(s) && (IsBlank(c) || c == '\r')
  {
    assert (s + [c])[|s|] == c && forall i | 0 <= i < |s| :: (s + [c])[i] == s[i];
  }

  /** What is left of a line tells itself apart: the empty file, or a name after a comment. */
  lemma LeftoverShows(p: Parser)
    requires p.state != WaitForName
    ensures LoadFrom(p, "") != Load("") || LoadFrom(p, "a") != Load("a")
  {
    var q := Reset(p);
    assert "" + "\n" == "\n" && "\n"[1..] == "";
    assert "a" + "\n" == "a\n" && "a\n"[1..] == "\n";
    if p.state == IgnoreComment {
      assert Step(q, 'a') == Some(q);
      assert ['a'] == "a" && [] + [Pair("a", "")] == [Pair("a", "")];
      assert LoadFrom(p, "a") == Some([]) && Load("a") == Some([Pair("a", "")]);
    } else {
      assert Load("") == Some([]);
      assert LoadFrom(p, "").value != [];
    }
  }

  /** The next Load reads its file right, whatever is in there. */
  ghost predicate Harmless(p: Parser) {
    forall next :: LoadFrom(p, next) == Load(next)
  }

  /** A Load that stops after it has read `text`, because of a refused character or a read error, is followed
      by a Load that reads its file right if and only if nothing but blanks stands behind the last newline of
      `text`. */
  lemma NextLoadIsRightIff(text: string, p: Parser)
    requires Feed(START, text) == Some(p)
    ensures Harmless(p) <==> OnlyBlanks(LineSoFar(text))
  {
    WaitsForNameIff(text, p);
    if p.state == WaitForName {
      assert Reset(p) == START == Reset(START);
    } else {
      LeftoverShows(p);
    }
  }

  /** The newline that Load puts behind the text is never refused. */
  lemma RefusedInText(text: string, k: nat)
    ensures Refuses(START, text + "\n", k) <==> Refuses(START, text, k)
  {
    var all := text + "\n";
    if k < |text| {
      assert all[..k] == text[..k] && all[k] == text[k];
    } else if k == |text| {
      assert all[k] == '\n';
    }
  }

  /** After a failed Load the next one reads its file right if and only if the refused character stood where a
      name could begin. */
  lemma FailedLoadIsHarmlessIff(text: string, k: nat)
    requires Refuses(START, text, k)
    ensures Load(text).None? && forall j: nat | Refuses(START, text, j) :: j == k
    ensures Harmless(Stop(START, text + "\n")) <==> OnlyBlanks(LineSoFar(text[..k]))
  {
    RefusedInText(text, k);
    StopsWhereRefused(START, text, k);
    StopsWhereRefused(START, text + "\n", k);
    assert (text + "\n")[..k] == text[..k];
    NextLoadIsRightIff(text[..k], Stop(START, text + "\n"));
  }

  /** Every failed Load is one of these. */
  lemma FailedLoadRefuses(text: string) returns (k: nat)
    requires Load(text).None?
    ensures Refuses(START, text, k)
  {
    k := SomethingIsRefused(START, text + "\n");
    RefusedInText(text, k);
  }

  /** It does happen: the beginning of a name is put in front of the next file's first name. */
  lemma FailedLoadSpoilsTheNext()
    ensures Load("a?").None? && Load("b") == Some([Pair("b", "")])
    ensures LoadFrom(Stop(START, "a?" + "\n"), "b") == Some([Pair("ab", "")])
  {
    assert "a?" + "\n" == "a?\n" && "a?\n"[1..] == "?\n";
    assert Stop(START, "a?\n") == Parser(CopyName, "a", "", 1, []);
    assert "b" + "\n" == "b\n" && "b\n"[1..] == "\n" && "\n"[1..] == "";
    assert "a" + "b" == "ab" && ['b'] == "b";
    assert [] + [Pair("b", "")] == [Pair("b", "")];
    assert [] + [Pair("ab", "")] == [Pair("ab", "")];
  }

  // ---------- the reference: one line at a time ----------

  datatype Line = Bad | Skip | Entry(pair: Pair)

  function Clean(s: string): (r: string)
    ensures '\r' !in r && ('\n' !in s ==> '\n' !in r)
  {
    if s == "" then "" else if s[0] == '\r' then Clean(s[1..]) else [s[0]] + Clean(s[1..])
  }

  function DropBlanks(s: string): string {
    if s != "" && IsBlank(s[0]) then DropBlanks(s[1..]) else s
  }

  function DropSeparators(s: string): string {
    if s != "" && (IsBlank(s[0]) || s[0] == '=') then DropSeparators(s[1..]) else s
  }

  /** The length of the longest beginning that could be a name. */
  function NameLength(s: string): (n: nat)
    ensures n <= |s|
  {
    if s != "" && IsNameChar(s[0]) then 1 + NameLength(s[1..]) else 0
  }

  predicate Printable(s: string) {
    forall i | 0 <= i < |s| :: ' ' <= s[i] <= '~'
  }

  /** The value behind a name and one separator. */
  function ReadValue(name: string, s: string): Line {
    var v := DropSeparators(s);
    if v == "" then Entry(Pair(name, ""))
    else if |v| > MAX_VALUE || !Printable(v) then Bad
    else Entry(Pair(name, Trim(v)))
  }

  function ReadClean(l: string): Line {
    if l == "" || l[0] == '#' then Skip else
      var n := NameLength(l);
      if n == 0 || n > MAX_NAME then Bad
      else if n == |l| then Entry(Pair(l, ""))
      else if l[n] != '=' && !IsBlank(l[n]) then Bad
      else ReadValue(l[..n], l[n + 1..])
  }

  /** One line of a property file: blank, a comment, or a name, separators and a value. */
  function ReadLine(line: string): Line {
    ReadClean(DropBlanks(Clean(line)))
  }

  function ReadLines(table: seq<Pair>, lines: seq<string>): Option<seq<Pair>>
    decreases |lines|
  {
    if lines == [] then Some(table) else
      match ReadLine(lines[0])
      case Bad => None
      case Skip => ReadLines(table, lines[1..])
      case Entry(pair) => ReadLines(AddProperty(table, pair.name, pair.value), lines[1..])
  }

  /** The lines of a text, of which the last one need not be ended. */
  function Lines(text: string): (r: seq<string>)
    ensures r != [] && forall i | 0 <= i < |r| :: '\n' !in r[i]
    decreases |text|
  {
    if text == "" then [""] else
      var rest := Lines(text[1..]);
      if text[0] == '\n' then [""] + rest else [[text[0]] + rest[0]] + rest[1..]
  }

  // ---------- the parser is the reference ----------

  lemma {:induction false} CarriageReturnsDoNotMatter(p: Parser, s: string)
    ensures Feed(p, s) == Feed(p, Clean(s))
    decreases |s|
  {
    if s != "" {
      if s[0] == '\r' {
        CarriageReturnsDoNotMatter(p, s[1..]);
      } else if Step(p, s[0]).Some? {
        CarriageReturnsDoNotMatter(Step(p, s[0]).value, s[1..]);
      }
    }
  }

  lemma FeedOne(p: Parser, c: char, s: string)
    ensures Feed(p, [c] + s) == match Step(p, c) case None => None case Some(q) => Feed(q, s)
  {
    assert ([c] + s)[1..] == s;
  }

  lemma FirstAndRest(s: string, t: string)
    requires s != ""
    ensures s + t == [s[0]] + (s[1..] + t)
  {
  }

  lemma {:induction false} FeedBlanks(p: Parser, l: string)
    requires p.state == WaitForName
    ensures Feed(p, l + "\n") == Feed(p, DropBlanks(l) + "\n")
    decreases |l|
  {
    if l != "" && IsBlank(l[0]) {
      FirstAndRest(l, "\n");
      FeedOne(p, l[0], l[1..] + "\n");
      FeedBlanks(p, l[1..]);
    }
  }

  lemma {:induction false} FeedComment(p: Parser, l: string)
    requires p.state == IgnoreComment && '\n' !in l
    ensures Feed(p, l + "\n") == Some(EndOfLine(p, p.table))
    decreases |l|
  {
    if l == "" {
      assert "" + "\n" == "\n" && "\n"[1..] == "";
    } else {
      FirstAndRest(l, "\n");
      FeedOne(p, l[0], l[1..] + "\n");
      FeedComment(p, l[1..]);
    }
  }

  lemma {:induction false} FeedSeparators(p: Parser, l: string)
    requires p.state == WaitForValue
    ensures Feed(p, l + "\n") == Feed(p, DropSeparators(l) + "\n")
    decreases |l|
  {
    if l != "" && (IsBlank(l[0]) || l[0] == '=') {
      FirstAndRest(l, "\n");
      FeedOne(p, l[0], l[1..] + "\n");
      FeedSeparators(p, l[1..]);
    }
  }

  lemma {:induction false} FeedNameChars(p: Parser, l: string)
    requires p.state == CopyName && |p.name| <= MAX_NAME && '\r' !in l
    ensures Feed(p, l + "\n") ==
              if |p.name| + NameLength(l) > MAX_NAME then None
              else Feed(p.(name := p.name + l[..NameLength(l)]), l[NameLength(l)..] + "\n")
    decreases |l|
  {
    if l != "" && IsNameChar(l[0]) {
      FirstAndRest(l, "\n");
      FeedOne(p, l[0], l[1..] + "\n");
      if |p.name| < MAX_NAME {
        var q := p.(name := p.name + [l[0]]);
        FeedNameChars(q, l[1..]);
        var n := NameLength(l[1..]);
        assert q.name + l[1..][..n] == p.name + l[..n + 1];
        assert l[1..][n..] == l[n + 1..];
      }
    } else {
      assert p.name + l[..0] == p.name && l[0..] == l;
    }
  }

  lemma {:induction false} FeedValueChars(p: Parser, l: string)
    requires p.state == CopyValue && |p.value| <= MAX_VALUE && '\r' !in l && '\n' !in l
    ensures Feed(p, l + "\n") ==
              if |p.value| + |l| > MAX_VALUE || !Printable(l) then None
              else Some(EndOfLine(p, AddProperty(p.table, p.name, Trim(p.value + l))))
    decreases |l|
  {
    if l == "" {
      assert "" + "\n" == "\n" && "\n"[1..] == "" && p.value + l == p.value;
    } else {
      FirstAndRest(l, "\n");
      FeedOne(p, l[0], l[1..] + "\n");
      assert Printable(l) <==> ' ' <= l[0] <= '~' && Printable(l[1..]) by {
        assert forall i | 0 < i < |l| :: l[i] == l[1..][i - 1];
      }
      if Step(p, l[0]).Some? {
        var q := p.(value := p.value + [l[0]]);
        FeedValueChars(q, l[1..]);
        assert q.value + l[1..] == p.value + l;
      }
    }
  }

  /** The effect of a line on the parser. */
  function After(p: Parser, line: Line): Option<Parser> {
    match line
    case Bad => None
    case Skip => Some(EndOfLine(p, p.table))
    case Entry(pair) => Some(EndOfLine(p, AddProperty(p.table, pair.name, pair.value)))
  }

  lemma {:induction false} DropKeepsOut(s: string, c: char)
    requires c !in s
    ensures c !in DropBlanks(s) && c !in DropSeparators(s)
    decreases |s|
  {
    if s != "" {
      DropKeepsOut(s[1..], c);
    }
  }

  lemma {:induction false} DroppedSeparators(s: string)
    ensures DropSeparators(s) != "" ==> !IsBlank(DropSeparators(s)[0]) && DropSeparators(s)[0] != '='
    decreases |s|
  {
    if s != "" {
      DroppedSeparators(s[1..]);
    }
  }

  lemma FeedReadValue(p: Parser, l: string)
    requires p.state == WaitForValue && '\r' !in l && '\n' !in l
    ensures Feed(p, l + "\n") == After(p, ReadValue(p.name, l))
  {
    var v := DropSeparators(l);
    FeedSeparators(p, l);
    DropKeepsOut(l, '\r');
    DropKeepsOut(l, '\n');
    DroppedSeparators(l);
    if v == "" {
      assert "" + "\n" == "\n" && "\n"[1..] == "";
    } else {
      FirstAndRest(v, "\n");
      FeedOne(p, v[0], v[1..] + "\n");
      assert Printable(v) <==> ' ' <= v[0] <= '~' && Printable(v[1..]) by {
        assert forall i | 0 < i < |v| :: v[i] == v[1..][i - 1];
      }
      if Step(p, v[0]).Some? {
        var q := p.(state := CopyValue, value := [v[0]]);
        FeedValueChars(q, v[1..]);
        assert [v[0]] + v[1..] == v;
      }
    }
  }

  lemma FeedWholeName(p: Parser, l: string)
    requires p.state == WaitForName && p.name == "" && '\r' !in l && l != "" && IsNameChar(l[0])
    ensures NameLength(l) > 0
    ensures Feed(p, l + "\n") ==
              if NameLength(l) > MAX_NAME then None
              else Feed(p.(state := CopyName, name := l[..NameLength(l)]), l[NameLength(l)..] + "\n")
  {
    var n := NameLength(l);
    FirstAndRest(l, "\n");
    FeedOne(p, l[0], l[1..] + "\n");
    FeedNameChars(p.(state := CopyName, name := [l[0]]), l[1..]);
    assert l[1..][n - 1..] == l[n..] && [l[0]] + l[1..][..n - 1] == l[..n];
  }

  lemma FeedAfterName(p: Parser, l: string)
    requires p.state == CopyName && p.value == "" && '\r' !in l && '\n' !in l
    requires l != "" ==> !IsNameChar(l[0])
    ensures Feed(p, l + "\n") ==
              After(p, if l == "" then Entry(Pair(p.name, ""))
                       else if l[0] != '=' && !IsBlank(l[0]) then Bad else ReadValue(p.name, l[1..]))
  {
    if l == "" {
      assert l + "\n" == "\n" && "\n"[1..] == "";
    } else {
      FirstAndRest(l, "\n");
      FeedOne(p, l[0], l[1..] + "\n");
      FeedReadValue(p.(state := WaitForValue), l[1..]);
    }
  }

  lemma FeedReadName(p: Parser, l: string)
    requires p.state == WaitForName && p.name == "" && p.value == "" && '\r' !in l && '\n' !in l
    requires l != "" && IsNameChar(l[0])
    ensures Feed(p, l + "\n") == After(p, ReadClean(l))
  {
    var n := NameLength(l);
    FeedWholeName(p, l);
    NameEnds(l);
    if n <= MAX_NAME {
      FeedAfterName(p.(state := CopyName, name := l[..n]), l[n..]);
      if n == |l| {
        assert l[..n] == l;
      } else {
        assert l[n..][1..] == l[n + 1..];
      }
    }
  }

  lemma {:induction false} NameEnds(l: string)
    ensures NameLength(l) < |l| ==> !IsNameChar(l[NameLength(l)])
    decreases |l|
  {
    if l != "" && IsNameChar(l[0]) {
      NameEnds(l[1..]);
    }
  }

  lemma FeedLine(p: Parser, line: string)
    requires p.state == WaitForName && p.name == "" && p.value == "" && '\n' !in line
    ensures Feed(p, line + "\n") == After(p, ReadLine(line))
  {
    CleanEnds(line);
    CarriageReturnsDoNotMatter(p, line + "\n");
    var l := DropBlanks(Clean(line));
    FeedBlanks(p, Clean(line));
    DropKeepsOut(Clean(line), '\r');
    DropKeepsOut(Clean(line), '\n');
    DroppedBlanks(Clean(line));
    if l == "" {
      assert "" + "\n" == "\n" && "\n"[1..] == "";
    } else if IsNameChar(l[0]) {
      FeedReadName(p, l);
    } else {
      FirstAndRest(l, "\n");
      FeedOne(p, l[0], l[1..] + "\n");
      if l[0] == '#' {
        FeedComment(p.(state := IgnoreComment), l[1..]);
      }
    }
  }

  lemma {:induction false} DroppedBlanks(s: string)
    ensures DropBlanks(s) != "" ==> !IsBlank(DropBlanks(s)[0])
    decreases |s|
  {
    if s != "" {
      DroppedBlanks(s[1..]);
    }
  }

  lemma {:induction false} CleanEnds(s: string)
    ensures Clean(s + "\n") == Clean(s) + "\n"
    decreases |s|
  {
    if s == "" {
      assert "" + "\n" == "\n" && "\n"[1..] == "";
    } else {
      assert (s + "\n")[1..] == s[1..] + "\n";
      CleanEnds(s[1..]);
    }
  }

  lemma {:induction false} SplitFirstLine(text: string)
    ensures Lines(text)[0] <= text
    ensures |Lines(text)| == 1 ==> text == Lines(text)[0]
    ensures |Lines(text)| > 1 ==>
              && |Lines(text)[0]| < |text| && text[|Lines(text)[0]|] == '\n'
              && Lines(text)[1..] == Lines(text[|Lines(text)[0]| + 1..])
    decreases |text|
  {
    if text != "" && text[0] != '\n' {
      SplitFirstLine(text[1..]);
      var n := |Lines(text[1..])[0]|;
      assert n + 1 < |text| ==> text[1..][n + 1..] == text[n + 2..];
    }
  }

  lemma {:induction false} FeedIsReadLines(p: Parser, text: string)
    requires p.state == WaitForName && p.name == "" && p.value == ""
    ensures match Feed(p, text + "\n")
            case None => ReadLines(p.table, Lines(text)) == None
            case Some(q) => ReadLines(p.table, Lines(text)) == Some(q.table)
    decreases |text|
  {
    var lines := Lines(text);
    var first := lines[0];
    SplitFirstLine(text);
    FeedLine(p, first);
    if |lines| == 1 {
      assert lines[1..] == [];
    } else {
      var rest := text[|first| + 1..];
      assert text + "\n" == (first + "\n") + (rest + "\n");
      FeedConcat(p, first + "\n", rest + "\n");
      if After(p, ReadLine(first)).Some? {
        FeedIsReadLines(After(p, ReadLine(first)).value, rest);
      }
    }
  }

  /** For every text: the character automaton accepts it, and makes the same table, just as when it is read
      line by line. */
  lemma LoadIsReadLines(text: string)
    ensures Load(text) == ReadLines([], Lines(text))
  {
    FeedIsReadLines(START, text);
  }
}
