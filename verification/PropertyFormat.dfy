/** The format of property files, character by character: what a line may look like, and what is refused. */
module PropertyFormat {
  import opened Properties

  predicate NameCharacter(c: char) {
    'A' <= c <= 'Z' || 'a' <= c <= 'z' || '0' <= c <= '9' || c == '_' || c == '-' || c == '.'
  }

  /** 1 to 98 letters, digits, underscores, hyphens and periods. */
  predicate WellFormedName(s: string) {
    1 <= |s| <= 98 && forall i | 0 <= i < |s| :: NameCharacter(s[i])
  }

  predicate SpacesOrTabs(s: string) {
    forall i | 0 <= i < |s| :: s[i] == ' ' || s[i] == '\t'
  }

  /** Spaces, tabs and equals signs. */
  predicate Separators(s: string) {
    forall i | 0 <= i < |s| :: s[i] == ' ' || s[i] == '\t' || s[i] == '='
  }

  predicate Spaces(s: string) {
    forall i | 0 <= i < |s| :: s[i] == ' '
  }

  /** A value without the spaces behind it. */
  predicate WellFormedValue(s: string) {
    s != "" ==> s[0] != ' ' && s[0] != '=' && s[|s| - 1] != ' ' && forall i | 0 <= i < |s| :: ' ' <= s[i] <= '~'
  }

  lemma {:induction false} CleanKeeps(s: string)
    requires '\r' !in s
    ensures Clean(s) == s
    decreases |s|
  {
    if s != "" {
      CleanKeeps(s[1..]);
    }
  }

  lemma {:induction false} DropsBlanks(a: string, s: string)
    requires SpacesOrTabs(a) && s != "" && s[0] != ' ' && s[0] != '\t'
    ensures DropBlanks(a + s) == s
    decreases |a|
  {
    if a == "" {
      assert a + s == s;
    } else {
      assert (a + s)[1..] == a[1..] + s;
      DropsBlanks(a[1..], s);
    }
  }

  lemma {:induction false} DropsSeparators(a: string, s: string)
    requires Separators(a) && (s != "" ==> s[0] != ' ' && s[0] != '\t' && s[0] != '=')
    ensures DropSeparators(a + s) == s
    decreases |a|
  {
    if a == "" {
      assert a + s == s;
    } else {
      assert (a + s)[1..] == a[1..] + s;
      DropsSeparators(a[1..], s);
    }
  }

  lemma {:induction false} NameIsTaken(a: string, s: string)
    requires forall i | 0 <= i < |a| :: NameCharacter(a[i])
    requires s != "" ==> s[0] == ' ' || s[0] == '\t' || s[0] == '='
    ensures NameLength(a + s) == |a|
    decreases |a|
  {
    if a == "" {
      assert a + s == s;
    } else {
      assert (a + s)[1..] == a[1..] + s;
      NameIsTaken(a[1..], s);
    }
  }

  lemma {:induction false} SpacesAreTrimmed(value: string, trail: string)
    requires WellFormedValue(value) && value != "" && Spaces(trail)
    ensures Trim(value + trail) == value
    decreases |trail|
  {
    var s := value + trail;
    if trail == "" {
      assert s == value;
    } else {
      var n := |trail| - 1;
      assert s[..|s| - 1] == value + trail[..n];
      SpacesAreTrimmed(value, trail[..n]);
    }
  }

  /** A line with a property: a name, separators and a value, with blanks in front and spaces behind. */
  ghost predicate IsLine(line: string, name: string, value: string) {
    exists indent: string, between: string, behind: string ::
      && SpacesOrTabs(indent) && Separators(between) && Spaces(behind)
      && WellFormedName(name) && WellFormedValue(value)
      && (value != "" ==> between != "" && |value| + |behind| <= 498)
      && (value == "" ==> behind == "")
      && line == indent + (name + (between + (value + behind)))
  }

  lemma EntryOfLine(indent: string, name: string, between: string, value: string, behind: string)
    requires SpacesOrTabs(indent) && Separators(between) && Spaces(behind)
    requires WellFormedName(name) && WellFormedValue(value)
    requires value != "" ==> between != "" && |value| + |behind| <= 498
    requires value == "" ==> behind == ""
    ensures ReadLine(indent + (name + (between + (value + behind)))) == Entry(Pair(name, value))
  {
    var v := value + behind;
    var r := between + v;
    var l := name + r;
    NothingOdd(indent, name, between, value, behind);
    CleanKeeps(indent + l);
    DropsBlanks(indent, l);
    RestOfLine(name, between, value, behind);
  }

  lemma NothingOdd(indent: string, name: string, between: string, value: string, behind: string)
    requires SpacesOrTabs(indent) && Separators(between) && Spaces(behind)
    requires WellFormedName(name) && WellFormedValue(value)
    ensures var line := indent + (name + (between + (value + behind)));
      '\r' !in line && '\n' !in line
  {
  }

  lemma RestOfLine(name: string, between: string, value: string, behind: string)
    requires Separators(between) && Spaces(behind) && WellFormedName(name) && WellFormedValue(value)
    requires value != "" ==> between != "" && |value| + |behind| <= 498
    requires value == "" ==> behind == ""
    ensures ReadClean(name + (between + (value + behind))) == Entry(Pair(name, value))
  {
    var v := value + behind;
    var r := between + v;
    var l := name + r;
    assert between != "" ==> r[0] == between[0];
    NameIsTaken(name, r);
    assert l[..|name|] == name;
    if r == "" {
      assert l == name;
    } else {
      assert l[|name|] == r[0] && l[|name| + 1..] == between[1..] + v;
      DropsSeparators(between[1..], v);
      if value != "" {
        SpacesAreTrimmed(value, behind);
      }
    }
  }

  /** Every such line is read: its property is added to those of the lines before, unless its name is set
      already. */
  lemma LineIsLoaded(text: string, line: string, name: string, value: string)
    requires IsLine(line, name, value)
    ensures Load(text + "\n" + line) ==
      match Load(text)
      case None => None
      case Some(table) =>
        if exists i :: 0 <= i < |table| && table[i].name == name then Some(table)
        else Some(table + [Pair(name, value)])
  {
    var indent: string, between: string, behind: string :|
      && SpacesOrTabs(indent) && Separators(between) && Spaces(behind)
      && WellFormedName(name) && WellFormedValue(value)
      && (value != "" ==> between != "" && |value| + |behind| <= 498)
      && (value == "" ==> behind == "")
      && line == indent + (name + (between + (value + behind)));
    EntryOfLine(indent, name, between, value, behind);
    NothingOdd(indent, name, between, value, behind);
    assert text + "\n" + line + "\n" == (text + "\n") + (line + "\n");
    FeedConcat(START, text + "\n", line + "\n");
    if Load(text).Some? {
      LoadEndsClean(START, text);
      FeedLine(Feed(START, text + "\n").value, line);
    }
  }

  /** So the empty text, and such a line alone. */
  lemma EmptyText()
    ensures Load("") == Some([])
  {
    assert "" + "\n" == "\n" && "\n"[1..] == "";
  }

  /** Lines of blanks, and lines with a number sign behind blanks, are passed over. */
  lemma LineIsSkipped(text: string, blanks: string, comment: string)
    requires SpacesOrTabs(blanks) && '\n' !in comment && '\r' !in comment && (comment != "" ==> comment[0] == '#')
    ensures Load(text + "\n" + (blanks + comment)) == Load(text)
  {
    var line := blanks + comment;
    CleanKeeps(line);
    if comment == "" {
      OnlyBlanksDrop(blanks);
      assert line == blanks;
    } else {
      DropsBlanks(blanks, comment);
    }
    assert text + "\n" + line + "\n" == (text + "\n") + (line + "\n");
    FeedConcat(START, text + "\n", line + "\n");
    if Load(text).Some? {
      LoadEndsClean(START, text);
      FeedLine(Feed(START, text + "\n").value, line);
    }
  }

  lemma {:induction false} OnlyBlanksDrop(a: string)
    requires SpacesOrTabs(a)
    ensures DropBlanks(a) == ""
    decreases |a|
  {
    if a != "" {
      OnlyBlanksDrop(a[1..]);
    }
  }

  /** Carriage returns are passed over anywhere. */
  lemma CarriageReturn(a: string, b: string)
    ensures Load(a + "\r" + b) == Load(a + b)
  {
    assert a + "\r" + b + "\n" == a + ("\r" + (b + "\n")) && a + b + "\n" == a + (b + "\n");
    FeedConcat(START, a, "\r" + (b + "\n"));
    FeedConcat(START, a, b + "\n");
    assert ("\r" + (b + "\n"))[1..] == b + "\n";
  }

  // ---------- what is refused ----------

  lemma FeedTwo(p: Parser, c: char)
    ensures Feed(p, [c] + "\n") == match Step(p, c) case None => None case Some(q) => Step(q, '\n')
  {
    assert ([c] + "\n")[1..] == "\n" && "\n"[1..] == "";
  }

  /** At the beginning of a line: a character of a name, a blank, a number sign, and the ends of lines. */
  lemma FirstCharacterIff(c: char)
    ensures Load([c]).Some? <==>
      NameCharacter(c) || c == ' ' || c == '\t' || c == '#' || c == '\n' || c == '\r'
  {
    FeedTwo(START, c);
  }

  /** Behind a name of `n` characters: another one if there are less than 98, a separator, and the ends of
      lines. */
  lemma AfterNameIff(name: string, c: char)
    requires WellFormedName(name)
    ensures Load(name + [c]).Some? <==>
      || (NameCharacter(c) && |name| < 98)
      || c == ' ' || c == '\t' || c == '=' || c == '\n' || c == '\r'
  {
    var p := Parser(CopyName, name, "", 1, []);
    FeedsName(name);
    assert name + [c] + "\n" == name + ([c] + "\n");
    FeedConcat(START, name, [c] + "\n");
    FeedTwo(p, c);
  }

  lemma FeedsName(name: string)
    requires WellFormedName(name)
    ensures Feed(START, name) == Some(Parser(CopyName, name, "", 1, []))
  {
    assert name == [name[0]] + name[1..];
    FeedName(Parser(CopyName, [name[0]], "", 1, []), name[1..]);
  }

  /** Behind the first separator: printable characters, tabs, and the ends of lines. */
  lemma FirstOfValueIff(name: string, c: char)
    requires WellFormedName(name)
    ensures Load(name + "=" + [c]).Some? <==> ' ' <= c <= '~' || c == '\t' || c == '\n' || c == '\r'
  {
    var p := Parser(WaitForValue, name, "", 1, []);
    FeedsName(name);
    assert name + "=" + [c] + "\n" == (name + "=") + ([c] + "\n");
    FeedConcat(START, name, "=");
    assert "="[1..] == "";
    FeedConcat(START, name + "=", [c] + "\n");
    FeedTwo(p, c);
  }

  /** Behind a value of `n` characters: another printable one if there are less than 498, and the ends of
      lines. */
  lemma AfterValueIff(name: string, value: string, c: char)
    requires WellFormedName(name) && 1 <= |value| <= 498 && value[0] != ' ' && value[0] != '='
    requires forall i | 0 <= i < |value| :: ' ' <= value[i] <= '~'
    ensures Load(name + "=" + value + [c]).Some? <==>
      (' ' <= c <= '~' && |value| < 498) || c == '\n' || c == '\r'
  {
    var p := Parser(CopyValue, name, value, 1, []);
    FeedsName(name);
    FeedConcat(START, name, "=");
    assert "="[1..] == "";
    assert value == [value[0]] + value[1..];
    FeedValue(Parser(CopyValue, name, [value[0]], 1, []), value[1..]);
    FeedConcat(START, name + "=", value);
    assert name + "=" + value + [c] + "\n" == (name + "=" + value) + ([c] + "\n");
    FeedConcat(START, name + "=" + value, [c] + "\n");
    FeedTwo(p, c);
  }

  // ---------- what is saved ----------

  /** Save writes one such line for each property, an equals sign between name and value. */
  lemma {:induction false} SavedLines(table: seq<Pair>)
    requires forall i | 0 <= i < |table| :: '\n' !in table[i].name && '\n' !in table[i].value
    ensures |Lines(Print(table))| == |table| + 1 && Lines(Print(table))[|table|] == ""
    ensures forall i | 0 <= i < |table| :: Lines(Print(table))[i] == table[i].name + "=" + table[i].value
    decreases |table|
  {
    if table != [] {
      var line := table[0].name + "=" + table[0].value;
      SavedLines(table[1..]);
      FirstLine(line, Print(table[1..]));
      assert Print(table) == line + ("\n" + Print(table[1..]));
      assert forall i | 0 < i < |table| :: table[i] == table[1..][i - 1];
    }
  }

  lemma {:induction false} FirstLine(line: string, rest: string)
    requires '\n' !in line
    ensures Lines(line + ("\n" + rest)) == [line] + Lines(rest)
    decreases |line|
  {
    var text := line + ("\n" + rest);
    if line == "" {
      assert text[1..] == rest;
    } else {
      assert text[0] == line[0] && text[1..] == line[1..] + ("\n" + rest);
      FirstLine(line[1..], rest);
      assert [line[0]] + line[1..] == line;
    }
  }
}
