/** CPropertiesFile on its character buffers and its property array, proved against Properties. */
module PropertiesFile {
  import opened CStrings
  import opened Properties

  const MAX_PROPERTY_NAME_LENGTH: nat := 100
  const MAX_PROPERTY_VALUE_LENGTH: nat := 500

  lemma {:induction false} TrimBack(s: string, n: nat)
    requires 0 < n <= |s| && forall i | n <= i < |s| :: IsBlank(s[i])
    ensures Trim(s) == Trim(s[..n])
    decreases |s|
  {
    if n < |s| {
      TrimBack(s[..|s| - 1], n);
      assert s[..|s| - 1][..n] == s[..n];
    } else {
      assert s[..n] == s;
    }
  }

  /** At least one character, and no more than the buffer of Load holds. */
  type Bytes = s: string | 0 < |s| <= 500 witness "#"

  /** A result of FileRead other than 0: bytes, or FS_ERROR.  The first 0 ends the reading. */
  datatype Read = Data(bytes: Bytes) | FsError

  function Text(results: seq<Read>): string {
    if results == [] || results[0].FsError? then "" else results[0].bytes + Text(results[1..])
  }

  predicate Readable(results: seq<Read>) {
    forall i | 0 <= i < |results| :: results[i].Data?
  }

  lemma {:induction false} TextGrows(a: seq<Read>, b: Read)
    requires Readable(a) && b.Data?
    ensures Text(a + [b]) == Text(a) + b.bytes
    decreases |a|
  {
    if a == [] {
      assert a + [b] == [b] && [b][1..] == [];
    } else {
      assert (a + [b])[1..] == a[1..] + [b];
      TextGrows(a[1..], b);
    }
  }

  lemma {:induction false} TextOfConcat(a: seq<Read>, b: seq<Read>)
    requires Readable(a)
    ensures Text(a + b) == Text(a) + Text(b)
    decreases |a|
  {
    if a == [] {
      assert a + b == b;
    } else {
      assert (a + b)[1..] == a[1..] + b;
      TextOfConcat(a[1..], b);
    }
  }

  lemma {:induction false} StopConcat(p: Parser, a: string, b: string)
    ensures Stop(p, a + b) == if Feed(p, a).None? then Stop(p, a) else Stop(Feed(p, a).value, b)
    decreases |a|
  {
    if a == [] {
      assert a + b == b;
    } else {
      assert (a + b)[1..] == a[1..] + b;
      if Step(p, a[0]).Some? {
        StopConcat(Step(p, a[0]).value, a[1..], b);
      }
    }
  }

  lemma FeedFrom(p: Parser, text: string, i: nat)
    requires i < |text|
    ensures match Step(p, text[i])
            case None => Feed(p, text[i..]) == None && Stop(p, text[i..]) == p
            case Some(q) => Feed(p, text[i..]) == Feed(q, text[i + 1..]) && Stop(p, text[i..]) == Stop(q, text[i + 1..])
  {
    assert text[i..][0] == text[i] && text[i..][1..] == text[i + 1..];
  }

  /** What is behind a refused character does not matter. */
  lemma RefusedInTheMiddle(p: Parser, results: seq<Read>, k: nat, end: string)
    requires k <= |results| && Readable(results[..k]) && Feed(p, Text(results[..k])).None?
    ensures Feed(p, Text(results) + end).None?
    ensures Stop(p, Text(results) + end) == Stop(p, Text(results[..k]))
  {
    assert results == results[..k] + results[k..];
    TextOfConcat(results[..k], results[k..]);
    var rest := Text(results[k..]) + end;
    assert Text(results) + end == Text(results[..k]) + rest;
    FeedConcat(p, Text(results[..k]), rest);
    StopConcat(p, Text(results[..k]), rest);
  }

  /** What Load feeds to the parser: after the last buffer it ends the line, after a read error it does not. */
  function Fed(results: seq<Read>): string {
    Text(results) + if Readable(results) then "\n" else ""
  }

  lemma EndsAtError(results: seq<Read>, k: nat)
    requires k < |results| && Readable(results[..k]) && results[k].FsError?
    ensures !Readable(results) && Fed(results) == Text(results[..k])
  {
    assert results == results[..k] + results[k..];
    TextOfConcat(results[..k], results[k..]);
  }

  class PropertiesFile {
    var properties: seq<Pair>     // m_PropArray
    var getIndex: nat
    var state: State
    var index: nat
    const name: array<char>
    const value: array<char>
    var line: nat
    ghost var nameLength: nat

    ghost predicate Valid()
      reads this, name, value
    {
      && name.Length == MAX_PROPERTY_NAME_LENGTH && value.Length == MAX_PROPERTY_VALUE_LENGTH && name != value
      && (state == WaitForName || state == WaitForValue || state == IgnoreComment ==> index == 0)
      && (state == CopyName || state == WaitForValue || state == CopyValue ==> Terminated(name[..], nameLength))
      && (state == CopyName ==> index == nameLength <= MAX_NAME)
      && (state == CopyValue ==> 0 < index <= MAX_VALUE && Terminated(value[..], index))
    }

    /** The parser that the fields stand for. */
    ghost function View(): Parser
      requires Valid()
      reads this, name, value
    {
      Parser(state,
             if state == CopyName || state == WaitForValue || state == CopyValue then name[..nameLength] else "",
             if state == CopyValue then value[..index] else "", line, properties)
    }

    constructor ()
      ensures Valid() && View() == START && fresh(name) && fresh(value)
    {
      properties, getIndex, state, index, line := [], 0, WaitForName, 0, 1;
      name := new char[MAX_PROPERTY_NAME_LENGTH](i => '\0');
      value := new char[MAX_PROPERTY_VALUE_LENGTH](i => '\0');
      nameLength := 0;
    }

    method Lookup(n: string) returns (i: nat)
      ensures i <= |properties|
      ensures i < |properties| ==> properties[i].name == n
      ensures forall j | 0 <= j < i :: properties[j].name != n
    {
      i := 0;
      while i < |properties|
        invariant i <= |properties| && forall j | 0 <= j < i :: properties[j].name != n
      {
        if properties[i].name == n {
          return;
        }
        i := i + 1;
      }
    }

    method AddProperty(n: string, v: string)
      modifies this`properties
      ensures properties == Properties.AddProperty(old(properties), n, v)
    {
      var i := Lookup(n);
      if i < |properties| {
        return;
      }
      properties := properties + [Pair(n, v)];
    }

    /** A name that is set keeps its place and gets the new value; another one is added at the end. */
    method SetString(n: string, v: string)
      modifies this`properties
      ensures !IsSet(old(properties), n) ==> properties == old(properties) + [Pair(n, v)]
      ensures IsSet(old(properties), n) ==>
                exists i | 0 <= i < |old(properties)| ::
                  old(properties)[i].name == n && properties == old(properties)[i := Pair(n, v)]
    {
      var i := Lookup(n);
      if i == |properties| {
        AddProperty(n, v);
      } else {
        properties := properties[i := properties[i].(value := v)];
      }
    }

    method RemoveAll()
      modifies this`properties
      ensures properties == []
    {
      while |properties| > 0
        decreases |properties|
      {
        properties := properties[..|properties| - 1];
      }
    }

    method GetFirst() returns (more: bool)
      modifies this`getIndex
      ensures getIndex == 0 && (more <==> getIndex < |properties|)
    {
      getIndex := 0;
      more := getIndex < |properties|;
    }

    method GetNext() returns (more: bool)
      modifies this`getIndex
      ensures getIndex == old(getIndex) + 1 && (more <==> getIndex < |properties|)
    {
      getIndex := getIndex + 1;
      more := getIndex < |properties|;
    }

    /** Append a character to the name; false when there is no room for it and the NUL. */
    method CopyNameChar(c: char) returns (ok: bool)
      requires Valid() && IsNameChar(c)
      requires state == CopyName || state == WaitForName
      modifies this`index, this`state, this`nameLength, name
      ensures ok <==> old(index) < MAX_NAME
      ensures !ok ==> Valid() && View() == old(View())
      ensures ok ==> Valid() && View() == old(View()).(state := CopyName, name := old(View()).name + [c])
    {
      if index >= MAX_PROPERTY_NAME_LENGTH - 2 {
        return false;
      }
      ghost var n := index;
      name[index] := c;
      index := index + 1;
      name[index] := '\0';
      state := CopyName;
      nameLength := index;
      assert name[..index] == old(name[..])[..n] + [c];
      return true;
    }

    method CopyValueChar(c: char) returns (ok: bool)
      requires Valid() && c != '\0'
      requires state == CopyValue || state == WaitForValue
      modifies this`index, this`state, value
      ensures ok <==> old(index) < MAX_VALUE
      ensures !ok ==> Valid() && View() == old(View())
      ensures ok ==> Valid() && View() == old(View()).(state := CopyValue, value := old(View()).value + [c])
    {
      if index >= MAX_PROPERTY_VALUE_LENGTH - 2 {
        return false;
      }
      ghost var n := index;
      value[index] := c;
      index := index + 1;
      value[index] := '\0';
      state := CopyValue;
      assert value[..index] == old(value[..])[..n] + [c];
      return true;
    }

    /** Overwrite trailing blanks of the value with NULs. */
    method RemoveTrailingBlanks()
      requires Valid() && state == CopyValue
      modifies value
      ensures CString(value[..]) == Trim(old(value[..index]))
    {
      ghost var s := value[..index];
      var i := index - 1;
      while i > 0
        invariant 0 <= i < index
        invariant Terminated(value[..], i + 1) && value[..i + 1] == s[..i + 1]
        invariant forall j | i < j < index :: IsBlank(s[j])
      {
        if value[i] != ' ' && value[i] != '\t' {
          break;
        }
        assert value[i] == value[..i + 1][i];
        value[i] := '\0';
        i := i - 1;
        assert value[..i + 1] == s[..i + 1];
      }
      TerminatedString(value[..], i + 1);
      TrimBack(s, i + 1);
      assert s[..i + 1][i] == value[i];
    }

    /** The end of a line with a property. */
    method EndLine(v: string)
      requires name.Length == MAX_PROPERTY_NAME_LENGTH && value.Length == MAX_PROPERTY_VALUE_LENGTH && name != value
      requires Terminated(name[..], nameLength)
      modifies this`properties, this`state, this`index, this`line
      ensures Valid()
      ensures View() == Parser(WaitForName, "", "", old(line) + 1,
                               Properties.AddProperty(old(properties), name[..nameLength], v))
    {
      TerminatedString(name[..], nameLength);
      AddProperty(CString(name[..]), v);
      state := WaitForName;
      index := 0;
      line := line + 1;
    }

    method ParseWaitForName(c: char) returns (ok: bool)
      requires Valid() && state == WaitForName && c != '\r'
      modifies this, name, value
      ensures Valid()
      ensures ok <==> Step(old(View()), c).Some?
      ensures View() == if ok then Step(old(View()), c).value else old(View())
    {
      if c == ' ' || c == '\t' {
      } else if c == '\n' {
        line := line + 1;
      } else if c == '#' {
        state := IgnoreComment;
      } else if IsNameChar(c) {
        ok := CopyNameChar(c);
        return;
      } else {
        return false;
      }
      return true;
    }

    method ParseCopyName(c: char) returns (ok: bool)
      requires Valid() && state == CopyName && c != '\r'
      modifies this, name, value
      ensures Valid()
      ensures ok <==> Step(old(View()), c).Some?
      ensures View() == if ok then Step(old(View()), c).value else old(View())
    {
      if IsNameChar(c) {
        ok := CopyNameChar(c);
        return;
      } else if c == '=' || c == ' ' || c == '\t' {
        state := WaitForValue;
        index := 0;
      } else if c == '\n' {
        EndLine("");
      } else {
        return false;
      }
      return true;
    }

    method ParseWaitForValue(c: char) returns (ok: bool)
      requires Valid() && state == WaitForValue && c != '\r'
      modifies this, name, value
      ensures Valid()
      ensures ok <==> Step(old(View()), c).Some?
      ensures View() == if ok then Step(old(View()), c).value else old(View())
    {
      if c == ' ' || c == '\t' || c == '=' {
      } else if c == '\n' {
        EndLine("");
      } else if !(' ' < c <= '~') {
        return false;
      } else {
        ok := CopyValueChar(c);
        return;
      }
      return true;
    }

    method ParseCopyValue(c: char) returns (ok: bool)
      requires Valid() && state == CopyValue && c != '\r'
      modifies this, name, value
      ensures Valid()
      ensures ok <==> Step(old(View()), c).Some?
      ensures View() == if ok then Step(old(View()), c).value else old(View())
    {
      if c == '\n' {
        RemoveTrailingBlanks();
        EndLine(CString(value[..]));
      } else if !(' ' <= c <= '~') {
        return false;
      } else {
        ok := CopyValueChar(c);
        return;
      }
      return true;
    }

    method Parse(c: char) returns (ok: bool)
      requires Valid()
      modifies this, name, value
      ensures Valid()
      ensures ok <==> Step(old(View()), c).Some?
      ensures View() == if ok then Step(old(View()), c).value else old(View())
    {
      if c == '\r' {
        return true;
      }
      match state
      case WaitForName => ok := ParseWaitForName(c);
      case CopyName => ok := ParseCopyName(c);
      case WaitForValue => ok := ParseWaitForValue(c);
      case CopyValue => ok := ParseCopyValue(c);
      case IgnoreComment =>
        if c == '\n' {
          state := WaitForName;
          index := 0;
          line := line + 1;
        }
        ok := true;
    }

    /** Parse a buffer, as far as its characters are accepted. */
    method ParseAll(buffer: string) returns (ok: bool)
      requires Valid()
      modifies this, name, value
      ensures Valid()
      ensures ok <==> Feed(old(View()), buffer).Some?
      ensures View() == Stop(old(View()), buffer)
    {
      ghost var p := View();
      var i := 0;
      assert buffer[0..] == buffer;
      while i < |buffer|
        invariant i <= |buffer| && Valid()
        invariant Feed(p, buffer) == Feed(View(), buffer[i..])
        invariant Stop(p, buffer) == Stop(View(), buffer[i..])
      {
        FeedFrom(View(), buffer, i);
        var parsed := Parse(buffer[i]);
        if !parsed {
          return false;
        }
        i := i + 1;
      }
      return true;
    }

    /** Parse one buffer that was read. */
    method ParseBuffer(results: seq<Read>, k: nat, ghost p: Parser) returns (ok: bool)
      requires Valid() && k < |results| && results[k].Data? && Readable(results[..k])
      requires Feed(p, Text(results[..k])) == Some(View())
      modifies this, name, value
      ensures Valid()
      ensures if ok then Readable(results[..k + 1]) && Feed(p, Text(results[..k + 1])) == Some(View())
              else Feed(p, Fed(results)).None? && View() == Stop(p, Fed(results))
    {
      assert results[..k + 1] == results[..k] + [results[k]];
      TextGrows(results[..k], results[k]);
      ghost var q := View();
      ok := ParseAll(results[k].bytes);
      FeedConcat(p, Text(results[..k]), results[k].bytes);
      StopConcat(p, Text(results[..k]), results[k].bytes);
      FeedStops(q, results[k].bytes);
      if !ok {
        RefusedInTheMiddle(p, results, k + 1, if Readable(results) then "\n" else "");
      }
    }

    /** `found` is FileOpen's result.  The parser goes on in the state in which the last Load left it. */
    method Load(found: bool, results: seq<Read>) returns (ok: bool)
      requires Valid()
      modifies this, name, value
      ensures Valid()
      ensures ok <==> found && Readable(results) && Feed(Reset(old(View())), Fed(results)).Some?
      ensures View() == if found then Stop(Reset(old(View())), Fed(results)) else Reset(old(View()))
      ensures ok ==> LoadFrom(old(View()), Text(results)) == Some(properties)
    {
      RemoveAll();
      line := 1;
      if !found {
        return false;
      }
      ghost var p := View();
      var k := 0;
      assert results[..0] == [];
      while k < |results|
        invariant k <= |results| && Valid()
        invariant Readable(results[..k])
        invariant Feed(p, Text(results[..k])) == Some(View())
      {
        if results[k].FsError? {
          EndsAtError(results, k);
          FeedStops(p, Fed(results));
          return false;
        }
        var parsed := ParseBuffer(results, k, p);
        if !parsed {
          return false;
        }
        k := k + 1;
      }
      assert results[..k] == results;
      FeedConcat(p, Text(results), "\n");
      StopConcat(p, Text(results), "\n");
      ok := ParseAll("\n");
      FeedStops(p, Fed(results));
    }

    /** `created` and `closed` are the results of FileCreate and FileClose; the file has room for so many
        characters. */
    method Save(created: bool, room: nat, closed: bool) returns (ok: bool, written: string)
      requires Valid()
      modifies this`getIndex
      ensures ok <==> created && |Print(properties)| <= room && closed
      ensures ok ==> written == Print(properties)
      ensures written <= Print(properties) && |written| <= room
    {
      written := "";
      if !created {
        return false, "";
      }
      var more := GetFirst();
      assert properties[0..] == properties;
      while more
        invariant getIndex <= |properties| && (more <==> getIndex < |properties|)
        invariant Print(properties) == written + Print(properties[getIndex..]) && |written| <= room
        decreases |properties| - getIndex
      {
        var text := PrintPair(properties[getIndex]);
        assert properties[getIndex..][1..] == properties[getIndex + 1..];
        assert Print(properties) == written + text + Print(properties[getIndex + 1..]);
        if |written| + |text| > room {
          written := written + text[..room - |written|];
          return false, written;
        }
        written := written + text;
        more := GetNext();
      }
      assert properties[getIndex..] == [];
      ok := closed;
    }
  }
}
