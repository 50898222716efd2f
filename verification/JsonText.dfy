/** Pieces of JSON text: indentation, and strings with their escapes. */
module JsonText {
  import opened Wrappers
  import opened Bytes

  // ----- indentation -----

  function Spaces(n: int): string {
    if n <= 0 then "" else Spaces(n - 1) + " "
  }

  /** n blanks, none if n is negative. */
  predicate Blanks(s: string, n: int) {
    |s| == (if n > 0 then n else 0) && forall i :: 0 <= i < |s| ==> s[i] == ' '
  }

  lemma {:induction false} SpacesAre(n: int)
    ensures Blanks(Spaces(n), n)
  {
    if n > 0 {
      SpacesAre(n - 1);
    }
  }

  /** The text with a tag behind `n` blanks; no tag is none. */
  function Indented(str: string, tag: Option<string>, n: int): string {
    str + Spaces(n) + if tag.Some? then tag.value else ""
  }

  method Indent(str: string, tag: Option<string>, indent: int) returns (s: string)
    ensures s == Indented(str, tag, indent)
    ensures exists blanks :: Blanks(blanks, indent) && s == str + blanks + tag.GetOr("")
  {
    s := str;
    var i := 0;
    while i < indent
      invariant 0 <= i && (i > 0 ==> i <= indent) && s == str + Spaces(i)
      decreases indent - i
    {
      s := s + " ";
      i := i + 1;
    }
    SpacesAre(indent);
    assert Spaces(i) == Spaces(indent) && s + "" == s;
    if tag.Some? {
      s := s + tag.value;
    }
  }

  // ----- escapes -----

  /** The letter that stands for a character behind a backslash. */
  function EscapeLetter(c: char): Option<char> {
    if c == '\\' || c == '\"' then Some(c)
    else if c == '\n' then Some('n')
    else if c == '\t' then Some('t')
    else if c == '\r' then Some('r')
    else None
  }

  function EscapedChar(c: char): string {
    if EscapeLetter(c).Some? then ['\\', EscapeLetter(c).value] else [c]
  }

  function Escaped(s: string): string {
    if s == "" then "" else EscapedChar(s[0]) + Escaped(s[1..])
  }

  lemma {:induction false} EscapedConcat(a: string, b: string)
    ensures Escaped(a + b) == Escaped(a) + Escaped(b)
  {
    if a == "" {
      assert a + b == b;
    } else {
      assert (a + b)[1..] == a[1..] + b;
      EscapedConcat(a[1..], b);
    }
  }

  lemma {:induction false} EscapedLast(s: string, i: nat)
    requires i < |s|
    ensures Escaped(s[..i + 1]) == Escaped(s[..i]) + EscapedChar(s[i])
    ensures |Escaped(s[..i + 1])| <= |Escaped(s)|
  {
    assert s[..i + 1] == s[..i] + [s[i]] && [s[i]][1..] == "";
    assert Escaped([s[i]]) == EscapedChar(s[i]) + Escaped("") == EscapedChar(s[i]);
    EscapedConcat(s[..i], [s[i]]);
    assert s == s[..i + 1] + s[i + 1..];
    EscapedConcat(s[..i + 1], s[i + 1..]);
  }

  /** The length of the escaped text, counted first, and then the text itself, written into a buffer of that length. */
  method EscapeString(str: string) returns (s: string)
    ensures s == Escaped(str)
  {
    var len := 0;
    for i := 0 to |str|
      invariant len == |Escaped(str[..i])|
    {
      EscapedLast(str, i);
      if EscapeLetter(str[i]).Some? {
        len := len + 1;
      }
      len := len + 1;
    }
    assert str[..|str|] == str;
    var buf := new char[len];
    var idx := 0;
    for i := 0 to |str|
      invariant idx <= len && buf[..idx] == Escaped(str[..i])
    {
      EscapedLast(str, i);
      ghost var before := buf[..idx];
      if EscapeLetter(str[i]).Some? {
        buf[idx] := '\\';
        idx := idx + 1;
        buf[idx] := EscapeLetter(str[i]).value;
      } else {
        buf[idx] := str[i];
      }
      idx := idx + 1;
      assert buf[..idx] == before + EscapedChar(str[i]);
    }
    s := buf[..];
  }

  /**
   Reading a JSON string behind its opening quote, with the escapes above: what it says, and the text behind it.
   Newlines, tabs and carriage returns have to be escaped in it.
   */
  function ReadString(text: string): Option<(string, string)> {
    if text == "" || text[0] == '\n' || text[0] == '\t' || text[0] == '\r' then None
    else if text[0] == '\"' then Some(("", text[1..]))
    else if text[0] == '\\' then
      if |text| == 1 || Unescape(text[1]).None? then None
      else
        var rest := ReadString(text[2..]);
        if rest.None? then None else Some(([Unescape(text[1]).value] + rest.value.0, rest.value.1))
    else
      var rest := ReadString(text[1..]);
      if rest.None? then None else Some(([text[0]] + rest.value.0, rest.value.1))
  }

  function Unescape(c: char): Option<char> {
    if c == '\\' || c == '\"' then Some(c)
    else if c == 'n' then Some('\n')
    else if c == 't' then Some('\t')
    else if c == 'r' then Some('\r')
    else None
  }

  /** An escaped text between quotes is read back as it was, and ends where the writer ended it. */
  lemma {:induction false} ReadEscaped(s: string, rest: string)
    ensures ReadString(Escaped(s) + "\"" + rest) == Some((s, rest))
  {
    var text := Escaped(s) + "\"" + rest;
    if s == "" {
      assert text[1..] == rest;
    } else {
      var e := EscapedChar(s[0]);
      var tail := Escaped(s[1..]) + "\"" + rest;
      assert text == e + tail;
      assert text[|e|..] == tail;
      assert [s[0]] + s[1..] == s;
      ReadEscaped(s[1..], rest);
    }
  }

  lemma {:induction false} ReadShortens(text: string)
    ensures ReadString(text).Some? ==> |ReadString(text).value.0| + |ReadString(text).value.1| < |text|
  {
    if text != "" && text[0] != '\"' {
      ReadShortens(text[1..]);
      if |text| > 1 {
        ReadShortens(text[2..]);
      }
    }
  }

  /**
   An escaped text has a control character exactly when the text has one that is not escaped: one other than newline,
   tab and carriage return.
   */
  lemma {:induction false} ControlsEscaped(s: string)
    ensures forall c :: c as int < 32 ==>
              (c in Escaped(s) <==> c in s && c as int != 10 && c as int != 9 && c as int != 13)
  {
    if s != "" {
      ControlsEscaped(s[1..]);
      forall c | c as int < 32
        ensures c in Escaped(s) <==> c in s && c as int != 10 && c as int != 9 && c as int != 13
      {
        assert c in Escaped(s) <==> c in EscapedChar(s[0]) || c in Escaped(s[1..]);
        assert c in s <==> c == s[0] || c in s[1..];
      }
    }
  }

  // ----- keys -----

  /** A key without its terminator. */
  function KeyText(k: Key): (s: string)
    ensures |s| == |k| - 1 && forall i | 0 <= i < |s| :: s[i] == k[i] as char
  {
    seq(|k| - 1, i requires 0 <= i < |k| - 1 => k[i] as char)
  }

  /** A key in quotes says which key it is. */
  lemma {:induction false} KeyReadBack(k: Key, l: Key, after: string, after': string)
    requires Escaped(KeyText(k)) + "\"" + after == Escaped(KeyText(l)) + "\"" + after'
    ensures k == l && after == after'
  {
    ReadEscaped(KeyText(k), after);
    ReadEscaped(KeyText(l), after');
    var s, t := KeyText(k), KeyText(l);
    assert forall i | 0 <= i < |s| :: k[i] == s[i] as int && l[i] == t[i] as int;
  }
}
