/** Lines of a configuration file: trimming, and what a line says. */
module IniText {

  /** isspace in the C locale. */
  predicate IsSpace(c: char) {
    c == ' ' || c == '\t' || c == '\n' || c == '\r' || c == 11 as char || c == 12 as char
  }

  /** Blank, and tab, newline, vertical tab, form feed and carriage return. */
  lemma {:induction false} SpacesExact(c: char)
    ensures IsSpace(c) <==> c as int == 32 || 9 <= c as int <= 13
  {
  }

  function TrimLeft(s: string): string {
    if s != [] && IsSpace(s[0]) then TrimLeft(s[1..]) else s
  }

  function TrimRight(s: string): string {
    if s != [] && IsSpace(s[|s| - 1]) then TrimRight(s[..|s| - 1]) else s
  }

  function Trim(s: string): string {
    TrimRight(TrimLeft(s))
  }

  /** Nothing to trim. */
  predicate Trimmed(s: string) {
    s != [] ==> !IsSpace(s[0]) && !IsSpace(s[|s| - 1])
  }

  predicate AllSpace(s: string) {
    forall i | 0 <= i < |s| :: IsSpace(s[i])
  }

  lemma {:induction false} TrimLeftSplits(s: string) returns (a: string)
    ensures AllSpace(a) && s == a + TrimLeft(s)
    ensures TrimLeft(s) != [] ==> !IsSpace(TrimLeft(s)[0])
  {
    a := [];
    if s != [] && IsSpace(s[0]) {
      a := TrimLeftSplits(s[1..]);
      a := MoreLeft(s, a, TrimLeft(s[1..]));
    }
  }

  lemma {:induction false} MoreLeft(s: string, a: string, t: string) returns (c: string)
    requires s != [] && IsSpace(s[0]) && AllSpace(a) && s[1..] == a + t
    ensures AllSpace(c) && s == c + t
  {
    hide IsSpace;
    c := [s[0]] + a;
    assert s == [s[0]] + s[1..];
  }

  lemma {:induction false} TrimRightSplits(s: string) returns (b: string)
    ensures AllSpace(b) && s == TrimRight(s) + b
    ensures TrimRight(s) != [] ==> !IsSpace(TrimRight(s)[|TrimRight(s)| - 1])
  {
    b := [];
    if s != [] && IsSpace(s[|s| - 1]) {
      b := TrimRightSplits(s[..|s| - 1]);
      b := MoreRight(s, TrimRight(s[..|s| - 1]), b);
    }
  }

  lemma {:induction false} MoreRight(s: string, t: string, b: string) returns (c: string)
    requires s != [] && IsSpace(s[|s| - 1]) && AllSpace(b) && s[..|s| - 1] == t + b
    ensures AllSpace(c) && s == t + c
  {
    hide IsSpace;
    c := b + [s[|s| - 1]];
    assert s == s[..|s| - 1] + [s[|s| - 1]];
  }

  /** Trimming takes white space off both ends, and all of it. */
  lemma {:induction false} TrimSplits(s: string) returns (a: string, b: string)
    ensures AllSpace(a) && AllSpace(b) && s == a + Trim(s) + b && Trimmed(Trim(s))
  {
    a := TrimLeftSplits(s);
    b := TrimRightSplits(TrimLeft(s));
    assert Trim(s) != [] ==> Trim(s)[0] == TrimLeft(s)[0];
  }

  lemma {:induction false} TrimLeftSpaces(a: string, s: string)
    requires AllSpace(a) && (s != [] ==> !IsSpace(s[0]))
    ensures TrimLeft(a + s) == s
  {
    if a == [] {
      assert a + s == s;
    } else {
      assert (a + s)[1..] == a[1..] + s;
      TrimLeftSpaces(a[1..], s);
    }
  }

  lemma {:induction false} TrimRightSpaces(s: string, b: string)
    requires AllSpace(b) && (s != [] ==> !IsSpace(s[|s| - 1]))
    ensures TrimRight(s + b) == s
  {
    if b == [] {
      assert s + b == s;
    } else {
      assert (s + b)[..|s + b| - 1] == s + b[..|b| - 1];
      TrimRightSpaces(s, b[..|b| - 1]);
    }
  }

  /** The only trimmed string that white space can surround to give this one. */
  lemma {:induction false} TrimOf(a: string, s: string, b: string)
    requires AllSpace(a) && AllSpace(b) && Trimmed(s)
    ensures Trim(a + s + b) == s
  {
    if s == [] {
      assert a + s + b == (a + b) + [];
      TrimLeftSpaces(a + b, []);
    } else {
      assert a + s + b == a + (s + b);
      TrimLeftSpaces(a, s + b);
      TrimRightSpaces(s, b);
    }
  }

  /** A buffer that holds text ended by a zero. */
  ghost predicate Holds(buf: seq<char>, i: nat, s: string) {
    && i + |s| < |buf| && buf[i..i + |s|] == s && buf[i + |s|] == '\0'
    && forall j | 0 <= j < |s| :: s[j] != '\0'
  }

  lemma {:induction false} HoldsAt(buf: seq<char>, i: nat, s: string)
    requires Holds(buf, i, s)
    ensures forall j | i <= j < i + |s| :: buf[j] == s[j - i] && buf[j] != '\0'
  {
    assert forall j | i <= j < i + |s| :: buf[j] == buf[i..i + |s|][j - i];
  }

  /** Past leading white space. */
  method SkipSpace(buf: array<char>, from: nat, ghost s: string) returns (start: nat)
    requires Holds(buf[..], from, s)
    ensures from <= start <= from + |s| && AllSpace(s[..start - from])
    ensures start < from + |s| ==> !IsSpace(s[start - from])
  {
    HoldsAt(buf[..], from, s);
    start := from;
    while IsSpace(buf[start])
      invariant from <= start <= from + |s| && AllSpace(s[..start - from])
      decreases from + |s| - start
    {
      assert s[..start + 1 - from] == s[..start - from] + [s[start - from]];
      start := start + 1;
    }
  }

  /** The last character before trailing white space; `t` starts with a character that is kept. */
  method LastKept(buf: array<char>, start: nat, ghost t: string) returns (end: nat)
    requires Holds(buf[..], start, t) && t != [] && !IsSpace(t[0])
    ensures start <= end < start + |t| && !IsSpace(t[end - start]) && AllSpace(t[end + 1 - start..])
  {
    HoldsAt(buf[..], start, t);
    end := start;
    while buf[end + 1] != '\0'
      invariant start <= end < start + |t|
      decreases start + |t| - end
    {
      end := end + 1;
    }
    while end > start && IsSpace(buf[end])
      invariant start <= end < start + |t| && AllSpace(t[end + 1 - start..])
    {
      assert t[end - start..] == [t[end - start]] + t[end + 1 - start..];
      end := end - 1;
    }
  }

  lemma {:induction false} HoldsSuffix(buf: seq<char>, from: nat, s: string, k: nat)
    requires Holds(buf, from, s) && k <= |s|
    ensures Holds(buf, from + k, s[k..])
  {
    assert buf[from + k..from + |s|] == buf[from..from + |s|][k..];
  }

  lemma {:induction false} HoldsCut(buf: seq<char>, start: nat, t: string, k: nat)
    requires Holds(buf, start, t) && k <= |t|
    ensures Holds(buf[start + k := '\0'], start, t[..k])
  {
    var cut := buf[start + k := '\0'];
    assert cut[start..start + k] == buf[start..start + |t|][..k];
  }

  /** Trim in place: move past leading white space and write the new end; the text from `start` on is trimmed. */
  method TrimBuffer(buf: array<char>, from: nat, ghost s: string) returns (start: nat)
    requires Holds(buf[..], from, s)
    modifies buf
    ensures from <= start && Holds(buf[..], start, Trim(s))
  {
    hide Trim;
    start := SkipSpace(buf, from, s);
    ghost var k := start - from;
    ghost var t := s[k..];
    HoldsSuffix(buf[..], from, s, k);
    assert s == s[..k] + t + [];
    if buf[start] == '\0' {
      TrimOf(s[..k], [], []);
      return;
    }
    var end := LastKept(buf, start, t);
    ghost var m := end + 1 - start;
    HoldsCut(buf[..], start, t, m);
    assert s == s[..k] + t[..m] + t[m..];
    TrimOf(s[..k], t[..m], t[m..]);
    buf[end + 1] := '\0';
  }

  // ----- what a line says -----

  function IndexOf(s: string, c: char): (i: nat)
    ensures i <= |s| && c !in s[..i] && (forall j | 0 <= j < i :: s[j] != c) && (i < |s| ==> s[i] == c)
  {
    if s == [] || s[0] == c then 0 else
      assert s == [s[0]] + s[1..];
      1 + IndexOf(s[1..], c)
  }

  datatype Says =
    | Blank                              // white space only
    | Comment                            // from # or ;
    | Header(text: string)               // from [ to the first ], brackets included
    | Pair(key: string, value: string)   // around the first =
    | Other

  function Reading(line: string): Says {
    var t := Trim(line);
    if t == [] then Blank
    else if t[0] == '#' || t[0] == ';' then Comment
    else if t[0] == '[' then
      var i := IndexOf(t, ']');
      Header(if i < |t| then t[..i + 1] else t)
    else
      var i := IndexOf(t, '=');
      if i < |t| then Pair(Trim(t[..i]), Trim(t[i + 1..])) else Other
  }
}
