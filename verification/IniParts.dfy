/** What a line says when more is put around it, and what parts of a new line or header say. */
module IniParts {
  import opened IniText
  import opened IniGet
  import opened IniEdit
  import opened IniFile

  // ----- what lines say, character by character -----

  /** Blanks, tabs, newlines, vertical tabs, form feeds and carriage returns. */
  predicate White(s: string) {
    forall i :: 0 <= i < |s| ==> s[i] as int == 32 || 9 <= s[i] as int <= 13
  }

  /** Not empty, and no white space at either end. */
  predicate Solid(s: string) {
    s != "" && !White(s[..1]) && !White(s[|s| - 1..])
  }

  lemma {:induction false} WhiteIsSpace(s: string)
    ensures White(s) <==> AllSpace(s)
    ensures Trimmed(s) <==> s == "" || Solid(s)
  {
    forall i | 0 <= i < |s| ensures IsSpace(s[i]) <==> s[i] as int == 32 || 9 <= s[i] as int <= 13 {
      SpacesExact(s[i]);
    }
    if s != "" {
      assert s[..1][0] == s[0] && s[|s| - 1..][0] == s[|s| - 1];
    }
  }

  /** Nothing but white space. */
  lemma {:induction false} ReadsBlank(line: string)
    ensures Reading(line) == Blank <==> White(line)
  {
    WhiteIsSpace(line);
    if AllSpace(line) {
      TrimOf(line, "", "");
      assert line + "" + "" == line;
    }
    if Trim(line) == "" {
      BlankSpaces(line);
    }
  }

  /** From a hash or a semicolon behind white space. */
  lemma {:induction false} ReadsComment(a: string, text: string)
    requires White(a) && text != "" && (text[0] == '#' || text[0] == ';')
    ensures Reading(a + text) == Comment
  {
    WhiteIsSpace(a);
    SpacesBefore(a, text);
    FirstStays(text);
  }

  /** What starts with a character that is no white space still starts with it when trimmed. */
  lemma {:induction false} FirstStays(text: string)
    requires text != "" && !IsSpace(text[0])
    ensures Trim(text) != "" && Trim(text)[0] == text[0]
  {
    assert TrimLeft(text) == text;
    RightKeeps(text);
  }

  lemma {:induction false} RightKeeps(s: string)
    requires s != "" && !IsSpace(s[0])
    ensures TrimRight(s) != "" && TrimRight(s)[0] == s[0]
  {
    if IsSpace(s[|s| - 1]) {
      RightKeeps(s[..|s| - 1]);
    }
  }

  /** A section in brackets behind white space, whatever stands behind the bracket. */
  lemma {:induction false} ReadsHeader(a: string, section: string, rest: string)
    requires White(a) && ']' !in section
    ensures Reading(a + ("[" + section + "]" + rest)) == Header("[" + section + "]")
  {
    var h := "[" + section + "]";
    WhiteIsSpace(a);
    SpacesBefore(a, h + rest);
    HeaderTrimmed(section);
    assert h[|h| - 1] == ']' && h[..|h|] == h;
    HeaderGrows(h, h, rest);
  }

  /** A key and a value with white space around them and around the equals sign. */
  lemma {:induction false} ReadsPair(a: string, key: string, b: string, c: string, value: string, d: string)
    requires White(a) && White(b) && White(c) && White(d) && (key == "" || Solid(key)) && (value == "" || Solid(value))
    requires '=' !in key && (key != "" ==> key[0] != '#' && key[0] != ';' && key[0] != '[')
    ensures Reading(a + key + b + "=" + c + value + d) == Pair(key, value)
  {
    WhiteIsSpace(a);
    WhiteIsSpace(b);
    WhiteIsSpace(c);
    WhiteIsSpace(d);
    WhiteIsSpace(key);
    WhiteIsSpace(value);
    hide White, Solid;
    NoSignInSpaces(b);
    SpacedPair(a, key, b, c, value, d);
  }

  lemma {:induction false} SpacedPair(a: string, key: string, b: string, c: string, value: string, d: string)
    requires AllSpace(a) && AllSpace(b) && AllSpace(c) && AllSpace(d) && Trimmed(key) && Trimmed(value)
    requires '=' !in key && '=' !in b && (key != "" ==> key[0] != '#' && key[0] != ';' && key[0] != '[')
    ensures Reading(a + key + b + "=" + c + value + d) == Pair(key, value)
  {
    var before, l := SpacedKey(a, key, b);
    var r, after := SpacedValue(c, value, d);
    hide Trim, Reading, IsSpace;
    Around(a + key + b, before, l, c, value, d, r, after);
    TrimCore(before, l, r, after);
    ReadingPair(before + (l + "=" + r) + after, key, value, l, r);
  }

  lemma {:induction false} TrimCore(before: string, l: string, r: string, after: string)
    requires AllSpace(before) && AllSpace(after)
    requires (l != "" ==> !IsSpace(l[0])) && (r != "" ==> !IsSpace(r[|r| - 1]))
    ensures Trim(before + (l + "=" + r) + after) == l + "=" + r
  {
    var core := l + "=" + r;
    assert core[0] == (if l == "" then '=' else l[0]);
    assert core[|core| - 1] == if r == "" then '=' else r[|r| - 1];
    TrimOf(before, core, after);
  }

  /** White space around a key: in front of it, and behind it. */
  lemma {:induction false} SpacedKey(a: string, key: string, b: string) returns (before: string, l: string)
    requires AllSpace(a) && AllSpace(b) && Trimmed(key)
    ensures a + key + b == before + l && AllSpace(before) && Trim(l) == key
    ensures l == (if key == "" then "" else key + b) && (l != "" ==> !IsSpace(l[0]))
  {
    if key == "" {
      before, l := a + b, "";
    } else {
      before, l := a, key + b;
    }
    TrimOf("", key, if key == "" then "" else b);
    assert "" + key + (if key == "" then "" else b) == l;
  }

  lemma {:induction false} SpacedValue(c: string, value: string, d: string) returns (r: string, after: string)
    requires AllSpace(c) && AllSpace(d) && Trimmed(value)
    ensures c + value + d == r + after && AllSpace(after) && Trim(r) == value
    ensures r != "" ==> !IsSpace(r[|r| - 1])
  {
    if value == "" {
      r, after := "", c + d;
    } else {
      r, after := c + value, d;
    }
    TrimOf(if value == "" then "" else c, value, "");
    assert (if value == "" then "" else c) + value + "" == r;
  }

  lemma {:induction false} NoSignInSpaces(b: string)
    requires AllSpace(b)
    ensures '=' !in b
  {
  }

  lemma {:induction false} Around(front: string, before: string, l: string, c: string, value: string, d: string,
                                  r: string, after: string)
    requires front == before + l && c + value + d == r + after
    ensures front + "=" + c + value + d == before + (l + "=" + r) + after
  {
    assert front + "=" + c + value + d == front + "=" + (c + value + d);
  }

  // ----- lines that grow -----

  /** White space in front of a line does not change what it says. */
  lemma {:induction false} SpacesBefore(a: string, z: string)
    requires AllSpace(a)
    ensures Trim(a + z) == Trim(z) && Reading(a + z) == Reading(z)
  {
    var b, c := TrimSplits(z);
    var t := Trim(z);
    hide Trim;
    assert AllSpace(a + b) && a + z == (a + b) + t + c;
    TrimOf(a + b, t, c);
  }

  lemma {:induction false} SpacesBehind(z: string, a: string)
    requires AllSpace(a)
    ensures Trim(z + a) == Trim(z) && Reading(z + a) == Reading(z)
  {
    var b, c := TrimSplits(z);
    var t := Trim(z);
    hide Trim;
    assert AllSpace(c + a) && z + a == b + t + (c + a);
    TrimOf(b, t, c + a);
  }

  lemma {:induction false} BlankSpaces(s: string)
    requires Trim(s) == []
    ensures AllSpace(s)
  {
    var a, b := TrimSplits(s);
    assert s == a + b;
  }

  /** A line that is not blank keeps its text, and only the end of what is put behind it is trimmed away. */
  lemma {:induction false} TrimGrows(s: string, x: string) returns (b: string, y: string, c: string)
    requires Trim(s) != []
    ensures AllSpace(b) && b + x == y + c && Trim(s + x) == Trim(s) + y
    ensures !IsSpace(Trim(s)[0])
  {
    var a;
    a, b := TrimSplits(s);
    var d, e := TrimSplits(b + x);
    var t, u := Trim(s), Trim(b + x);
    hide Trim;
    if u == [] {
      y, c := [], b + x;
      assert d + u + e == d + e == c;
      TrimOf(a, t, c);
      assert s + x == a + t + c && t + [] == t;
    } else {
      y, c := d + u, e;
      assert (t + y)[|t + y| - 1] == u[|u| - 1];
      TrimOf(a, t + y, e);
      Regroup(a, t, b, x, d, u, e);
    }
  }

  lemma {:induction false} Regroup(a: string, t: string, b: string, x: string, d: string, u: string, e: string)
    requires b + x == d + u + e
    ensures a + t + b + x == a + (t + (d + u)) + e
  {
    assert a + t + b + x == a + t + (b + x);
  }

  /** The first sign of a text stays the first when more follows. */
  lemma {:induction false} IndexOfGrows(t: string, y: string, c: char)
    ensures var i := IndexOf(t, c); i < |t| ==> IndexOf(t + y, c) == i && (t + y)[..i] == t[..i]
    ensures IndexOf(t, c) == |t| ==> IndexOf(t + y, c) == |t| + IndexOf(y, c)
  {
    var i := IndexOf(t, c);
    if i < |t| {
      assert (t + y)[..i] == t[..i];
      IndexOfIs(t + y, c, i);
    } else {
      IndexOfConcat(t, y, c);
    }
  }

  lemma {:induction false} IndexOfConcat(t: string, y: string, c: char)
    requires IndexOf(t, c) == |t|
    ensures IndexOf(t + y, c) == |t| + IndexOf(y, c)
  {
    if t == [] {
      assert t + y == y;
    } else {
      assert (t + y)[1..] == t[1..] + y;
      IndexOfConcat(t[1..], y, c);
    }
  }

  /** A header stays the same header. */
  lemma {:induction false} HeaderGrows(s: string, h: string, x: string)
    requires Reading(s) == Header(h) && ']' in h
    ensures Reading(s + x) == Header(h)
  {
    var _, y, _ := TrimGrows(s, x);
    var t := Trim(s);
    hide Trim;
    var i := IndexOf(t, ']');
    IndexOfGrows(t, y, ']');
    assert i < |t|;
    assert (t + y)[..i + 1] == t[..i + 1];
  }

  /** Another line that is not blank does not become the header h by as much of h as lies before its bracket. */
  lemma {:induction false} NoNewHeader(s: string, h: string, x: string)
    requires Trim(s) != [] && Reading(s) != Header(h) && h != [] && h[|h| - 1] == ']'
    requires forall m | 0 <= m < |x| && m < |h| - 1 :: x[m] != ']'
    ensures Reading(s + x) != Header(h)
  {
    var b, y, c := TrimGrows(s, x);
    var t := Trim(s);
    hide Trim;
    var i := IndexOf(t, ']');
    IndexOfGrows(t, y, ']');
    if i < |t| {
      assert (t + y)[..i + 1] == t[..i + 1];
    } else {
      BracketLate(b, x, y, c, |h|);
      assert ']' in h;
      assert IndexOf(y, ']') == |y| ==> ']' !in t + y;
    }
  }

  /** A bracket behind white space and the front of a header comes at the end of that header or later. */
  lemma {:induction false} BracketLate(b: string, x: string, y: string, c: string, n: nat)
    requires AllSpace(b) && b + x == y + c && forall m | 0 <= m < |x| && m < n - 1 :: x[m] != ']'
    ensures IndexOf(y, ']') < |y| ==> IndexOf(y, ']') + 1 >= n
  {
    var k := IndexOf(y, ']');
    if k < |y| {
      assert (b + x)[k] == (y + c)[k] == ']';
      assert k >= |b| && x[k - |b|] == ']';
    }
  }

  /** Another line that is not blank does not become a line for the key. */
  lemma {:induction false} NoNewKey(s: string, key: string, value: string, j: nat)
    requires Trim(s) != [] && !SetsKey(Reading(s), key) && CleanKey(key) && LineFits(key, value)
    requires j <= |NewLine(key, value)|
    ensures !SetsKey(Reading(s + NewLine(key, value)[..j]), key)
  {
    var x := NewLine(key, value)[..j];
    var b, y, c := TrimGrows(s, x);
    var t := Trim(s);
    var u := t + y;
    var i := IndexOf(u, '=');
    IndexOfGrows(t, y, '=');
    if i < |u| && IndexOf(t, '=') == |t| {
      var p := u[..i];
      assert p[0] == t[0];
      assert TrimLeft(p) == p;
      var e := TrimRightSplits(p);
      KeyRunsOn(t, b, y, c, key, value, j, e);
    }
  }

  /** A text that stands before the key is not part of the white space behind it. */
  lemma {:induction false} KeyRunsOn(t: string, b: string, y: string, c: string, key: string, value: string, j: nat,
        e: string)
    requires t != [] && !IsSpace(t[0]) && AllSpace(b) && AllSpace(e) && CleanKey(key) && LineFits(key, value)
    requires j <= |NewLine(key, value)| && b + NewLine(key, value)[..j] == y + c
    requires IndexOf(y, '=') < |y|
    ensures (t + y)[..|t| + IndexOf(y, '=')] != key + e
  {
    var x, k := NewLine(key, value), IndexOf(y, '=');
    assert x == key + " = " + value + "\n";
    var z := b + x[..j];
    assert z[k] == (y + c)[k] == '=';
    assert forall m | 0 <= m < |key| + 1 :: x[m] != '=';
    assert k >= |b| + |key| + 1;
    var p := (t + y)[..|t| + k];
    if key == [] {
      assert p[0] == t[0] && key + e == e;
    } else {
      var n := |t| + |b| + |key| - 1;
      assert p[n] == y[n - |t|] == (y + c)[n - |t|] == z[n - |t|] == x[|key| - 1] == key[|key| - 1];
      assert n < |key + e| ==> (key + e)[n] == e[n - |key|];
    }
  }

  // ----- parts of the new line and the new header -----

  /** The part of a new line up to and including its value. */
  function ValueEnd(key: string, value: string): nat {
    |key| + 2 + |ValuePart(value)|
  }

  lemma {:induction false} NewLineText(key: string, value: string)
    requires LineFits(key, value)
    ensures NewLine(key, value) == key + " =" + (" " + value) + "\n"
    ensures |NewLine(key, value)| == |key| + |value| + 4 >= ValueEnd(key, value) + 1
  {
  }

  /** The front of a new line says the pair exactly when all of the value is in it. */
  lemma {:induction false} FrontSays(key: string, value: string, j: nat)
    requires CleanKey(key) && CleanValue(value) && LineFits(key, value) && j <= |NewLine(key, value)|
    ensures Reading(NewLine(key, value)[..j]) == Pair(key, value) <==> j >= ValueEnd(key, value)
  {
    NewLineText(key, value);
    if j >= ValueEnd(key, value) {
      WholeFront(key, value, j);
    } else {
      ShortFront(key, value, j);
    }
  }

  lemma {:induction false} WholeFront(key: string, value: string, j: nat)
    requires CleanKey(key) && CleanValue(value) && LineFits(key, value)
    requires ValueEnd(key, value) <= j <= |NewLine(key, value)|
    ensures Reading(NewLine(key, value)[..j]) == Pair(key, value)
  {
    hide Reading;
    ReadingNewLine(key, value);
    NewLineText(key, value);
    var line := NewLine(key, value);
    var rest := line[j..];
    assert AllSpace(rest);
    SpacesBehind(line[..j], rest);
    assert line[..j] + rest == line;
  }

  lemma {:induction false} ShortFront(key: string, value: string, j: nat)
    requires CleanKey(key) && CleanValue(value) && LineFits(key, value)
    requires j < ValueEnd(key, value) && j <= |NewLine(key, value)|
    ensures Reading(NewLine(key, value)[..j]) != Pair(key, value)
  {
    hide Reading, Trim, NewLine;
    var x := NewLine(key, value)[..j];
    if Reading(x).Pair? {
      var i := ValueBehind(x);
      SignInFront(key, value, j, i);
      TooShort(value, x[i + 1..]);
    }
  }

  /** The first equals sign of the front of a new line, and what stands behind it. */
  lemma {:induction false} SignInFront(key: string, value: string, j: nat, i: nat)
    requires CleanKey(key) && LineFits(key, value) && i < j < ValueEnd(key, value)
    requires j <= |NewLine(key, value)|
    requires NewLine(key, value)[i] == '=' && forall q | 0 <= q < i :: NewLine(key, value)[..j][q] != '='
    ensures NewLine(key, value)[..j][i + 1..] <= " " + value && j - i - 1 < |ValuePart(value)|
  {
    NewLineText(key, value);
    hide Trimmed;
    var line, n := NewLine(key, value), |key| + 1;
    assert forall q | 0 <= q < n :: line[q] == (key + " ")[q] != '=';
    assert line[n] == '=';
    assert i == n by {
      assert n < j ==> line[..j][n] == line[n];
    }
    assert line[n + 1..] == " " + value + "\n";
    assert line[..j][n + 1..] == line[n + 1..][..j - n - 1];
  }

  lemma {:induction false} TooShort(value: string, w: string)
    requires Trimmed(value) && |w| < |ValuePart(value)| && w <= " " + value
    ensures Trim(w) != value
  {
    TrimSame(w);
    hide Trim;
    assert w != [] ==> w[0] == ' ';
  }

  lemma {:induction false} TrimSame(w: string)
    ensures |Trim(w)| <= |w| && (|Trim(w)| == |w| ==> Trim(w) == w)
  {
    var a, b := TrimSplits(w);
    hide Trim;
    assert |a| + |Trim(w)| + |b| == |w|;
    assert [] + Trim(w) + [] == Trim(w);
  }

  /** The value read from a line is the trimmed text behind its first equals sign. */
  lemma {:induction false} ValueBehind(x: string) returns (i: nat)
    requires Reading(x).Pair?
    ensures i < |x| && x[i] == '=' && forall q | 0 <= q < i :: x[q] != '='
    ensures Reading(x).key == Trim(x[..i]) && Reading(x).value == Trim(x[i + 1..])
  {
    var a, b := TrimSplits(x);
    var t := Trim(x);
    var k := IndexOf(t, '=');
    assert t != [] && k < |t| && Reading(x) == Pair(Trim(t[..k]), Trim(t[k + 1..]));
    hide Trim, Reading, IndexOf;
    i := |a| + k;
    SpacesBefore(a, t[..k]);
    SpacesBehind(t[k + 1..], b);
    AroundSign(a, t, b, k);
  }

  lemma {:induction false} AroundSign(a: string, t: string, b: string, k: nat)
    requires AllSpace(a) && k < |t| && '=' !in t[..k]
    ensures var x, i := a + t + b, |a| + k;
            && x[..i] == a + t[..k] && x[i + 1..] == t[k + 1..] + b
            && x[i] == t[k] && forall q | 0 <= q < i :: x[q] != '='
  {
    var x, i := a + t + b, |a| + k;
    assert x[..i] == a + t[..k];
    assert forall q | 0 <= q < i :: x[q] == x[..i][q] == if q < |a| then a[q] else t[..k][q - |a|];
  }

  /** The rest of a new line says the pair exactly when only the blank before the sign of an empty key is missing. */
  lemma {:induction false} RestSays(key: string, value: string, m: nat)
    requires CleanKey(key) && CleanValue(value) && LineFits(key, value) && 0 < m <= |NewLine(key, value)|
    ensures Reading(NewLine(key, value)[m..]) == Pair(key, value) <==> key == [] && m == 1
  {
    NewLineText(key, value);
    var line := NewLine(key, value);
    var z := line[m..];
    if key == [] && m == 1 {
      ReadingNewLine(key, value);
      assert line == " " + z;
      SpacesBefore(" ", z);
    } else if Reading(z).Pair? {
      var i := ValueBehind(z);
      hide Reading, Trim, NewLine;
      SignInRest(key, value, m, i);
      if m <= |key| + 1 {
        RestKey(key, m, z[..i]);
      } else {
        RestValue(value, m + i - |key| - 2, z[i + 1..]);
      }
    }
  }

  /** Where the first equals sign of the rest of a new line is, and what stands around it. */
  lemma {:induction false} SignInRest(key: string, value: string, m: nat, i: nat)
    requires CleanKey(key) && LineFits(key, value) && m + i < |NewLine(key, value)|
    requires NewLine(key, value)[m + i] == '=' && forall q | 0 <= q < i :: NewLine(key, value)[m..][q] != '='
    ensures m <= |key| + 1 ==> NewLine(key, value)[m..][..i] == (key + " ")[m..]
    ensures m > |key| + 1 ==> 0 < m + i - |key| - 2 <= |value|
                              && NewLine(key, value)[m..][i + 1..] == (value + "\n")[m + i - |key| - 2..]
  {
    NewLineParts(key, value);
    hide Trimmed, NewLine, LineFits;
    var line, k, n := NewLine(key, value), key + " ", |key| + 1;
    assert forall q | 0 <= q < n :: line[q] == k[q] != '=';
    if m <= n {
      assert line[m..][n - m] == line[n] == '=';
      assert m + i == n;
      assert line[m..][..i] == line[m..n] == k[m..];
    } else {
      assert line[n + 1] == ' ' && line[n + 2..] == value + "\n";
      assert line[m..][i + 1..] == line[m + i + 1..];
    }
  }

  lemma {:induction false} NewLineParts(key: string, value: string)
    requires LineFits(key, value)
    ensures NewLine(key, value) == (key + " ") + ("= " + (value + "\n"))
    ensures |NewLine(key, value)| == |key| + |value| + 4
  {
    var v := value + "\n";
    assert key + " = " == (key + " ") + "= ";
    assert key + " = " + value + "\n" == key + " = " + v == (key + " ") + ("= " + v);
  }

  lemma {:induction false} RestKey(key: string, m: nat, w: string)
    requires Trimmed(key) && 0 < m <= |key| + 1 && w == (key + " ")[m..] && !(key == [] && m == 1)
    ensures Trim(w) != key
  {
    TrimSame(w);
    hide Trim;
    assert w != [] ==> w[|w| - 1] == ' ';
  }

  lemma {:induction false} RestValue(value: string, m: nat, w: string)
    requires 0 < m <= |value| && w == (value + "\n")[m..]
    ensures Trim(w) != value
  {
    var v := value[m..];
    assert w == v + "\n";
    SpacesBehind(v, "\n");
    TrimSame(v);
  }

  /** A header is found whatever stands behind it, and not before all of it is there. */
  lemma {:induction false} HeaderFront(section: string, x: string, j: nat)
    requires CleanSection(section) && HeaderFits(section) && HeaderText(section) <= x && j <= |x|
    ensures Reading(x[..j]) == Header(HeaderText(section)) <==> j >= |section| + 2
  {
    hide Reading;
    var h := HeaderText(section);
    if j >= |h| {
      ReadingHeaderText(section);
      HeaderGrows(h, h, x[|h|..j]);
      assert x[..j] == h + x[|h|..j];
    } else {
      HeaderLength(x[..j]);
    }
  }

  lemma {:induction false} ReadingHeaderText(section: string)
    requires CleanSection(section) && HeaderFits(section)
    ensures var h := HeaderText(section); Reading(h) == Header(h) && ']' in h
  {
    var h := "[" + section + "]";
    HeaderTrimmed(section);
    hide Trim, IndexOf;
    assert h[..|h|] == h && h[0] == '[' && h[|h| - 1] == ']';
  }

  lemma {:induction false} HeaderTrimmed(section: string)
    requires ']' !in section
    ensures var h := "[" + section + "]"; Trim(h) == h && IndexOf(h, ']') == |h| - 1
  {
    var h := "[" + section + "]";
    TrimOf([], h, []);
    assert [] + h + [] == h;
    hide Trim;
    assert h[..|h| - 1] == "[" + section;
    IndexOfIs(h, ']', |h| - 1);
  }

  lemma {:induction false} HeaderLength(line: string)
    ensures Reading(line).Header? ==> |Reading(line).text| <= |line|
  {
    TrimSame(line);
    hide Trim;
  }

  /** What is left of a header line is another header, if any. */
  lemma {:induction false} HeaderRest(section: string, m: nat)
    requires 0 < m <= |section| + 3
    ensures var h := "[" + section + "]"; Reading((h + "\n")[m..]) != Header(h)
  {
    var h := "[" + section + "]";
    hide Reading;
    if m <= |h| {
      assert (h + "\n")[m..] == h[m..] + "\n";
      SpacesBehind(h[m..], "\n");
      HeaderLength(h[m..]);
    } else {
      HeaderLength((h + "\n")[m..]);
    }
  }
}
