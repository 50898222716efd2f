/** Files as text: reading lines, writing lines, and which keys, values and sections survive. */
module IniFile {
  import opened IniText
  import opened IniGet
  import opened IniEdit

  // ----- what a written line says -----

  /** A key that a line can carry: nothing to trim, no equals sign, no comment or header sign in front. */
  predicate CleanKey(key: string) {
    Trimmed(key) && '=' !in key && '\n' !in key && (key != [] ==> key[0] != '#' && key[0] != ';' && key[0] != '[')
  }

  predicate CleanValue(value: string) {
    Trimmed(value) && '\n' !in value
  }

  predicate CleanSection(section: string) {
    ']' !in section && '\n' !in section
  }

  predicate LineFits(key: string, value: string) {
    |key| + |value| + 4 <= 4095
  }

  /** The section is looked for under its whole name. */
  predicate HeaderFits(section: string) {
    |section| + 2 <= 127
  }

  /** A header written for the section keeps its newline. */
  predicate NewHeaderFits(section: string) {
    |section| + 3 <= 127
  }

  lemma {:induction false} IndexOfIs(s: string, c: char, i: nat)
    requires i < |s| && s[i] == c && c !in s[..i]
    ensures IndexOf(s, c) == i
  {
    assert forall j | 0 <= j < i :: s[j] == s[..i][j];
  }

  /** A trimmed line with text `t` around its first equals sign. */
  lemma {:induction false} ReadingPair(line: string, key: string, value: string, l: string, r: string)
    requires Trim(line) == l + "=" + r && Trim(l) == key && Trim(r) == value && '=' !in l
    requires l != [] ==> l[0] != '#' && l[0] != ';' && l[0] != '['
    ensures Reading(line) == Pair(key, value)
  {
    hide Trim;
    var t := l + "=" + r;
    assert t[..|l|] == l && t[|l| + 1..] == r;
    IndexOfIs(t, '=', |l|);
    assert t[0] == if l != [] then l[0] else '=';
  }

  /** What stands before the equals sign, once the line is trimmed. */
  function KeyPart(key: string): string {
    if key == [] then [] else key + " "
  }

  /** What stands behind the equals sign, once the line is trimmed. */
  function ValuePart(value: string): string {
    if value == [] then [] else " " + value
  }

  lemma {:induction false} TrimParts(key: string, value: string)
    requires Trimmed(key) && Trimmed(value)
    ensures Trim(KeyPart(key)) == key && Trim(ValuePart(value)) == value
  {
    hide Trim;
    TrimOf([], key, if key == [] then "" else " ");
    assert [] + key + (if key == [] then "" else " ") == KeyPart(key);
    hide KeyPart;
    TrimOf(if value == [] then "" else " ", value, []);
    assert (if value == [] then "" else " ") + value + [] == ValuePart(value);
  }

  lemma {:induction false} Ungrouped(k: string, x: string, y: string, z: string, v: string, e: string)
    ensures k + (x + y + z) + v + e == (k + x) + y + (z + v + e)
  {
  }

  lemma {:induction false} Regrouped(a: string, b: string, c: string, d: string, e: string)
    ensures (a + b) + c + (d + e) == a + (b + c + d) + e
  {
  }

  lemma {:induction false} SpacesSplit(key: string, value: string, a: string, b: string)
    requires a == (if key == [] then " " else "") && b == if value == [] then " \n" else "\n"
    ensures key + " " == a + KeyPart(key) && " " + value + "\n" == ValuePart(value) + b
  {
    assert key == [] ==> key + " " == " " == " " + [];
    assert value == [] ==> " " + value + "\n" == " \n" == [] + " \n";
  }

  /** The line around its equals sign, and the white space that trimming takes away. */
  lemma {:induction false} NewLineSplits(key: string, value: string, a: string, b: string)
    requires LineFits(key, value)
    requires a == (if key == [] then " " else "") && b == if value == [] then " \n" else "\n"
    ensures NewLine(key, value) == a + (KeyPart(key) + "=" + ValuePart(value)) + b
  {
    hide KeyPart, ValuePart;
    SpacesSplit(key, value, a, b);
    assert " = " == " " + "=" + " ";
    Ungrouped(key, " ", "=", " ", value, "\n");
    Regrouped(a, KeyPart(key), "=", ValuePart(value), b);
  }

  lemma {:induction false} TrimNewLine(key: string, value: string)
    requires Trimmed(key) && Trimmed(value) && LineFits(key, value)
    ensures Trim(NewLine(key, value)) == KeyPart(key) + "=" + ValuePart(value)
  {
    hide Trim, NewLine;
    var core := KeyPart(key) + "=" + ValuePart(value);
    var a, b := if key == [] then " " else "", if value == [] then " \n" else "\n";
    NewLineSplits(key, value, a, b);
    assert core[0] == if key == [] then '=' else key[0];
    assert core[|core| - 1] == if value == [] then '=' else value[|value| - 1];
    TrimOf(a, core, b);
  }

  /** A key and value that are clean are read back from the line written for them. */
  lemma {:induction false} ReadingNewLine(key: string, value: string)
    requires CleanKey(key) && CleanValue(value) && LineFits(key, value)
    ensures Reading(NewLine(key, value)) == Pair(key, value)
  {
    hide Reading, Trim, NewLine;
    TrimParts(key, value);
    TrimNewLine(key, value);
    ReadingPair(NewLine(key, value), key, value, KeyPart(key), ValuePart(value));
  }

  lemma {:induction false} ReadingNewHeader(section: string)
    requires CleanSection(section) && NewHeaderFits(section)
    ensures Reading(NewHeader(section)) == Header(HeaderText(section))
  {
    var h := "[" + section + "]";
    assert NewHeader(section) == [] + h + "\n";
    TrimOf([], h, "\n");
    hide Trim;
    assert h[..|h| - 1] == "[" + section;
    IndexOfIs(h, ']', |h| - 1);
    assert h[..|h|] == h;
  }

  // ----- lines that come from a file -----

  /** One line as fgets returns it: a newline only at its end, no zero, at most 4095 characters. */
  predicate FileLine(line: string) {
    0 < |line| <= 4095 && '\0' !in line && '\n' !in line[..|line| - 1]
  }

  lemma {:induction false} TrimOneLine(line: string)
    requires FileLine(line)
    ensures '\n' !in Trim(line)
  {
    var a, b := TrimSplits(line);
    var t := Trim(line);
    hide Trim;
    forall i | 0 <= i < |t| ensures t[i] != '\n' {
      assert line[|a| + i] == t[i];
      if |a| + i < |line| - 1 {
        assert line[..|line| - 1][|a| + i] == t[i];
      }
    }
  }

  lemma {:induction false} TrimPart(s: string)
    requires '\n' !in s
    ensures '\n' !in Trim(s) && Trimmed(Trim(s))
  {
    var a, b := TrimSplits(s);
    var t := Trim(s);
    hide Trim;
    forall i | 0 <= i < |t| ensures t[i] != '\n' {
      assert s[|a| + i] == t[i];
    }
  }

  /** Only clean keys and values are ever read from a file. */
  lemma {:induction false} ReadPairClean(line: string)
    requires FileLine(line) && Reading(line).Pair?
    ensures CleanKey(Reading(line).key) && CleanValue(Reading(line).value)
  {
    TrimOneLine(line);
    var _, _ := TrimSplits(line);
    var t := Trim(line);
    var i := IndexOf(t, '=');
    TrimPart(t[..i]);
    TrimPart(t[i + 1..]);
    KeyOf(t, i);
  }

  lemma {:induction false} KeyOf(t: string, i: nat)
    requires Trimmed(t) && i < |t| && t[i] == '=' && '=' !in t[..i]
    requires t[0] != '#' && t[0] != ';' && t[0] != '['
    ensures '=' !in Trim(t[..i])
    ensures Trim(t[..i]) != [] ==> Trim(t[..i])[0] != '#' && Trim(t[..i])[0] != ';' && Trim(t[..i])[0] != '['
  {
    var p := t[..i];
    assert p != [] ==> p[0] == t[0];
    assert TrimLeft(p) == p;
    var b := TrimRightSplits(p);
    assert forall j | 0 <= j < |Trim(p)| :: Trim(p)[j] == p[j];
  }

  /** Only the header of a clean section is ever read from a file. */
  lemma {:induction false} ReadHeaderClean(line: string, section: string)
    requires FileLine(line) && HeaderFits(section) && Reading(line) == Header(HeaderText(section))
    ensures CleanSection(section)
  {
    TrimOneLine(line);
    var t := Trim(line);
    hide Trim;
    var i := IndexOf(t, ']');
    var h := "[" + section + "]";
    assert HeaderText(section) == h;
    var n := |section|;
    assert h[n + 1] == ']';
    assert i < |t| && h == t[..i + 1];
    assert t[..i] == h[..n + 1];
    forall j | 0 <= j < n ensures section[j] != ']' && section[j] != '\n' {
      assert section[j] == h[j + 1] == t[j + 1] == t[..i][j + 1];
    }
  }
}
