/** Setting and deleting: the scan over all lines, and the lines that are written back. */
module IniEdit {
  import opened Wrappers
  import opened IniText
  import opened IniGet

  const MAX_LINES := 8192

  function NewLine(key: string, value: string): string {
    Printed(key + " = " + value + "\n", LINE_ROOM)
  }

  function NewHeader(section: string): string {
    Printed("[" + section + "]\n", HEADER_ROOM)
  }

  // ----- the scan -----

  /** Running state of the scan, -1 for not found: the last header of the section, where its lines end, the key. */
  datatype Scan = Scan(start: int, end: int, keyLine: int)

  function SeeHeader(sc: Scan, i: nat, n: nat, r: Says, h: string): Scan {
    if !r.Header? then sc
    else if r.text == h then Scan(i, n, sc.keyLine)
    else if sc.start >= 0 && sc.end == n then sc.(end := i)
    else sc
  }

  function SeeKey(sc: Scan, i: nat, n: nat, r: Says, key: string): Scan {
    if sc.start >= 0 && sc.keyLine < 0 && i > sc.start && (sc.end == n || i < sc.end) && SetsKey(r, key)
    then sc.(keyLine := i) else sc
  }

  function ScanTo(lines: seq<string>, i: nat, h: string, key: string): Scan
    requires i <= |lines|
  {
    if i == 0 then Scan(-1, -1, -1)
    else
      var r := Reading(lines[i - 1]);
      SeeKey(SeeHeader(ScanTo(lines, i - 1, h, key), i - 1, |lines|, r, h), i - 1, |lines|, r, key)
  }

  /** Whatever the lines, what is found lies within them. */
  lemma {:induction false} ScanBounds(lines: seq<string>, i: nat, h: string, key: string)
    requires i <= |lines|
    ensures var sc := ScanTo(lines, i, h, key);
            && -1 <= sc.start < i && -1 <= sc.keyLine < i
            && (sc.start >= 0 ==> sc.start < sc.end <= |lines|)
  {
    hide Reading;
    if i > 0 {
      ScanBounds(lines, i - 1, h, key);
    }
  }

  method ScanLines(lines: seq<string>, h: string, key: string) returns (start: int, end: int, keyLine: int)
    ensures Scan(start, end, keyLine) == ScanTo(lines, |lines|, h, key)
  {
    hide Reading;
    start, end, keyLine := -1, -1, -1;
    var n := |lines|;
    for i := 0 to n
      invariant Scan(start, end, keyLine) == ScanTo(lines, i, h, key)
    {
      var r := Reading(lines[i]);
      if r.Comment? || r.Blank? {
        continue;
      }
      if r.Header? {
        if r.text == h {
          start, end := i, n;
        } else if start >= 0 && end == n {
          end := i;
        }
      }
      if start >= 0 && keyLine < 0 && i > start && (end == n || i < end) && r.Pair? && r.key == key {
        keyLine := i;
      }
    }
  }

  // ----- set -----

  /** Where a new key goes: after the last line of the section that is not blank, or at its end if all are. */
  function InsertPoint(lines: seq<string>, start: nat, end: nat, i: nat): (at: nat)
    requires start < i <= end <= |lines|
    ensures start < at <= end
  {
    if i - 1 == start then end
    else if Trim(lines[i - 1]) != [] then i
    else InsertPoint(lines, start, end, i - 1)
  }

  /** A new key goes directly behind the last line of the section that is not blank; the blank lines after it stay. */
  lemma {:induction false} InsertPointMeans(lines: seq<string>, start: nat, end: nat, i: nat)
    requires start < i <= end <= |lines|
    ensures var at := InsertPoint(lines, start, end, i);
            if exists j :: start < j < i && Trim(lines[j]) != [] then
              start + 1 < at <= i && Trim(lines[at - 1]) != [] && forall j :: at <= j < i ==> Trim(lines[j]) == []
            else at == end
  {
    hide Trim;
    if start < i - 1 && Trim(lines[i - 1]) == [] {
      InsertPointMeans(lines, start, end, i - 1);
      assert (exists j :: start < j < i && Trim(lines[j]) != [])
          <==> exists j :: start < j < i - 1 && Trim(lines[j]) != [];
    }
  }

  /** The lines before an appended section: a blank one after a last line that is terminated and not blank. */
  function Padding(lines: seq<string>): seq<string> {
    if lines != [] && lines[|lines| - 1] != [] && lines[|lines| - 1][|lines[|lines| - 1]| - 1] == '\n'
          && Trim(lines[|lines| - 1]) != []
    then ["\n"] else []
  }

  /** What an appended header stands behind: nothing, a blank line, or a last line that was never terminated. */
  lemma {:induction false} PaddingMeans(lines: seq<string>)
    ensures var before := lines + Padding(lines);
            before == [] || before[|before| - 1] == [] || before[|before| - 1][|before[|before| - 1]| - 1] != '\n'
            || Trim(before[|before| - 1]) == []
    ensures Padding(lines) == [] || Padding(lines) == ["\n"]
  {
    TrimOf("", "", "\n");
    assert "" + "" + "\n" == "\n";
  }

  /** The file after a set; nothing when it would have too many lines. */
  function SetLines(lines: seq<string>, section: string, key: string, value: string): Option<seq<string>> {
    var n := |lines|;
    ScanBounds(lines, n, HeaderText(section), key);
    var sc := ScanTo(lines, n, HeaderText(section), key);
    if sc.keyLine >= 0 then Some(lines[sc.keyLine := NewLine(key, value)])
    else if sc.start >= 0 then
      if n >= MAX_LINES then None
      else
        var at := InsertPoint(lines, sc.start, sc.end, sc.end);
        Some(lines[..at] + [NewLine(key, value)] + lines[at..])
    else
      if n + 2 >= MAX_LINES then None
      else Some(lines + Padding(lines) + [NewHeader(section), NewLine(key, value)])
  }

  /** Move the lines from `at` on and put a line there. */
  method InsertLine(buffer: array<string>, count: nat, at: nat, line: string)
    requires at <= count < buffer.Length
    modifies buffer
    ensures buffer[..count + 1] == old(buffer[..at]) + [line] + old(buffer[at..count])
  {
    forall i | at <= i < count {
      buffer[i + 1] := buffer[i];
    }
    buffer[at] := line;
  }

  /** A blank line where one is due, the header, the line. */
  method AppendSection(buffer: array<string>, lines: seq<string>, header: string, line: string) returns (count: nat)
    requires |lines| + 3 <= buffer.Length && buffer[..|lines|] == lines
    modifies buffer
    ensures count <= buffer.Length && buffer[..count] == lines + Padding(lines) + [header, line]
  {
    hide Trim;
    count := |lines|;
    assert count > 0 ==> buffer[count - 1] == lines[count - 1];
    if count > 0 && |buffer[count - 1]| > 0 && buffer[count - 1][|buffer[count - 1]| - 1] == '\n'
          && Trim(buffer[count - 1]) != [] {
      buffer[count] := "\n";
      count := count + 1;
    }
    assert buffer[..count] == lines + Padding(lines);
    buffer[count] := header;
    buffer[count + 1] := line;
    count := count + 2;
  }

  /** The line array with room for MAX_LINES; `None` is the error return. */
  method ConfigSet(lines: seq<string>, section: string, key: string, value: string)
    returns (result: Option<seq<string>>)
    requires |lines| <= MAX_LINES
    ensures result == SetLines(lines, section, key, value)
  {
    hide Reading, HeaderText, NewLine, NewHeader, Trim, ScanTo, InsertPoint, Padding;
    var h := HeaderText(section);
    ScanBounds(lines, |lines|, h, key);
    var start, end, keyLine := ScanLines(lines, h, key);
    var count := |lines|;
    var buffer := new string[MAX_LINES](i => if 0 <= i < |lines| then lines[i] else "");
    assert buffer[..count] == lines;
    if keyLine >= 0 {
      buffer[keyLine] := NewLine(key, value);
      assert buffer[..count] == lines[keyLine := NewLine(key, value)];
    } else if start >= 0 {
      if count >= MAX_LINES {
        return None;
      }
      var at := FindInsertPoint(buffer, count, start, end, lines);
      assert buffer[..at] == lines[..at] && buffer[at..count] == lines[at..];
      InsertLine(buffer, count, at, NewLine(key, value));
      count := count + 1;
    } else {
      if count + 2 >= MAX_LINES {
        return None;
      }
      count := AppendSection(buffer, lines, NewHeader(section), NewLine(key, value));
    }
    result := Some(buffer[..count]);
  }

  method FindInsertPoint(buffer: array<string>, count: nat, start: nat, end: nat, ghost lines: seq<string>)
    returns (at: nat)
    requires count <= buffer.Length && buffer[..count] == lines && start < end <= count
    ensures at == InsertPoint(lines, start, end, end)
  {
    hide Trim;
    at := end;
    var i: int := end - 1;
    while i > start
      invariant start <= i < end && at == end
      invariant InsertPoint(lines, start, end, end) == InsertPoint(lines, start, end, i + 1)
    {
      assert buffer[i] == lines[i];
      if Trim(buffer[i]) != [] {
        return i + 1;
      }
      i := i - 1;
    }
  }

  // ----- del -----

  /** The lines that do not set the key. */
  function Dropping(lines: seq<string>, key: string): seq<string> {
    if lines == [] then []
    else (if SetsKey(Reading(lines[0]), key) then [] else [lines[0]]) + Dropping(lines[1..], key)
  }

  /** The file after a deletion of a key, or of the section when no key is given; nothing without the section. */
  function DelLines(lines: seq<string>, section: string, key: Option<string>): Option<seq<string>> {
    ScanBounds(lines, |lines|, HeaderText(section), "");
    var sc := ScanTo(lines, |lines|, HeaderText(section), "");
    if sc.start < 0 then None
    else if key.None? then Some(lines[..sc.start] + lines[sc.end..])
    else Some(lines[..sc.start + 1] + Dropping(lines[sc.start + 1..sc.end], key.value) + lines[sc.end..])
  }

  method ConfigDel(lines: seq<string>, section: string, key: Option<string>) returns (result: Option<seq<string>>)
    ensures result == DelLines(lines, section, key)
  {
    hide Reading, HeaderText;
    var h := HeaderText(section);
    ScanBounds(lines, |lines|, h, "");
    var start, end, _ := ScanLines(lines, h, "");
    if start < 0 {
      return None;
    }
    var out := [];
    for i := 0 to |lines|
      invariant out == WrittenTo(lines, i, start, end, key)
    {
      var skip := false;
      if key.None? {
        skip := start <= i < end;
      } else if start < i < end {
        var r := Reading(lines[i]);
        skip := r.Pair? && r.key == key.value;
      }
      if !skip {
        out := out + [lines[i]];
      }
    }
    WrittenAll(lines, start, end, key);
    result := Some(out);
  }

  /** What the loop has written after i lines. */
  function WrittenTo(lines: seq<string>, i: nat, start: nat, end: nat, key: Option<string>): seq<string>
    requires i <= |lines|
  {
    if i == 0 then []
    else
      var line := lines[i - 1];
      var skip := if key.None? then start <= i - 1 < end
                  else start < i - 1 < end && SetsKey(Reading(line), key.value);
      WrittenTo(lines, i - 1, start, end, key) + if skip then [] else [line]
  }

  lemma {:induction false} DroppingLast(lines: seq<string>, line: string, key: string)
    ensures Dropping(lines + [line], key)
            == Dropping(lines, key) + if SetsKey(Reading(line), key) then [] else [line]
  {
    hide Reading;
    if lines == [] {
      assert [line][1..] == [] && [] + [line] == [line];
    } else {
      assert (lines + [line])[1..] == lines[1..] + [line];
      DroppingLast(lines[1..], line, key);
    }
  }

  /** Before the part that may lose lines, every line is written. */
  lemma {:induction false} WrittenHead(lines: seq<string>, i: nat, start: nat, end: nat, key: Option<string>)
    requires start < end <= |lines| && i <= if key.None? then start else start + 1
    ensures WrittenTo(lines, i, start, end, key) == lines[..i]
  {
    if i > 0 {
      WrittenHead(lines, i - 1, start, end, key);
      assert lines[..i] == lines[..i - 1] + [lines[i - 1]];
    }
  }

  /** A deleted section loses all its lines. */
  lemma {:induction false} WrittenNothing(lines: seq<string>, i: nat, start: nat, end: nat)
    requires start < end <= |lines| && start <= i <= end
    ensures WrittenTo(lines, i, start, end, None) == lines[..start]
  {
    if i == start {
      WrittenHead(lines, i, start, end, None);
    } else {
      WrittenNothing(lines, i - 1, start, end);
    }
  }

  /** A section whose key is deleted loses the lines that set the key. */
  lemma {:induction false} WrittenBody(lines: seq<string>, i: nat, start: nat, end: nat, key: string)
    requires start < end <= |lines| && start + 1 <= i <= end
    ensures WrittenTo(lines, i, start, end, Some(key)) == lines[..start + 1] + Dropping(lines[start + 1..i], key)
  {
    hide Reading;
    if i == start + 1 {
      WrittenHead(lines, i, start, end, Some(key));
      assert lines[start + 1..i] == [];
      assert lines[..start + 1] + [] == lines[..start + 1];
    } else {
      WrittenBody(lines, i - 1, start, end, key);
      var body, line := lines[start + 1..i - 1], lines[i - 1];
      assert lines[start + 1..i] == body + [line];
      DroppingLast(body, line, key);
      var last := if SetsKey(Reading(line), key) then [] else [line];
      hide Dropping;
      assert WrittenTo(lines, i, start, end, Some(key)) == WrittenTo(lines, i - 1, start, end, Some(key)) + last;
      assert lines[..start + 1] + Dropping(body, key) + last == lines[..start + 1] + (Dropping(body, key) + last);
    }
  }

  /** Behind the section, every line is written. */
  lemma {:induction false} WrittenTail(lines: seq<string>, i: nat, start: nat, end: nat, key: Option<string>)
    requires start < end <= i <= |lines|
    ensures WrittenTo(lines, i, start, end, key) == WrittenTo(lines, end, start, end, key) + lines[end..i]
  {
    if i > end {
      WrittenTail(lines, i - 1, start, end, key);
      assert lines[end..i] == lines[end..i - 1] + [lines[i - 1]];
    }
  }

  lemma {:induction false} WrittenAll(lines: seq<string>, start: nat, end: nat, key: Option<string>)
    requires start < end <= |lines|
    ensures WrittenTo(lines, |lines|, start, end, key)
            == if key.None? then lines[..start] + lines[end..]
               else lines[..start + 1] + Dropping(lines[start + 1..end], key.value) + lines[end..]
  {
    hide Reading, WrittenTo, Dropping;
    WrittenTail(lines, |lines|, start, end, key);
    assert lines[end..|lines|] == lines[end..];
    if key.None? {
      WrittenNothing(lines, end, start, end);
    } else {
      WrittenBody(lines, end, start, end, key.value);
    }
  }
}
