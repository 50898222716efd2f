/** More laws on whole files: the last set wins, deletions, files with too many lines, and keys that do not survive. */
module IniFileLaws {
  import opened Wrappers
  import opened IniText
  import opened IniGet
  import opened IniEdit
  import opened IniShape
  import opened IniFile
  import opened IniLaws
  import opened IniRoundTrip
  import opened IniParts
  import opened IniJoined

  // ----- the last set wins -----

  /** The last of two sets of one key alone decides the file. */
  lemma {:induction false} SetTwiceFile(text: string, section: string, key: string, value: string, value': string)
    requires GoodFile(text) && Apart(ReadLines(text), section, key)
    requires Storable(section, key, value) && Fits(ReadLines(text), section, key, value)
    requires IsCString(section) && IsCString(key) && IsCString(value)
    requires SetFile(text, section, key, value).Some?
    ensures SetFile(SetFile(text, section, key, value).value, section, key, value')
            == SetFile(text, section, key, value')
  {
    hide ReadLines, WriteLines, OneHeaderEach, Apart, Storable, SetLines, Fits;
    SetFileReads(text, section, key, value);
    SetCount(ReadLines(text), section, key, value);
    SetTwice(ReadLines(text), section, key, value, value');
  }

  // ----- deletions -----

  /** Dropping lines keeps a last line without newline the last. */
  lemma {:induction false} DroppingReadable(lines: seq<string>, key: string)
    requires Readable(lines)
    ensures Readable(Dropping(lines, key)) && |Dropping(lines, key)| <= |lines|
    ensures AllComplete(lines) ==> AllComplete(Dropping(lines, key))
  {
    hide Reading, FileLine, Complete;
    if lines != [] {
      DroppingReadable(lines[1..], key);
      AddedReadable(lines[0], lines[1..], Dropping(lines[1..], key));
    }
  }

  lemma {:induction false} AddedReadable(line: string, rest: seq<string>, left: seq<string>)
    requires Readable([line] + rest) && Readable(left) && (AllComplete(rest) ==> AllComplete(left)) && |left| <= |rest|
    ensures Readable([line] + left) && (AllComplete([line] + rest) ==> AllComplete([line] + left))
  {
    hide FileLine, Complete;
    var lines := [line] + rest;
    assert lines[0] == line && forall i | 0 <= i < |rest| :: rest[i] == lines[i + 1];
    if left != [] {
      assert Complete(lines[0]);
      ReadableConcat([line], left);
    }
  }

  /** A deletion writes lines that are read back. */
  lemma {:induction false} DelReadable(lines: seq<string>, section: string, key: Option<string>)
    requires Readable(lines) && DelLines(lines, section, key).Some?
    ensures Readable(DelLines(lines, section, key).value)
    ensures |DelLines(lines, section, key).value| <= |lines|
  {
    hide Reading, HeaderText, ScanTo, Complete, FileLine, Dropping;
    ReadableParts(lines);
    ScanBounds(lines, |lines|, HeaderText(section), "");
    var sc := ScanTo(lines, |lines|, HeaderText(section), "");
    if key.None? {
      ReadableConcat(lines[..sc.start], lines[sc.end..]);
    } else {
      var body := lines[sc.start + 1..sc.end];
      var left := Dropping(body, key.value);
      DroppingReadable(body, key.value);
      BehindHeader(lines, sc.start + 1, left, sc.end);
    }
  }

  lemma {:induction false} BehindHeader(lines: seq<string>, start: nat, left: seq<string>, end: nat)
    requires Readable(lines) && 0 < start <= end <= |lines| && Readable(left) && (start == end ==> left == [])
    requires AllComplete(lines[start..end]) ==> AllComplete(left)
    ensures Readable(lines[..start] + left + lines[end..])
  {
    ReadableParts(lines);
    hide Complete, FileLine;
    if end < |lines| {
      ReadableConcat(left, lines[end..]);
      ReadableConcat(lines[..start], left + lines[end..]);
      assert lines[..start] + left + lines[end..] == lines[..start] + (left + lines[end..]);
    } else if start < |lines| {
      ReadableConcat(lines[..start], left);
      assert lines[..start] + left + lines[end..] == lines[..start] + left;
    } else {
      assert lines[..start] + left + lines[end..] == lines;
    }
  }

  /** The lines that the commands hold: the last may lack its newline, if it is the last of the file. */
  lemma {:induction false} EditReadable(text: string)
    requires IsCString(text)
    ensures Readable(EditLines(text))
    ensures |ReadLines(text)| > MAX_LINES ==> AllComplete(EditLines(text))
  {
    hide ReadLines, Complete, FileLine;
    ReadReadable(text);
  }

  /** The next command reads exactly the lines that a deletion has written. */
  lemma {:induction false} DelFileReads(text: string, section: string, key: Option<string>)
    requires IsCString(text) && DelFile(text, section, key).Some?
    ensures DelLines(EditLines(text), section, key).Some?
    ensures ReadLines(DelFile(text, section, key).value) == DelLines(EditLines(text), section, key).value
    ensures |ReadLines(DelFile(text, section, key).value)| <= |EditLines(text)|
  {
    EditReadable(text);
    hide DelLines, ReadLines, WriteLines, EditLines;
    DelReadable(EditLines(text), section, key);
    ReadWrite(DelLines(EditLines(text), section, key).value);
  }

  /** On files too, deleting a key makes its get fail and changes no other get. */
  lemma {:induction false} DeleteKeyFile(text: string, section: string, key: string, section': string, key': string)
    requires GoodFile(text) && !Without(ReadLines(text), HeaderText(section))
    ensures DelFile(text, section, Some(key)).Some?
    ensures GetFile(DelFile(text, section, Some(key)).value, section', key')
            == if HeaderText(section') == HeaderText(section) && key' == key then None
               else GetFile(text, section', key')
  {
    hide DelLines, ReadLines, WriteLines, OneHeaderEach, GetLines, Without, HeaderText;
    DeleteKey(ReadLines(text), section, key, section', key');
    DelFileReads(text, section, Some(key));
  }

  /** On files too, deleting a section makes all its gets fail and changes no other get. */
  lemma {:induction false} DeleteSectionFile(text: string, section: string, section': string, key': string)
    requires GoodFile(text) && !Without(ReadLines(text), HeaderText(section))
    ensures DelFile(text, section, None).Some?
    ensures GetFile(DelFile(text, section, None).value, section', key')
            == if HeaderText(section') == HeaderText(section) then None else GetFile(text, section', key')
  {
    hide DelLines, ReadLines, WriteLines, OneHeaderEach, GetLines, Without, HeaderText;
    DeleteSection(ReadLines(text), section, section', key');
    DelFileReads(text, section, None);
  }

  /** A deletion fails exactly when none of the lines that are read is the header of the section. */
  lemma {:induction false} DeleteMissing(text: string, section: string, key: Option<string>)
    ensures DelFile(text, section, key).None? <==> Without(EditLines(text), HeaderText(section))
  {
    hide Reading, HeaderText, ScanTo, ReadLines, WriteLines, EditLines, Dropping;
    ScanMissing(EditLines(text), HeaderText(section), "");
  }

  // ----- what a set keeps -----

  /** The lines of a file with one that sets the key exchanged, with one more among them, or with more behind them. */
  ghost predicate KeepsOthers(before: seq<string>, after: seq<string>, key: string, line: string) {
    || (exists k: nat :: ChangedAt(before, after, k, key, line))
    || (exists k: nat :: AddedAt(before, after, k, line))
    || before <= after
  }

  ghost predicate ChangedAt(before: seq<string>, after: seq<string>, k: nat, key: string, line: string) {
    k < |before| && SetsKey(Reading(before[k]), key) && after == before[k := line]
  }

  ghost predicate AddedAt(before: seq<string>, after: seq<string>, k: nat, line: string) {
    k <= |before| && after == before[..k] + [line] + before[k..]
  }

  /** The line found for the key sets it. */
  lemma {:induction false} KeyLineSets(lines: seq<string>, i: nat, h: string, key: string)
    requires i <= |lines|
    ensures var k := ScanTo(lines, i, h, key).keyLine;
            k >= 0 ==> k < i && SetsKey(Reading(lines[k]), key)
  {
    hide Reading;
    if i > 0 {
      KeyLineSets(lines, i - 1, h, key);
    }
  }

  /** A set that stays apart keeps all other lines, and the next command reads them. */
  lemma {:induction false} ApartKeeps(lines: seq<string>, section: string, key: string, value: string)
    requires Readable(lines) && Apart(lines, section, key) && SetLines(lines, section, key, value).Some?
    requires Complete(NewLine(key, value))
    ensures KeepsOthers(lines, ReadLines(WriteLines(SetLines(lines, section, key, value).value)), key,
              NewLine(key, value))
  {
    hide Reading, HeaderText, ScanTo, InsertPoint, NewLine, NewHeader, Padding, ReadLines, WriteLines, Complete,
         FileLine, Apart, Without;
    var h, line, after := HeaderText(section), NewLine(key, value), SetLines(lines, section, key, value).value;
    ScanBounds(lines, |lines|, h, key);
    ScanMissing(lines, h, key);
    KeyLineSets(lines, |lines|, h, key);
    var sc := ScanTo(lines, |lines|, h, key);
    if Without(lines, h) {
      SetNewSection(lines, section, key, value);
      AppendKeeps(lines, section, key, line);
    } else {
      SetReadable(lines, section, key, value);
      ReadWrite(after);
      if sc.keyLine >= 0 {
        assert ChangedAt(lines, after, sc.keyLine, key, line);
      } else {
        assert AddedAt(lines, after, InsertPoint(lines, sc.start, sc.end, sc.end), line);
      }
    }
  }

  /** Behind complete lines, whatever becomes of the new header. */
  lemma {:induction false} AppendKeeps(lines: seq<string>, section: string, key: string, line: string)
    requires Readable(lines) && Apart(lines, section, key) && Without(lines, HeaderText(section))
    ensures lines <= ReadLines(WriteLines(Cut(lines + Padding(lines), NewHeader(section), [line], []).Whole()))
  {
    hide HeaderText, NewHeader, ReadLines, WriteLines, Complete, FileLine, Without, Apart, Readable, Padding;
    ApartMissing(lines, section, key);
    PaddingComplete(lines);
    WriteTail(lines + Padding(lines), NewHeader(section), line);
    ReadAppended(lines + Padding(lines), NewHeader(section) + line);
  }

  /** Text behind an open line is read as part of it. */
  lemma {:induction false} JoinedFirst(last: string, x: string)
    requires Open(last) && x != []
    ensures var read := ReadLines(last + x); read != [] && |read[0]| > |last|
  {
    var text := last + x;
    assert forall i | 0 <= i < |last| :: text[i] == last[i];
    assert LineLength(text) > |last|;
  }

  /** The last line read ends as the text does. */
  lemma {:induction false} LastRead(text: string)
    requires text != [] && text[|text| - 1] == '\n'
    ensures var read := ReadLines(text); read != [] && read[|read| - 1] != [] && '\n' in read[|read| - 1]
  {
    hide LineLength;
    var n := LineLength(text);
    if text[n..] == [] {
      assert text[..n] == text && ReadLines(text)[|ReadLines(text)| - 1] == text;
    } else {
      LastRead(text[n..]);
      assert ReadLines(text) == [text[..n]] + ReadLines(text[n..]);
    }
  }

  /** What a set that does not stay apart writes behind the text of the file. */
  lemma {:induction false} SetBehind(lines: seq<string>, section: string, key: string, value: string)
    returns (x: string)
    requires Readable(lines) && !Apart(lines, section, key) && SetLines(lines, section, key, value).Some?
    ensures WriteLines(SetLines(lines, section, key, value).value) == WriteLines(lines) + x
    ensures x == NewLine(key, value) || x == NewHeader(section) + NewLine(key, value)
  {
    hide Reading, HeaderText, ScanTo, InsertPoint, NewLine, NewHeader, WriteLines, Complete, FileLine;
    var h, line := HeaderText(section), NewLine(key, value);
    ScanBounds(lines, |lines|, h, key);
    OpenEnd(lines, section, key);
    if ScanTo(lines, |lines|, h, key).start >= 0 {
      x := line;
      assert lines[..|lines|] + [line] + lines[|lines|..] == lines + [line];
      WriteAppended(lines, [line]);
      WriteOne(line);
    } else {
      x := NewHeader(section) + line;
      WriteTail(lines, NewHeader(section), line);
      assert lines + [] + [NewHeader(section), line] == Cut(lines, NewHeader(section), [line], []).Whole();
    }
  }

  /** A set that does not stay apart loses the last line. */
  lemma {:induction false} JoinedLoses(lines: seq<string>, section: string, key: string, value: string)
    requires Readable(lines) && !Apart(lines, section, key) && SetLines(lines, section, key, value).Some?
    requires Complete(NewLine(key, value)) && NewLine(key, value)[|NewLine(key, value)| - 1] == '\n'
    ensures !KeepsOthers(lines, ReadLines(WriteLines(SetLines(lines, section, key, value).value)), key,
               NewLine(key, value))
  {
    assert NewLine(key, value) != [];
    hide Reading, NewLine, NewHeader, ReadLines, WriteLines, SetLines, Complete, FileLine, Apart, Readable, AllComplete,
         Open, Padding, KeepsOthers;
    OpenEnd(lines, section, key);
    var x := SetBehind(lines, section, key, value);
    var front, last := lines[..|lines| - 1], lines[|lines| - 1];
    assert lines == front + [last];
    Associative(WriteLines(front), last, x);
    JoinedText(front, last, x, key, NewLine(key, value));
  }

  lemma {:induction false} JoinedText(front: seq<string>, last: string, x: string, key: string, line: string)
    requires AllComplete(front) && Open(last) && last != [] && |x| >= |line| && x != [] && x[|x| - 1] == '\n'
    ensures !KeepsOthers(front + [last], ReadLines(WriteLines(front) + (last + x)), key, line)
  {
    hide Reading, ReadLines, WriteLines, AllComplete, Open, KeepsOthers;
    var text := WriteLines(front) + (last + x);
    ReadAppended(front, last + x);
    JoinedFirst(last, x);
    LastRead(text);
    WriteRead(text);
    LastLost(front, last, x, ReadLines(last + x), key, line);
  }

  lemma {:induction false} LastLost(front: seq<string>, last: string, x: string, read: seq<string>, key: string,
        line: string)
    requires Open(last) && last != [] && |x| >= |line| && read != [] && |read[0]| > |last|
    requires '\n' in (front + read)[|front + read| - 1]
    requires WriteLines(front + read) == WriteLines(front) + (last + x)
    ensures !KeepsOthers(front + [last], front + read, key, line)
  {
    hide Reading, WriteLines;
    var before, after, n := front + [last], front + read, |front|;
    assert before[n] == last && after[n] == read[0];
    forall k: nat ensures !ChangedAt(before, after, k, key, line) {
      if ChangedAt(before, after, k, key, line) {
        assert after == front + [line];
        WriteAppended(front, [line]);
        WriteOne(line);
      }
    }
    forall k: nat ensures !AddedAt(before, after, k, line) {
      if AddedAt(before, after, k, line) && k <= n {
        AddedLast(before, after, k, line);
      }
    }
  }

  lemma {:induction false} AddedLast(before: seq<string>, after: seq<string>, k: nat, line: string)
    requires AddedAt(before, after, k, line) && k < |before|
    ensures after[|after| - 1] == before[|before| - 1]
  {
  }

  /**
   What the next command reads after a successful set has all other lines of the file exactly when the file has no more
   lines than the array holds, and the new line does not join a last line that has no newline.
   */
  lemma {:induction false} SetKeepsFile(text: string, section: string, key: string, value: string)
    requires IsCString(text) && IsCString(section) && IsCString(key) && IsCString(value)
    requires '\n' !in key && '\n' !in value && LineFits(key, value)
    requires SetFile(text, section, key, value).Some?
    ensures KeepsOthers(ReadLines(text), ReadLines(SetFile(text, section, key, value).value), key, NewLine(key, value))
            <==> |ReadLines(text)| <= 8192 && Apart(ReadLines(text), section, key)
  {
    NewLineComplete(key, value);
    NewLineText(key, value);
    var lines := ReadLines(text);
    hide ReadLines, WriteLines, SetLines, KeepsOthers, NewLine, Complete, Apart, Readable, AllComplete;
    ReadReadable(text);
    if |lines| > MAX_LINES {
      LongFileReads(text, section, key, value);
      KeepsNotFewer(lines, ReadLines(SetFile(text, section, key, value).value), key, NewLine(key, value));
    } else if Apart(lines, section, key) {
      ApartKeeps(lines, section, key, value);
    } else {
      JoinedLoses(lines, section, key, value);
    }
  }

  lemma {:induction false} KeepsNotFewer(before: seq<string>, after: seq<string>, key: string, line: string)
    ensures KeepsOthers(before, after, key, line) ==> |before| <= |after|
  {
  }

  // ----- files with more lines than the array holds -----

  /** A set can succeed there on a line among the first that sets the key already; the lines behind them are dropped. */
  lemma {:induction false} LongFileSet(text: string, section: string, key: string, value: string)
    requires |ReadLines(text)| > 8192
    ensures var sc := ScanTo(EditLines(text), 8192, HeaderText(section), key);
            && (SetFile(text, section, key, value).Some? <==> sc.keyLine >= 0)
            && (sc.keyLine >= 0 ==>
                  && sc.keyLine < 8192
                  && SetFile(text, section, key, value)
                     == Some(WriteLines(ReadLines(text)[..8192][sc.keyLine := NewLine(key, value)])))
  {
    hide ReadLines, WriteLines, ScanTo, NewLine, NewHeader, HeaderText, InsertPoint, Padding;
    ScanBounds(EditLines(text), 8192, HeaderText(section), key);
  }

  lemma {:induction false} LongFileReads(text: string, section: string, key: string, value: string)
    requires IsCString(text) && |ReadLines(text)| > 8192 && SetFile(text, section, key, value).Some?
    requires Complete(NewLine(key, value))
    ensures |ReadLines(SetFile(text, section, key, value).value)| == 8192
  {
    EditReadable(text);
    hide ReadLines, WriteLines, ScanTo, NewLine, HeaderText, Complete;
    var k := ScanTo(EditLines(text), 8192, HeaderText(section), key).keyLine;
    LongFileSet(text, section, key, value);
    var lines := ReadLines(text)[..8192][k := NewLine(key, value)];
    CompleteFile(lines);
    ReadWrite(lines);
  }

  lemma {:induction false} CompleteFile(lines: seq<string>)
    requires AllComplete(lines)
    ensures Readable(lines) && forall i | 0 <= i < |lines| :: FileLine(lines[i])
  {
  }

  /**
   A deletion succeeds there if and only if the section has its header among the first lines. It leaves of these what it
   leaves of a file that ends with them, and drops all lines behind.
   */
  lemma {:induction false} LongFileDel(text: string, section: string, key: Option<string>)
    requires IsCString(text) && |ReadLines(text)| > 8192
    ensures var first := ReadLines(text)[..8192];
            && (DelFile(text, section, key).Some? <==> !Without(first, HeaderText(section)))
            && (DelFile(text, section, key).Some? ==>
                  && DelLines(first, section, key).Some?
                  && ReadLines(DelFile(text, section, key).value) == DelLines(first, section, key).value
                  && |DelLines(first, section, key).value| <= 8192)
  {
    hide ReadLines, DelLines, DelFile, Without, HeaderText;
    DeleteMissing(text, section, key);
    if DelFile(text, section, key).Some? {
      DelFileReads(text, section, key);
    }
  }

  // ----- a key that does not survive -----

  lemma {:induction false} OneLineFile(line: string)
    requires Complete(line)
    ensures ReadLines(line) == [line] && (IsCString(line) ==> GoodFile(line))
  {
    hide Reading;
    ReadFirst(line, "");
    assert line + "" == line && [line][1..] == [];
    assert Headers([line]) == (if Reading(line).Header? then [Reading(line).text] else []) + Headers([]);
  }

  /** Setting a key that contains an equals sign succeeds, and the key cannot be read back. */
  lemma {:induction false} KeyWithEquals()
    ensures var text, section, key, value := "[s]\n", "s", "a=b", "v";
            && GoodFile(text) && SetFile(text, section, key, value).Some?
            && GetFile(SetFile(text, section, key, value).value, section, key) != Some(value)
  {
    var text, section, key, value := "[s]\n", "s", "a=b", "v";
    assert text[..3] == "[s]" && Complete(text);
    OneLineFile(text);
    RoomForSet([text], section, key, value);
    assert key[1] == '=' && !CleanKey(key);
    SetThenGetFile(text, section, key, value);
  }

  lemma {:induction false} RoomForSet(lines: seq<string>, section: string, key: string, value: string)
    requires |lines| + 2 < MAX_LINES
    ensures SetLines(lines, section, key, value).Some?
  {
    hide ScanTo, InsertPoint, Padding, NewLine, NewHeader, HeaderText;
    ScanBounds(lines, |lines|, HeaderText(section), key);
  }

  // ----- a last line without newline -----

  /** The lines of the next example before and after the set. */
  function OpenLines(): seq<string> {
    ["[t]\n", "a = 1"]
  }

  function JoinedLines(): seq<string> {
    ["[t]\n", "a = 1[s]\n", "k = v\n"]
  }

  lemma {:induction false} ExampleSays()
    ensures Reading("[t]\n") == Header("[t]") && Reading("a = 1") == Pair("a", "1")
    ensures Reading("a = 1[s]\n") == Pair("a", "1[s]") && Reading("k = v\n") == Pair("k", "v")
    ensures NewHeader("s") == "[s]\n" && NewLine("k", "v") == "k = v\n"
    ensures HeaderText("s") == "[s]" && HeaderText("t") == "[t]"
  {
    hide Reading;
    assert NewHeader("t") == "[t]\n" && NewHeader("s") == "[s]\n";
    assert NewLine("a", "1[s]") == "a = 1[s]\n" && NewLine("k", "v") == "k = v\n";
    assert NewLine("a", "1")[..5] == "a = 1";
    ReadingNewHeader("t");
    ReadingNewLine("a", "1[s]");
    ReadingNewLine("k", "v");
    FrontSays("a", "1", 5);
  }

  lemma {:induction false} ExampleReads()
    ensures ReadLines("[t]\na = 1") == OpenLines() && ReadLines("[t]\na = 1[s]\nk = v\n") == JoinedLines()
    ensures Readable(OpenLines()) && !Complete(OpenLines()[1])
  {
    hide ReadLines;
    var t, a, s, k := "[t]\n", "a = 1", "a = 1[s]\n", "k = v\n";
    assert t[..3] == "[t]" && a[..4] == "a = " && s[..8] == "a = 1[s]" && k[..5] == "k = v";
    ReadFirst(t, a);
    ReadFirst(a, "");
    ReadFirst(t, s + k);
    ReadFirst(s, k);
    ReadFirst(k, "");
    NothingToRead();
    assert t + a == "[t]\na = 1" && t + (s + k) == "[t]\na = 1[s]\nk = v\n" && a + "" == a && k + "" == k;
  }

  lemma {:induction false} ExampleGets()
    ensures OneHeaderEach(OpenLines()) && Without(OpenLines(), HeaderText("s"))
    ensures GetLines(OpenLines(), "t", "a") == Some("1") && GetLines(JoinedLines(), "t", "a") == Some("1[s]")
    ensures GetLines(JoinedLines(), "s", "k") == None
  {
    ExampleSays();
    hide Reading, HeaderText;
    var t, a, s, k := "[t]\n", "a = 1", "a = 1[s]\n", "k = v\n";
    assert OpenLines()[1..] == [a] && [a][1..] == [];
    assert JoinedLines()[1..] == [s, k] && [s, k][1..] == [k] && [k][1..] == [];
    assert Headers([a]) == [] && Headers(OpenLines()) == ["[t]"];
    FollowOutside(JoinedLines(), "[s]", "k");
  }

  lemma {:induction false} ExampleOpen()
    ensures !Apart(OpenLines(), "s", "k")
  {
    ExampleGets();
    ExampleReads();
    hide Reading, ReadLines, HeaderText, Without, Complete, FileLine;
    ScanNothing(OpenLines(), |OpenLines()|, HeaderText("s"), "k");
  }

  lemma {:induction false} ExampleSets()
    ensures SetLines(OpenLines(), "s", "k", "v").Some?
    ensures WriteLines(SetLines(OpenLines(), "s", "k", "v").value) == "[t]\na = 1[s]\nk = v\n"
  {
    ExampleSays();
    ExampleGets();
    ExampleReads();
    ExampleOpen();
    WriteRead("[t]\na = 1");
    hide Reading, ReadLines, NewHeader, NewLine, HeaderText, SetLines, Without, Apart, WriteLines, Complete, Readable;
    SetNewSection(OpenLines(), "s", "k", "v");
    OpenEnd(OpenLines(), "s", "k");
    assert OpenLines() + [] == OpenLines();
    WriteTail(OpenLines(), "[s]\n", "k = v\n");
    assert "[t]\na = 1" + ("[s]\n" + "k = v\n") == "[t]\na = 1[s]\nk = v\n";
  }

  /** A set of a missing section behind a last line without newline: the pair is not found, and a value changes. */
  lemma {:induction false} NewlineMissing()
    ensures var text, written := "[t]\na = 1", "[t]\na = 1[s]\nk = v\n";
            && GoodFile(text) && GetFile(text, "t", "a") == Some("1")
            && SetFile(text, "s", "k", "v") == Some(written)
            && !KeepsOthers(ReadLines(text), ReadLines(written), "k", NewLine("k", "v"))
            && GetFile(written, "s", "k") == None && GetFile(written, "t", "a") == Some("1[s]")
  {
    ExampleReads();
    ExampleGets();
    ExampleSets();
    ExampleOpen();
    hide ReadLines, WriteLines, SetLines, GetLines, OneHeaderEach, OpenLines, JoinedLines, Apart, KeepsOthers, NewLine;
    SetKeepsFile("[t]\na = 1", "s", "k", "v");
  }
}
