/** The same laws on whole files: what is written is what the next command reads. */
module IniRoundTrip {
  import opened Wrappers
  import opened IniText
  import opened IniGet
  import opened IniEdit
  import opened IniShape
  import opened IniFile
  import opened IniLaws

  // ----- reading and writing text -----

  /** fgets: up to and including a newline, at most LINE_ROOM characters. */
  function LineLength(text: string): (n: nat)
    ensures n <= |text| && n <= LINE_ROOM && (text != [] ==> n > 0)
  {
    var i := IndexOf(text, '\n');
    var n := if i < |text| then i + 1 else |text|;
    if n <= LINE_ROOM then n else LINE_ROOM
  }

  function ReadLines(text: string): seq<string> {
    if text == [] then [] else [text[..LineLength(text)]] + ReadLines(text[LineLength(text)..])
  }

  function WriteLines(lines: seq<string>): string {
    if lines == [] then [] else lines[0] + WriteLines(lines[1..])
  }

  /** A line that fgets returns as it is, whatever follows: it ends with a newline or fills the buffer. */
  predicate Complete(line: string) {
    FileLine(line) && (line[|line| - 1] == '\n' || |line| == 4095)
  }

  predicate AllComplete(lines: seq<string>) {
    forall i | 0 <= i < |lines| :: Complete(lines[i])
  }

  /** Only the last line of a file may lack its newline. */
  predicate Readable(lines: seq<string>) {
    && (forall i | 0 <= i < |lines| :: FileLine(lines[i]))
    && forall i | 0 <= i < |lines| - 1 :: Complete(lines[i])
  }

  lemma {:induction false} ReadFirst(line: string, more: string)
    requires Complete(line) || (FileLine(line) && more == "")
    ensures ReadLines(line + more) == [line] + ReadLines(more)
  {
    var text := line + more;
    assert text[..|line| - 1] == line[..|line| - 1];
    if line[|line| - 1] == '\n' {
      IndexOfIs(text, '\n', |line| - 1);
    } else {
      assert forall i | 0 <= i < |line| :: text[i] == line[i];
      assert forall i | 0 <= i < |line| - 1 :: line[i] == line[..|line| - 1][i];
      assert IndexOf(text, '\n') >= |line|;
    }
    assert text[..|line|] == line && text[|line|..] == more;
  }

  lemma {:induction false} ReadAppended(lines: seq<string>, rest: string)
    requires AllComplete(lines)
    ensures ReadLines(WriteLines(lines) + rest) == lines + ReadLines(rest)
  {
    hide ReadLines, Complete;
    if lines == [] {
      assert WriteLines(lines) + rest == rest;
    } else {
      hide WriteLines;
      var line, others := lines[0], WriteLines(lines[1..]);
      WriteFirst(lines);
      Associative(line, others, rest);
      ReadFirst(line, others + rest);
      ReadAppended(lines[1..], rest);
      Associative([line], lines[1..], ReadLines(rest));
      assert lines == [line] + lines[1..];
    }
  }

  lemma {:induction false} Associative<T>(a: seq<T>, b: seq<T>, c: seq<T>)
    ensures a + b + c == a + (b + c)
  {
  }

  lemma {:induction false} WriteFirst(lines: seq<string>)
    requires lines != []
    ensures WriteLines(lines) == lines[0] + WriteLines(lines[1..])
  {
  }

  lemma {:induction false} WriteAppended(a: seq<string>, b: seq<string>)
    ensures WriteLines(a + b) == WriteLines(a) + WriteLines(b)
  {
    if a == [] {
      assert a + b == b;
    } else {
      hide WriteLines;
      WriteFirst(a);
      WriteFirst(a + b);
      assert (a + b)[1..] == a[1..] + b;
      WriteAppended(a[1..], b);
      Associative(a[0], WriteLines(a[1..]), WriteLines(b));
    }
  }

  lemma {:induction false} WriteOne(line: string)
    ensures WriteLines([line]) == line
  {
    assert [line][1..] == [] && line + "" == line;
  }

  /** A file is read in lines of which all but the last are complete. */
  lemma {:induction false} ReadReadable(text: string)
    requires '\0' !in text
    ensures Readable(ReadLines(text))
  {
    hide FileLine, LineLength;
    if text != [] {
      var n := LineLength(text);
      var rest := ReadLines(text[n..]);
      FirstLine(text);
      ReadReadable(text[n..]);
      assert ReadLines(text) == [text[..n]] + rest;
    }
  }

  lemma {:induction false} FirstLine(text: string)
    requires '\0' !in text && text != []
    ensures FileLine(text[..LineLength(text)]) && '\0' !in text[LineLength(text)..]
    ensures text[LineLength(text)..] != [] ==> Complete(text[..LineLength(text)])
  {
    var n := LineLength(text);
    var line := text[..n];
    assert forall j | 0 <= j < n - 1 :: line[..n - 1][j] == text[j];
    assert forall j | 0 <= j < n :: line[j] == text[j];
    assert forall j | 0 <= j < |text[n..]| :: text[n..][j] == text[n + j];
  }

  /** Lines are read back as they were written if and only if none but the last lacks its newline. */
  lemma {:induction false} ReadWrite(lines: seq<string>)
    requires forall i | 0 <= i < |lines| :: FileLine(lines[i])
    ensures ReadLines(WriteLines(lines)) == lines <==> Readable(lines)
  {
    hide ReadLines, WriteLines, FileLine;
    assert IsCString(WriteLines(lines)) by {
      FileCStrings(lines);
      WriteCString(lines);
    }
    ReadReadable(WriteLines(lines));
    if Readable(lines) && lines != [] {
      var front, last := lines[..|lines| - 1], lines[|lines| - 1];
      assert lines == front + [last];
      WriteAppended(front, [last]);
      WriteOne(last);
      ReadAppended(front, last);
      ReadFirst(last, "");
      assert last + "" == last && [last] + ReadLines("") == [last] by { NothingToRead(); }
    } else if lines == [] {
      NothingToRead();
    }
  }

  lemma {:induction false} NothingToRead()
    ensures ReadLines("") == [] && WriteLines([]) == ""
  {
  }

  lemma {:induction false} FileCStrings(lines: seq<string>)
    requires forall i | 0 <= i < |lines| :: FileLine(lines[i])
    ensures forall i | 0 <= i < |lines| :: IsCString(lines[i])
  {
  }

  predicate IsCString(s: string) {
    '\0' !in s
  }

  lemma {:induction false} WriteCString(lines: seq<string>)
    requires forall i | 0 <= i < |lines| :: IsCString(lines[i])
    ensures IsCString(WriteLines(lines))
  {
    if lines != [] {
      WriteCString(lines[1..]);
    }
  }

  /** Writing what was read gives the text back. */
  lemma {:induction false} WriteRead(text: string)
    ensures WriteLines(ReadLines(text)) == text
  {
    if text != [] {
      var n := LineLength(text);
      WriteRead(text[n..]);
      assert text == text[..n] + text[n..];
      assert ReadLines(text)[1..] == ReadLines(text[n..]);
    }
  }

  // ----- commands on files -----

  function GetFile(text: string, section: string, key: string): Option<string> {
    GetLines(ReadLines(text), section, key)
  }

  /** The editing commands hold at most MAX_LINES lines. */
  function EditLines(text: string): (lines: seq<string>)
    ensures |lines| <= MAX_LINES
  {
    var lines := ReadLines(text);
    if |lines| <= MAX_LINES then lines else lines[..MAX_LINES]
  }

  function SetFile(text: string, section: string, key: string, value: string): Option<string> {
    var r := SetLines(EditLines(text), section, key, value);
    if r.None? then None else Some(WriteLines(r.value))
  }

  function DelFile(text: string, section: string, key: Option<string>): Option<string> {
    var r := DelLines(EditLines(text), section, key);
    if r.None? then None else Some(WriteLines(r.value))
  }

  /** One header for each section, and no more lines than the array holds. The last line may lack its newline. */
  predicate GoodFile(text: string) {
    IsCString(text) && |ReadLines(text)| <= 8192 && OneHeaderEach(ReadLines(text))
  }

  /** What a set writes stays apart from a last line without newline. */
  ghost predicate Apart(lines: seq<string>, section: string, key: string) {
    ScanBounds(lines, |lines|, HeaderText(section), key);
    var sc := ScanTo(lines, |lines|, HeaderText(section), key);
    || lines == [] || Complete(lines[|lines| - 1])
    || sc.keyLine >= 0
    || (sc.start >= 0 && InsertPoint(lines, sc.start, sc.end, sc.end) < |lines|)
  }

  lemma {:induction false} NewLineComplete(key: string, value: string)
    requires '\n' !in key && '\n' !in value && LineFits(key, value) && IsCString(key) && IsCString(value)
    ensures Complete(NewLine(key, value))
  {
    var line := key + " = " + value + "\n";
    assert line[..|line| - 1] == key + " = " + value;
  }

  lemma {:induction false} NewHeaderComplete(section: string)
    requires '\n' !in section && NewHeaderFits(section) && IsCString(section)
    ensures Complete(NewHeader(section))
  {
    var line := "[" + section + "]\n";
    assert line[..|line| - 1] == "[" + section + "]";
  }

  lemma {:induction false} PaddingComplete(lines: seq<string>)
    ensures AllComplete(Padding(lines))
  {
    assert Complete("\n");
  }

  lemma {:induction false} ReadableParts(lines: seq<string>)
    requires Readable(lines)
    ensures AllComplete(lines) <==> lines == [] || Complete(lines[|lines| - 1])
    ensures forall at: nat | at <= |lines| :: Readable(lines[at..]) && (at < |lines| ==> AllComplete(lines[..at]))
  {
  }

  lemma {:induction false} ReadableConcat(a: seq<string>, b: seq<string>)
    requires AllComplete(a) && Readable(b)
    ensures Readable(a + b)
  {
    assert forall i | 0 <= i < |a| :: FileLine(a[i]);
    hide Complete, FileLine;
    var s := a + b;
    forall i | 0 <= i < |s| ensures FileLine(s[i]) && (i < |s| - 1 ==> Complete(s[i])) {
      if i >= |a| {
        assert s[i] == b[i - |a|];
      }
    }
  }

  /** A set that stays apart writes lines that are read back. */
  lemma {:induction false} SetReadable(lines: seq<string>, section: string, key: string, value: string)
    requires Readable(lines) && Apart(lines, section, key) && SetLines(lines, section, key, value).Some?
    requires Complete(NewLine(key, value))
    requires Without(lines, HeaderText(section)) ==> Complete(NewHeader(section))
    ensures Readable(SetLines(lines, section, key, value).value)
  {
    hide FileLine, ScanTo, InsertPoint, NewLine, NewHeader, HeaderText, Padding, Without;
    var h, line := HeaderText(section), NewLine(key, value);
    ScanBounds(lines, |lines|, h, key);
    ScanMissing(lines, h, key);
    ReadableParts(lines);
    var sc := ScanTo(lines, |lines|, h, key);
    assert FileLine(line);
    hide Complete;
    if sc.start >= 0 && sc.keyLine < 0 {
      var at := InsertPoint(lines, sc.start, sc.end, sc.end);
      hide Readable;
      ReadableConcat([line], lines[at..]);
      ReadableConcat(lines[..at], [line] + lines[at..]);
      assert lines[..at] + [line] + lines[at..] == lines[..at] + ([line] + lines[at..]);
    } else if sc.keyLine < 0 {
      PaddingComplete(lines);
      ReadableConcat(lines + Padding(lines), [NewHeader(section), line]);
    }
  }

  /** A successful set with storable arguments leaves one header for each section. */
  lemma {:induction false} SetKeepsHeaders(lines: seq<string>, section: string, key: string, value: string)
    requires OneHeaderEach(lines) && Storable(section, key, value) && Fits(lines, section, key, value)
    requires SetLines(lines, section, key, value).Some?
    ensures OneHeaderEach(SetLines(lines, section, key, value).value)
  {
    hide Reading, NewLine, NewHeader, HeaderText, SetLines, Padding, Cut.Whole, PlaceIn;
    var o := SetOutcome(lines, section, key, value);
    var b, i := o.cut.body, o.index;
    ReadingNewLine(key, value);
    match o.how
    case Replaced(was) =>
      NoHeaderUpdate(b, i, was);
      BodyKeepsHeaders(o.cut, b[i := was]);
    case Inserted =>
      BodyKeepsHeaders(o.cut, b[..i] + b[i + 1..]);
    case Appended(_) =>
      AppendDistinct(o, lines, HeaderText(section));
  }


  lemma {:induction false} AppendDistinct(o: Outcome, lines: seq<string>, h: string)
    requires OneHeaderEach(lines) && Without(lines, h)
    requires o.cut.before == lines + Padding(lines) && Reading(o.cut.header) == Header(h) && NoHeader(o.cut.body)
          && o.cut.after == []
    ensures OneHeaderEach(o.cut.Whole())
  {
    hide Reading, Cut.Whole, Padding;
    HeadersOfCut(o.cut);
    HeadersConcat(lines, Padding(lines));
    PaddingSaysNothing(lines, h);
    NoHeaders(Padding(lines));
    WithoutHeader(lines, h);
    assert Headers(o.cut.Whole()) == Headers(lines) + [h];
  }

  /** The next command reads exactly the lines that a set has written, if it stays apart from an open last line. */
  lemma {:induction false} SetFileReads(text: string, section: string, key: string, value: string)
    requires GoodFile(text) && Apart(ReadLines(text), section, key)
    requires Storable(section, key, value) && Fits(ReadLines(text), section, key, value)
    requires IsCString(section) && IsCString(key) && IsCString(value)
    requires SetFile(text, section, key, value).Some?
    ensures SetLines(ReadLines(text), section, key, value).Some?
    ensures ReadLines(SetFile(text, section, key, value).value) == SetLines(ReadLines(text), section, key, value).value
    ensures OneHeaderEach(ReadLines(SetFile(text, section, key, value).value))
  {
    NewLineComplete(key, value);
    var lines := ReadLines(text);
    if Without(lines, HeaderText(section)) {
      NewHeaderComplete(section);
    }
    hide SetLines, ReadLines, WriteLines, OneHeaderEach, Apart, Without, NewLine, NewHeader, HeaderText, Complete,
         FileLine;
    ReadReadable(text);
    SetReadable(lines, section, key, value);
    SetKeepsHeaders(lines, section, key, value);
    ReadWrite(SetLines(lines, section, key, value).value);
  }

  /** On files too, a set changes no other section and no other key. */
  lemma {:induction false} SetFramesFile(text: string, section: string, key: string, value: string,
        section': string, key': string)
    requires GoodFile(text) && Apart(ReadLines(text), section, key)
    requires Storable(section, key, value) && Fits(ReadLines(text), section, key, value)
    requires IsCString(section) && IsCString(key) && IsCString(value)
    requires SetFile(text, section, key, value).Some?
    requires HeaderText(section') != HeaderText(section) || key' != key
    ensures GetFile(SetFile(text, section, key, value).value, section', key') == GetFile(text, section', key')
  {
    hide SetLines, GetLines, ReadLines, WriteLines, OneHeaderEach, Apart, Storable, HeaderText;
    SetFileReads(text, section, key, value);
    SetFrames(ReadLines(text), section, key, value, section', key');
  }

  /** Setting an absent key in an existing section and deleting it restores the file exactly. */
  lemma {:induction false} SetThenDeleteFile(text: string, section: string, key: string, value: string)
    requires GoodFile(text) && Apart(ReadLines(text), section, key)
    requires Storable(section, key, value) && Fits(ReadLines(text), section, key, value)
    requires IsCString(section) && IsCString(key) && IsCString(value)
    requires SetFile(text, section, key, value).Some?
    requires !Without(ReadLines(text), HeaderText(section)) && GetFile(text, section, key) == None
    ensures DelFile(SetFile(text, section, key, value).value, section, Some(key)) == Some(text)
  {
    hide GetLines, ReadLines, WriteLines, OneHeaderEach, Apart, Storable, HeaderText, DelLines, Without,
          SetLines;
    SetFileReads(text, section, key, value);
    SetThenDelete(ReadLines(text), section, key, value);
    SetCount(ReadLines(text), section, key, value);
    WriteRead(text);
  }

  lemma {:induction false} SetCount(lines: seq<string>, section: string, key: string, value: string)
    requires |lines| <= MAX_LINES && SetLines(lines, section, key, value).Some?
    ensures |SetLines(lines, section, key, value).value| <= MAX_LINES
  {
    hide ScanTo, InsertPoint, HeaderText, NewLine, NewHeader, Trim;
    ScanBounds(lines, |lines|, HeaderText(section), key);
  }
}
