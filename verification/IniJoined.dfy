/**
 A last line without newline, and what a set makes of it: the new line or header behind it is read as part of it.  With
 that, what the next get answers after any successful set is known exactly.
 */
module IniJoined {
  import opened Wrappers
  import opened IniText
  import opened IniGet
  import opened IniEdit
  import opened IniShape
  import opened IniFile
  import opened IniParts
  import opened IniLaws
  import opened IniRoundTrip

  /** What a line can be before its newline, nothing included. */
  predicate Open(line: string) {
    '\n' !in line && |line| < 4095
  }

  // ----- reading behind an open line -----

  lemma {:induction false} NewLineEnds(key: string, value: string)
    requires CleanKey(key) && CleanValue(value) && LineFits(key, value) && IsCString(key) && IsCString(value)
    ensures var line := NewLine(key, value);
            Complete(line) && line[|line| - 1] == '\n' && |line| == |key| + |value| + 4
  {
    NewLineText(key, value);
    NewLineComplete(key, value);
  }

  /** How much of n characters is read on the same line as `last`. */
  function Taken(last: string, n: nat): (j: nat)
    requires Open(last)
    ensures j <= n && (n > 0 ==> j > 0)
  {
    if |last| + n <= LINE_ROOM then n else LINE_ROOM - |last|
  }

  lemma {:induction false} ReadOpen(last: string, x: string, n: nat)
    requires Open(last) && 0 < n <= |x| && '\n' !in x[..n - 1] && (n == |x| || x[n - 1] == '\n')
    ensures var j := Taken(last, n); ReadLines(last + x) == [last + x[..j]] + ReadLines(x[j..])
  {
    hide LineLength;
    var text, j := last + x, Taken(last, n);
    OpenLength(last, x, n);
    assert text[..|last| + j] == last + x[..j] && text[|last| + j..] == x[j..];
  }

  lemma {:induction false} OpenLength(last: string, x: string, n: nat)
    requires Open(last) && 0 < n <= |x| && '\n' !in x[..n - 1] && (n == |x| || x[n - 1] == '\n')
    ensures LineLength(last + x) == |last| + Taken(last, n)
  {
    hide IndexOf;
    var text, front := last + x, last + x[..n - 1];
    assert text[..|front|] == front && '\n' !in front;
    assert text[|front|] == x[n - 1];
    if x[n - 1] == '\n' {
      IndexOfIs(text, '\n', |front|);
    } else {
      assert '\n' !in text;
    }
  }

  lemma {:induction false} ReadRest(line: string, m: nat)
    requires Complete(line) && line[|line| - 1] == '\n' && m <= |line|
    ensures ReadLines(line[m..]) == if m < |line| then [line[m..]] else []
  {
    var z := line[m..];
    if m < |line| {
      assert forall i | 0 <= i < |z| - 1 :: z[i] == line[..|line| - 1][m + i];
      ReadFirst(z, "");
      assert z + "" == z;
    }
  }

  // ----- what a get can find -----

  lemma {:induction false} FollowSaysWhere(lines: seq<string>, inside: bool, h: string, key: string)
    ensures var p := Follow(Going(inside), lines, h, key);
            p.Done? && p.answer.Some? ==>
              && (inside || exists i :: 0 <= i < |lines| && Reading(lines[i]) == Header(h))
              && exists i :: 0 <= i < |lines| && Reading(lines[i]) == Pair(key, p.answer.value)
  {
    hide Reading;
    var p := Follow(Going(inside), lines, h, key);
    if lines != [] {
      var q := Look(Reading(lines[0]), inside, h, key);
      if q.Going? {
        FollowSaysWhere(lines[1..], q.inside, h, key);
        assert forall i | 0 <= i < |lines[1..]| :: lines[1..][i] == lines[i + 1];
      }
    }
  }

  /** Behind lines that do not enter the section, no answer comes from one line followed by others without the pair. */
  lemma {:induction false} NoAnswer(lines: seq<string>, h: string, key: string, value: string)
    requires forall i | 0 < i < |lines| :: Reading(lines[i]) != Pair(key, value)
    ensures Follow(Going(false), lines, h, key) != Done(Some(value))
  {
    hide Reading;
    if lines != [] {
      var p := Look(Reading(lines[0]), false, h, key);
      FollowSaysWhere(lines[1..], p.inside, h, key);
    }
  }

  /** A line is longer than the key and the value read from it. */
  lemma {:induction false} PairLength(line: string)
    requires Reading(line).Pair?
    ensures |Reading(line).key| + |Reading(line).value| + 1 <= |line|
  {
    var i := ValueBehind(line);
    TrimSame(line[..i]);
    TrimSame(line[i + 1..]);
  }

  lemma {:induction false} LinesShorter(text: string, j: nat)
    requires j < |ReadLines(text)|
    ensures |ReadLines(text)[j]| <= |text|
  {
    hide LineLength;
    var n := LineLength(text);
    if j > 0 {
      assert ReadLines(text)[j] == ReadLines(text[n..])[j - 1];
      LinesShorter(text[n..], j - 1);
    }
  }

  /** A newline at the end, if anywhere. */
  predicate OneLine(text: string) {
    text != [] ==> '\n' !in text[..|text| - 1]
  }

  /** What does not fit on the first line of a text is too short for the pair, and the first line comes too early. */
  lemma {:induction false} SpillsOver(text: string, h: string, key: string, value: string)
    requires OneLine(text) && |text| < LINE_ROOM + 1 + |key| + |value|
    ensures Follow(Going(false), ReadLines(text), h, key) != Done(Some(value))
  {
    hide Reading, Follow;
    var lines := ReadLines(text);
    if text != [] {
      ReadOpen("", text, |text|);
      assert "" + text == text;
      var n := Taken("", |text|);
      forall j | 0 < j < |lines| ensures Reading(lines[j]) != Pair(key, value) {
        LinesShorter(text[n..], j - 1);
        if Reading(lines[j]).Pair? {
          PairLength(lines[j]);
        }
      }
    }
    NoAnswer(lines, h, key, value);
  }

  /** Only storable sections, keys and values are ever found in a file. */
  lemma {:induction false} GetStorable(text: string, section: string, key: string)
    requires IsCString(text) && HeaderFits(section)
    ensures GetFile(text, section, key).Some? ==> Storable(section, key, GetFile(text, section, key).value)
  {
    hide Reading, HeaderText, Follow, CleanKey, CleanValue, CleanSection;
    var lines, h := ReadLines(text), HeaderText(section);
    ReadReadable(text);
    FollowSaysWhere(lines, false, h, key);
    if GetFile(text, section, key).Some? {
      var i :| 0 <= i < |lines| && Reading(lines[i]) == Header(h);
      var j :| 0 <= j < |lines| && Reading(lines[j]) == Pair(key, GetFile(text, section, key).value);
      ReadHeaderClean(lines[i], section);
      ReadPairClean(lines[j]);
    }
  }

  lemma {:induction false} SetLinesCString(lines: seq<string>, section: string, key: string, value: string)
    requires forall i | 0 <= i < |lines| :: IsCString(lines[i])
    requires IsCString(section) && IsCString(key) && IsCString(value)
    requires SetLines(lines, section, key, value).Some?
    ensures forall i | 0 <= i < |SetLines(lines, section, key, value).value| ::
              IsCString(SetLines(lines, section, key, value).value[i])
  {
    assert IsCString(NewLine(key, value)) && IsCString(NewHeader(section));
    PlainNewline();
    hide Reading, ScanTo, InsertPoint, HeaderText, Trim, NewLine, NewHeader, IsCString;
    ScanBounds(lines, |lines|, HeaderText(section), key);
    var r := SetLines(lines, section, key, value).value;
    forall i | 0 <= i < |r| ensures r[i] in lines || r[i] in ["\n", NewHeader(section), NewLine(key, value)] {
    }
    assert forall x | x in lines :: IsCString(x);
  }

  lemma {:induction false} PlainNewline()
    ensures IsCString("\n")
  {
  }

  // ----- a pair behind an open line -----

  /**
   A pair written behind an open last line of its section is found if the line is blank and leaves room for all of the
   value; or if the key is empty and the line leaves room for nothing but the blank before the equals sign.
   */
  predicate FoundInserted(last: string, key: string, value: string) {
    || (Trim(last) == [] && |last| + ValueEnd(key, value) <= 4095)
    || (key == [] && |last| + 1 == 4095)
  }

  /** An open line in a section that does not set the key: its header, or a line below it. */
  ghost predicate InSection(last: string, inside: bool, h: string, key: string) {
    && Open(last) && !SetsKey(Reading(last), key)
    && (Reading(last) == Header(h) || (inside && !Reading(last).Header?))
  }

  /** What the scan answers on the line that a new line has joined, and on the rest of the new line. */
  lemma {:induction false} JoinedAnswer(last: string, inside: bool, h: string, key: string, value: string, j: nat)
    requires InSection(last, inside, h, key) && CleanKey(key) && CleanValue(value) && LineFits(key, value) && ']' in h
    requires j == Taken(last, |NewLine(key, value)|)
    ensures var line := NewLine(key, value);
            var lines := [last + line[..j]] + if j < |line| then [line[j..]] else [];
            Follow(Going(inside), lines, h, key) == Done(Some(value)) <==> FoundInserted(last, key, value)
  {
    hide Reading, Trim, NewLine, Follow;
    var line := NewLine(key, value);
    var first, rest := last + line[..j], if j < |line| then [line[j..]] else [];
    NewLineText(key, value);
    FollowConcat(Going(inside), [first], rest, h, key);
    FollowOne(Going(inside), first, h, key);
    if key == [] && j == 1 {
      assert line[..1] == " ";
      SpacesBehind(last, " ");
      FollowOne(Going(true), line[1..], h, key);
      RestSays(key, value, 1);
    } else if Trim(last) == [] && j >= ValueEnd(key, value) {
      BlankSpaces(last);
      SpacesBefore(last, line[..j]);
      FrontSays(key, value, j);
      BlankLast(last);
      FollowDone(rest, value, h, key);
    } else {
      FirstSays(last, key, value, j);
      if j < |line| {
        RestSays(key, value, j);
      }
      FollowSaysWhere([first] + rest, inside, h, key);
    }
  }

  lemma {:induction false} FollowDone(lines: seq<string>, value: string, h: string, key: string)
    ensures Follow(Done(Some(value)), lines, h, key) == Done(Some(value))
  {
  }

  lemma {:induction false} BlankLast(last: string)
    ensures Reading(last) == Blank <==> Trim(last) == []
  {
  }

  /** The joined line says the pair only if the open line is blank and all of the value is in it. */
  lemma {:induction false} FirstSays(last: string, key: string, value: string, j: nat)
    requires !SetsKey(Reading(last), key) && CleanKey(key) && CleanValue(value) && LineFits(key, value)
    requires j <= |NewLine(key, value)| && (Trim(last) == [] ==> j < ValueEnd(key, value))
    ensures Reading(last + NewLine(key, value)[..j]) != Pair(key, value)
  {
    hide Reading, Trim;
    if Trim(last) == [] {
      BlankSpaces(last);
      SpacesBefore(last, NewLine(key, value)[..j]);
      FrontSays(key, value, j);
    } else {
      NoNewKey(last, key, value, j);
    }
  }

  lemma {:induction false} PairBehind(front: seq<string>, inside: bool, last: string, h: string, key: string,
        value: string)
    requires AllComplete(front) && Follow(Going(false), front, h, key) == Going(inside)
    requires InSection(last, inside, h, key) && ']' in h
    requires CleanKey(key) && CleanValue(value) && LineFits(key, value) && IsCString(key) && IsCString(value)
    ensures var lines := ReadLines(WriteLines(front) + (last + NewLine(key, value)));
            Follow(Going(false), lines, h, key) == Done(Some(value)) <==> FoundInserted(last, key, value)
  {
    hide Reading, Trim, Follow, ReadLines, WriteLines, AllComplete, FoundInserted, InSection;
    var line := NewLine(key, value);
    NewLineEnds(key, value);
    hide NewLine;
    assert Open(last) && line[|line| - 1] == '\n' by { OpenInSection(last, inside, h, key); }
    var j := Taken(last, |line|);
    ReadAppended(front, last + line);
    ReadOpen(last, line, |line|);
    ReadRest(line, j);
    FollowConcat(Going(false), front, [last + line[..j]] + ReadLines(line[j..]), h, key);
    JoinedAnswer(last, inside, h, key, value, j);
  }

  lemma {:induction false} OpenInSection(last: string, inside: bool, h: string, key: string)
    requires InSection(last, inside, h, key)
    ensures Open(last)
  {
  }

  // ----- a header and a pair behind an open line -----

  /**
   A header and a pair written behind an open last line are found if that line is blank and leaves room for the header.
   A header without its newline has to fill the line, up to the blank before the sign of an empty key.
   */
  predicate FoundAppended(last: string, section: string, key: string) {
    var end := |last| + |section| + 2;
    && Trim(last) == []
    && if NewHeaderFits(section) then end <= 4095
       else end == 4095 || (key == [] && end + 1 == 4095)
  }

  /** An open line before the section. */
  ghost predicate Before(last: string, h: string) {
    Open(last) && Reading(last) != Header(h)
  }

  /** The line that a header has joined is that header exactly when it was blank and has all of it. */
  lemma {:induction false} JoinedHeader(last: string, section: string, x: string, j: nat)
    requires CleanSection(section) && HeaderFits(section) && HeaderText(section) <= x && j <= |x|
    requires Before(last, HeaderText(section))
    ensures Reading(last + x[..j]) == Header(HeaderText(section)) <==> Trim(last) == [] && j >= |section| + 2
  {
    hide Reading, Trim;
    var h := HeaderText(section);
    if Trim(last) == [] {
      BlankSpaces(last);
      SpacesBefore(last, x[..j]);
      HeaderFront(section, x, j);
    } else {
      assert h == "[" + section + "]";
      assert forall m | 0 <= m < j && m < |h| - 1 :: x[..j][m] == h[m] != ']';
      NoNewHeader(last, h, x[..j]);
    }
  }

  lemma {:induction false} HeaderBehind(last: string, section: string, key: string, value: string)
    requires Storable(section, key, value) && NewHeaderFits(section) && LineFits(key, value)
    requires IsCString(section) && IsCString(key) && IsCString(value) && Before(last, HeaderText(section))
    ensures var lines := ReadLines(last + (NewHeader(section) + NewLine(key, value)));
            Follow(Going(false), lines, HeaderText(section), key) == Done(Some(value))
            <==> FoundAppended(last, section, key)
  {
    var h, header, line := HeaderText(section), NewHeader(section), NewLine(key, value);
    assert header == h + "\n" && h == "[" + section + "]";
    NewHeaderComplete(section);
    NewLineEnds(key, value);
    ReadingNewLine(key, value);
    hide Reading, Trim, Follow, ReadLines, NewLine, NewHeader, Complete, HeaderText, CleanKey, CleanValue, CleanSection;
    var j := Taken(last, |header|);
    SplitHeader(last, header, line);
    var first, rest := last + header[..j], if j < |header| then [header[j..]] else [];
    JoinedHeader(last, section, header, j);
    FollowFirst(first, rest + [line], h, key);
    var p := Going(Reading(first) == Header(h));
    FollowConcat(p, rest, [line], h, key);
    if j < |header| {
      FollowOne(p, header[j..], h, key);
      HeaderRest(section, j);
      if j >= |h| {
        assert header[j..] == "\n";
        BlankLine();
      }
    } else {
      FollowNone(p, h, key);
    }
    FollowOne(p, line, h, key);
  }

  lemma {:induction false} FollowNone(p: Progress, h: string, key: string)
    ensures Follow(p, [], h, key) == p
  {
  }

  lemma {:induction false} SplitHeader(last: string, header: string, line: string)
    requires Open(last) && Complete(header) && header[|header| - 1] == '\n'
    requires Complete(line) && line[|line| - 1] == '\n'
    ensures var j := Taken(last, |header|);
            ReadLines(last + (header + line))
            == [last + header[..j]] + ((if j < |header| then [header[j..]] else []) + [line])
  {
    hide ReadLines;
    var j, x := Taken(last, |header|), header + line;
    assert x[..|header| - 1] == header[..|header| - 1];
    assert x[|header| - 1] == header[|header| - 1];
    ReadOpen(last, x, |header|);
    assert x[..j] == header[..j] && x[j..] == header[j..] + line;
    hide Open, Taken;
    ReadRestAnd(header, j, line);
  }

  lemma {:induction false} ReadRestAnd(header: string, j: nat, line: string)
    requires Complete(header) && header[|header| - 1] == '\n' && j <= |header|
    requires Complete(line) && line[|line| - 1] == '\n'
    ensures ReadLines(header[j..] + line) == (if j < |header| then [header[j..]] else []) + [line]
  {
    hide ReadLines;
    ReadRest(line, 0);
    assert line[0..] == line;
    if j < |header| {
      RestComplete(header, j);
      hide Complete;
      ReadFirst(header[j..], line);
    } else {
      assert header[j..] + line == line;
    }
  }

  lemma {:induction false} RestComplete(line: string, m: nat)
    requires Complete(line) && line[|line| - 1] == '\n' && m < |line|
    ensures Complete(line[m..])
  {
    var z := line[m..];
    assert forall i | 0 <= i < |z| - 1 :: z[i] == line[..|line| - 1][m + i];
  }

  /** A header without its newline takes the pair with it, unless the line ends in time. */
  lemma {:induction false} LongHeaderBehind(last: string, section: string, key: string, value: string)
    requires Storable(section, key, value) && HeaderFits(section) && !NewHeaderFits(section) && LineFits(key, value)
    requires IsCString(key) && IsCString(value) && Before(last, HeaderText(section))
    ensures var lines := ReadLines(last + (NewHeader(section) + NewLine(key, value)));
            Follow(Going(false), lines, HeaderText(section), key) == Done(Some(value))
            <==> FoundAppended(last, section, key)
  {
    var h, line := HeaderText(section), NewLine(key, value);
    LongHeaderText(section);
    NewLineEnds(key, value);
    var x := h + line;
    var j := Taken(last, |x|);
    TakenLong(last, section, key, |line|);
    hide Reading, Trim, Follow, ReadLines, NewLine, NewHeader, Complete, HeaderText, CleanKey, CleanValue, CleanSection,
         FoundAppended, Taken, NewHeaderFits, OneLine, Trimmed, IsCString;
    LongHeaderRead(last, h, line, j);
    JoinedHeader(last, section, x, j);
    FollowFirst(last + x[..j], ReadLines(x[j..]), h, key);
    if Reading(last + x[..j]) == Header(h) {
      AnswerInRest(key, value, h, j - |h|);
    } else {
      SpillsOver(x[j..], h, key, value);
    }
  }

  /** Outside the section, the first line matters only if it is the header. */
  lemma {:induction false} FollowFirst(first: string, rest: seq<string>, h: string, key: string)
    ensures Follow(Going(false), [first] + rest, h, key) == Follow(Going(Reading(first) == Header(h)), rest, h, key)
  {
    hide Reading;
    FollowConcat(Going(false), [first], rest, h, key);
    FollowOne(Going(false), first, h, key);
  }

  /** Where a blank line takes all of a header and none of the pair but a blank. */
  lemma {:induction false} TakenLong(last: string, section: string, key: string, n: nat)
    requires Open(last) && HeaderFits(section) && !NewHeaderFits(section) && n >= 2
    ensures var m := Taken(last, |section| + 2 + n) - (|section| + 2);
            FoundAppended(last, section, key) <==> Trim(last) == [] && (m == 0 || (key == [] && m == 1))
  {
    hide Trim;
  }

  lemma {:induction false} LongHeaderRead(last: string, h: string, line: string, j: nat)
    requires Open(last) && '\n' !in h && Complete(line) && line[|line| - 1] == '\n' && j == Taken(last, |h + line|)
    ensures var x := h + line;
            && 0 < j <= |x| && ReadLines(last + x) == [last + x[..j]] + ReadLines(x[j..])
            && (j >= |h| ==> x[j..] == line[j - |h|..])
            && OneLine(x[j..])
  {
    hide ReadLines;
    var x := h + line;
    assert x[..|x| - 1] == h + line[..|line| - 1];
    ReadOpen(last, x, |x|);
    assert forall i | 0 <= i < |x| - 1 :: x[i] == x[..|x| - 1][i];
  }

  /** Inside the section, what is left of a new line gives the answer if all of it is left or all that matters. */
  lemma {:induction false} AnswerInRest(key: string, value: string, h: string, m: nat)
    requires CleanKey(key) && CleanValue(value) && LineFits(key, value) && IsCString(key) && IsCString(value)
    requires m <= |NewLine(key, value)|
    ensures Follow(Going(true), ReadLines(NewLine(key, value)[m..]), h, key) == Done(Some(value))
            <==> m == 0 || (key == [] && m == 1)
  {
    var line := NewLine(key, value);
    NewLineEnds(key, value);
    ReadingNewLine(key, value);
    hide Reading, Trim, Follow, ReadLines, NewLine, Complete, CleanKey, CleanValue;
    ReadRest(line, m);
    if m < |line| {
      FollowOne(Going(true), line[m..], h, key);
      if m > 0 {
        RestSays(key, value, m);
      }
      assert line[0..] == line;
    } else {
      FollowNone(Going(true), h, key);
    }
  }

  lemma {:induction false} LongHeaderText(section: string)
    requires CleanSection(section) && HeaderFits(section) && !NewHeaderFits(section)
    ensures NewHeader(section) == HeaderText(section) && |HeaderText(section)| == |section| + 2 == HEADER_ROOM
    ensures '\n' !in HeaderText(section)
  {
    assert ("[" + section + "]\n")[..HEADER_ROOM] == "[" + section + "]";
  }

  lemma {:induction false} SectionBehind(front: seq<string>, last: string, section: string, key: string, value: string)
    requires AllComplete(front) && Without(front, HeaderText(section)) && Before(last, HeaderText(section))
    requires Storable(section, key, value) && HeaderFits(section) && LineFits(key, value)
    requires IsCString(section) && IsCString(key) && IsCString(value)
    ensures var text := WriteLines(front) + (last + (NewHeader(section) + NewLine(key, value)));
            GetFile(text, section, key) == Some(value) <==> FoundAppended(last, section, key)
  {
    hide Reading, Follow, ReadLines, WriteLines, AllComplete, Storable, NewHeader, NewLine, HeaderText, Without,
         FoundAppended;
    var h, tail := HeaderText(section), last + (NewHeader(section) + NewLine(key, value));
    ReadAppended(front, tail);
    FollowConcat(Going(false), front, ReadLines(tail), h, key);
    FollowOutside(front, h, key);
    if NewHeaderFits(section) {
      HeaderBehind(last, section, key, value);
    } else {
      LongHeaderBehind(last, section, key, value);
    }
  }

  // ----- get after set -----

  /** A set of a missing section whose header has no room for its newline loses the pair: it ends up in the header. */
  lemma {:induction false} LongNewHeader(text: string, section: string, key: string, value: string)
    requires GoodFile(text) && AllComplete(ReadLines(text)) && Storable(section, key, value) && LineFits(key, value)
    requires HeaderFits(section) && !NewHeaderFits(section) && Without(ReadLines(text), HeaderText(section))
    requires IsCString(section) && IsCString(key) && IsCString(value)
    requires SetFile(text, section, key, value).Some?
    ensures GetFile(SetFile(text, section, key, value).value, section, key) != Some(value)
  {
    hide Reading, ReadLines, WriteLines, HeaderText, NewHeader, NewLine, Padding, SetLines, Storable, Without,
         GetFile, Complete;
    var lines, h := ReadLines(text), HeaderText(section);
    var front := lines + Padding(lines);
    SetNewSection(lines, section, key, value);
    WriteTail(front, NewHeader(section), NewLine(key, value));
    PaddingComplete(lines);
    StillWithout(lines, h);
    EmptyBefore(h);
    SectionBehind(front, "", section, key, value);
    assert "" + (NewHeader(section) + NewLine(key, value)) == NewHeader(section) + NewLine(key, value);
  }

  lemma {:induction false} EmptyBefore(h: string)
    ensures Before("", h)
  {
  }

  lemma {:induction false} StillWithout(lines: seq<string>, h: string)
    requires Without(lines, h)
    ensures Without(lines + Padding(lines), h)
  {
    hide Reading, Padding;
    PaddingSaysNothing(lines, h);
  }

  lemma {:induction false} WriteTail(front: seq<string>, header: string, line: string)
    ensures WriteLines(Cut(front, header, [line], []).Whole()) == WriteLines(front) + (header + line)
  {
    assert Cut(front, header, [line], []).Whole() == front + [header, line];
    WriteAppended(front, [header, line]);
    WriteFirst([header, line]);
    WriteOne(line);
    assert [header, line][1..] == [line];
  }

  /** Lines with an open last line that a set does not stay apart from. */
  lemma {:induction false} OpenEnd(lines: seq<string>, section: string, key: string)
    requires Readable(lines) && !Apart(lines, section, key)
    ensures lines != [] && Open(lines[|lines| - 1]) && AllComplete(lines[..|lines| - 1])
    ensures lines[|lines| - 1] != [] && Padding(lines) == []
    ensures WriteLines(lines) == WriteLines(lines[..|lines| - 1]) + lines[|lines| - 1]
  {
    var front, last := lines[..|lines| - 1], lines[|lines| - 1];
    assert forall i | 0 <= i < |last| - 1 :: last[i] == last[..|last| - 1][i];
    assert lines == front + [last];
    WriteAppended(front, [last]);
    WriteOne(last);
  }

  /** A section that ends with such a line gets the new line behind it, and does not set the key yet. */
  lemma {:induction false} OpenSection(lines: seq<string>, section: string, key: string, value: string)
    returns (inside: bool)
    requires OneHeaderEach(lines) && Readable(lines) && !Apart(lines, section, key)
    requires !Without(lines, HeaderText(section)) && SetLines(lines, section, key, value).Some?
    ensures SetLines(lines, section, key, value) == Some(lines + [NewLine(key, value)])
    ensures lines != [] && InSection(lines[|lines| - 1], inside, HeaderText(section), key)
    ensures Follow(Going(false), lines[..|lines| - 1], HeaderText(section), key) == Going(inside)
  {
    hide Reading, HeaderText, NewLine, SetLines, Without, OneHeaderEach, Apart, Readable, Cut.Whole, Open, InSection,
         PlaceIn, InsertedAt, Cut.Around;
    OpenEnd(lines, section, key);
    var c := CutAt(lines, HeaderText(section));
    OpenCut(c, section, key);
    SetInSection(c, section, key, value);
    InsertedEnd(c, NewLine(key, value));
    inside := c.body != [];
    OpenBody(c, HeaderText(section), key);
  }

  /** The section ends the file and does not set the key, and a new line goes to its end. */
  lemma {:induction false} OpenCut(c: Cut, section: string, key: string)
    requires c.Around(HeaderText(section)) && !Apart(c.Whole(), section, key)
    ensures c.after == [] && FirstIndex(c.body, key) == |c.body| && PlaceIn(c) == |c.body|
  {
    hide Reading, HeaderText, ScanTo, Complete, Cut.Whole, InsertPoint, Cut.Around;
    ScanFinds(c, HeaderText(section), key);
    WholeAt(c);
  }

  lemma {:induction false} InsertedEnd(c: Cut, line: string)
    requires c.after == []
    ensures c.(body := InsertedAt(c.body, |c.body|, line)).Whole() == c.Whole() + [line]
  {
    assert InsertedAt(c.body, |c.body|, line) == c.body + [line];
  }

  lemma {:induction false} OpenBody(c: Cut, h: string, key: string)
    requires c.Around(h) && FirstIndex(c.body, key) == |c.body| && c.after == []
    requires var lines := c.Whole(); Open(lines[|lines| - 1])
    ensures var lines := c.Whole();
            && InSection(lines[|lines| - 1], c.body != [], h, key)
            && Follow(Going(false), lines[..|lines| - 1], h, key) == Going(c.body != [])
  {
    hide Reading;
    var lines := c.Whole();
    FollowOutside(c.before, h, key);
    if c.body == [] {
      assert lines[..|lines| - 1] == c.before;
    } else {
      var body := c.body[..|c.body| - 1];
      assert lines[..|lines| - 1] == c.before + ([c.header] + body);
      FollowConcat(Going(false), c.before, [c.header] + body, h, key);
      FollowConcat(Going(false), [c.header], body, h, key);
      FollowOne(Going(false), c.header, h, key);
      FirstIndexIs(body, key, |body|);
      FirstValueAt(body, key);
      FollowBody(true, body, h, key);
    }
  }

  /** What is found when a set does not stay apart from an open last line. */
  ghost predicate FoundJoined(lines: seq<string>, section: string, key: string, value: string)
    requires lines != []
  {
    if Without(lines, HeaderText(section)) then FoundAppended(lines[|lines| - 1], section, key)
    else FoundInserted(lines[|lines| - 1], key, value)
  }

  lemma {:induction false} SetJoined(text: string, section: string, key: string, value: string)
    requires GoodFile(text) && HeaderFits(section) && LineFits(key, value) && Storable(section, key, value)
    requires IsCString(section) && IsCString(key) && IsCString(value)
    requires !Apart(ReadLines(text), section, key) && SetFile(text, section, key, value).Some?
    ensures ReadLines(text) != []
    ensures GetFile(SetFile(text, section, key, value).value, section, key) == Some(value)
            <==> FoundJoined(ReadLines(text), section, key, value)
  {
    hide Reading, ReadLines, WriteLines, HeaderText, NewHeader, NewLine, Padding, SetLines, Without, Apart, Follow,
         Readable, Complete, OneHeaderEach, FoundAppended, FoundInserted, InSection;
    var lines, h := ReadLines(text), HeaderText(section);
    ReadReadable(text);
    OpenEnd(lines, section, key);
    var front, last, line := lines[..|lines| - 1], lines[|lines| - 1], NewLine(key, value);
    if Without(lines, h) {
      SetNewSection(lines, section, key, value);
      assert lines + [] == lines;
      WriteTail(lines, NewHeader(section), line);
      WithoutFront(lines, h);
      SectionBehind(front, last, section, key, value);
      assert WriteLines(front) + last + (NewHeader(section) + line)
          == WriteLines(front) + (last + (NewHeader(section) + line));
    } else {
      var inside := OpenSection(lines, section, key, value);
      WriteAppended(lines, [line]);
      WriteOne(line);
      assert WriteLines(front) + last + line == WriteLines(front) + (last + line);
      BracketIn(section);
      PairBehind(front, inside, last, h, key, value);
    }
  }

  lemma {:induction false} WithoutFront(lines: seq<string>, h: string)
    requires Without(lines, h) && lines != [] && Open(lines[|lines| - 1])
    ensures Without(lines[..|lines| - 1], h) && Before(lines[|lines| - 1], h)
  {
    hide Reading;
    assert forall i | 0 <= i < |lines| - 1 :: lines[..|lines| - 1][i] == lines[i];
    assert Reading(lines[|lines| - 1]) != Header(h);
  }

  lemma {:induction false} BracketIn(section: string)
    requires HeaderFits(section)
    ensures ']' in HeaderText(section)
  {
    assert ("[" + section + "]")[|section| + 1] == ']';
  }

  /**
   After a successful set on a good file, the next get answers the value if and only if section, key and value are such
   as a line can carry, and the header has room for its newline if one had to be written. If the new line joins a last
   line without newline, that line has to be blank and short enough instead. The buffers are assumed to have room for
   the new line and for the name of the section.
   */
  lemma {:induction false} SetThenGetFile(text: string, section: string, key: string, value: string)
    requires GoodFile(text) && HeaderFits(section) && LineFits(key, value)
    requires IsCString(section) && IsCString(key) && IsCString(value)
    requires SetFile(text, section, key, value).Some?
    ensures var lines := ReadLines(text);
            GetFile(SetFile(text, section, key, value).value, section, key) == Some(value)
            <==> && Storable(section, key, value)
                 && if Apart(lines, section, key) then Without(lines, HeaderText(section)) ==> NewHeaderFits(section)
                    else lines != [] && FoundJoined(lines, section, key, value)
  {
    hide SetLines, GetLines, ReadLines, WriteLines, OneHeaderEach, Storable, FileLine, Without, HeaderText, Apart,
         FoundJoined;
    var text', lines := SetFile(text, section, key, value).value, ReadLines(text);
    if Storable(section, key, value) {
      if !Apart(lines, section, key) {
        SetJoined(text, section, key, value);
      } else if Fits(lines, section, key, value) {
        SetFileReads(text, section, key, value);
        SetThenGet(lines, section, key, value);
      } else {
        ReadReadable(text);
        ApartMissing(lines, section, key);
        LongNewHeader(text, section, key, value);
      }
    }
    assert IsCString(text') by {
      ReadReadable(text);
      FileCStrings(lines);
      SetLinesCString(lines, section, key, value);
      WriteCString(SetLines(lines, section, key, value).value);
    }
    GetStorable(text', section, key);
  }

  /** A missing section stays apart only from complete lines. */
  lemma {:induction false} ApartMissing(lines: seq<string>, section: string, key: string)
    requires Readable(lines) && Apart(lines, section, key) && Without(lines, HeaderText(section))
    ensures AllComplete(lines)
  {
    hide Complete, FileLine, HeaderText, InsertPoint;
    ScanNothing(lines, |lines|, HeaderText(section), key);
    ReadableParts(lines);
  }
}
