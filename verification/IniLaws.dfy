/** The laws of get, set and delete on the lines of a file in which no section has two headers. */
module IniLaws {
  import opened Wrappers
  import opened IniText
  import opened IniGet
  import opened IniEdit
  import opened IniShape
  import opened IniFile

  /** The header texts of a file in order. */
  function Headers(lines: seq<string>): seq<string> {
    if lines == [] then []
    else (if Reading(lines[0]).Header? then [Reading(lines[0]).text] else []) + Headers(lines[1..])
  }

  predicate Distinct(s: seq<string>) {
    forall i, j | 0 <= i < j < |s| :: s[i] != s[j]
  }

  /** At most one header for each section name. */
  predicate OneHeaderEach(lines: seq<string>) {
    Distinct(Headers(lines))
  }

  lemma {:induction false} HeadersConcat(a: seq<string>, b: seq<string>)
    ensures Headers(a + b) == Headers(a) + Headers(b)
  {
    hide Reading;
    if a == [] {
      assert a + b == b;
    } else {
      assert (a + b)[1..] == a[1..] + b;
      HeadersConcat(a[1..], b);
      var first := if Reading(a[0]).Header? then [Reading(a[0]).text] else [];
      assert first + (Headers(a[1..]) + Headers(b)) == first + Headers(a[1..]) + Headers(b);
    }
  }

  lemma {:induction false} NoHeaders(lines: seq<string>)
    ensures NoHeader(lines) <==> Headers(lines) == []
  {
    hide Reading;
    if lines != [] {
      NoHeaders(lines[1..]);
      assert NoHeader(lines) <==> !Reading(lines[0]).Header? && NoHeader(lines[1..]) by {
        assert forall i | 0 < i < |lines| :: lines[i] == lines[1..][i - 1];
      }
    }
  }

  lemma {:induction false} WithoutHeader(lines: seq<string>, h: string)
    ensures Without(lines, h) <==> h !in Headers(lines)
  {
    hide Reading;
    if lines != [] {
      WithoutHeader(lines[1..], h);
      assert Without(lines, h) <==> Reading(lines[0]) != Header(h) && Without(lines[1..], h) by {
        assert forall i | 0 < i < |lines| :: lines[i] == lines[1..][i - 1];
      }
    }
  }

  lemma {:induction false} HeadersOfCut(c: Cut)
    requires Reading(c.header).Header? && NoHeader(c.body)
    ensures Headers(c.Whole()) == Headers(c.before) + [Reading(c.header).text] + Headers(c.after)
  {
    hide Reading;
    HeadersConcat(c.before + [c.header] + c.body, c.after);
    HeadersConcat(c.before + [c.header], c.body);
    HeadersConcat(c.before, [c.header]);
    NoHeaders(c.body);
    assert [c.header][1..] == [];
    assert Headers([c.header]) == [Reading(c.header).text];
  }

  /** The leading lines that are not headers. */
  lemma {:induction false} TakeBody(lines: seq<string>) returns (body: seq<string>, after: seq<string>)
    ensures lines == body + after && NoHeader(body) && (after != [] ==> Reading(after[0]).Header?)
  {
    hide Reading;
    if lines == [] || Reading(lines[0]).Header? {
      body, after := [], lines;
    } else {
      var b, a := TakeBody(lines[1..]);
      body, after := [lines[0]] + b, a;
    }
  }

  /** The lines before the first header of a section. */
  lemma {:induction false} TakeBefore(lines: seq<string>, h: string)
    returns (before: seq<string>, header: string, rest: seq<string>)
    requires !Without(lines, h)
    ensures lines == before + [header] + rest && Reading(header) == Header(h) && Without(before, h)
  {
    hide Reading;
    if Reading(lines[0]) == Header(h) {
      before, header, rest := [], lines[0], lines[1..];
    } else {
      assert !Without(lines[1..], h) by {
        var i :| 0 <= i < |lines| && Reading(lines[i]) == Header(h);
        assert lines[1..][i - 1] == lines[i];
      }
      var b;
      b, header, rest := TakeBefore(lines[1..], h);
      before := [lines[0]] + b;
    }
  }

  /** A file with the section is cut at its only header. */
  lemma {:induction false} CutAt(lines: seq<string>, h: string) returns (c: Cut)
    requires OneHeaderEach(lines) && !Without(lines, h)
    ensures c.Whole() == lines && c.Around(h)
  {
    hide Reading;
    var before, header, rest := TakeBefore(lines, h);
    var body, after := TakeBody(rest);
    c := Cut(before, header, body, after);
    assert c.Whole() == lines;
    HeadersOfCut(c);
    WithoutHeader(before, h);
    var hs, n := Headers(lines), |Headers(before)|;
    assert hs[n] == h;
    forall i | 0 <= i < |Headers(after)| ensures Headers(after)[i] != h {
      assert hs[n + 1 + i] == Headers(after)[i];
    }
    WithoutHeader(after, h);
  }

  /** Changing the body of a section leaves the headers as they are. */
  lemma {:induction false} BodyKeepsHeaders(c: Cut, body: seq<string>)
    requires Reading(c.header).Header? && NoHeader(c.body) && NoHeader(body)
    ensures Headers(c.(body := body).Whole()) == Headers(c.Whole())
  {
    hide Reading, Cut.Whole;
    HeadersOfCut(c);
    HeadersOfCut(c.(body := body));
  }

  // ----- set on lines -----

  /** A key, value and section that their lines can carry. */
  predicate Storable(section: string, key: string, value: string) {
    CleanSection(section) && CleanKey(key) && CleanValue(value)
  }

  /** The buffers have room for the new line and the name of the section, and for a header if one is to be written. */
  ghost predicate Fits(lines: seq<string>, section: string, key: string, value: string) {
    HeaderFits(section) && LineFits(key, value) && (Without(lines, HeaderText(section)) ==> NewHeaderFits(section))
  }

  lemma {:induction false} NoHeaderUpdate(body: seq<string>, k: nat, line: string)
    requires NoHeader(body) && k < |body| && !Reading(line).Header?
    ensures NoHeader(body[k := line])
  {
  }

  lemma {:induction false} NoHeaderInsert(body: seq<string>, at: nat, line: string)
    requires NoHeader(body) && at <= |body| && !Reading(line).Header?
    ensures NoHeader(InsertedAt(body, at, line))
  {
  }

  lemma {:induction false} FirstIndexInsert(body: seq<string>, key: string, at: nat, line: string)
    requires at <= |body| && FirstIndex(body, key) == |body| && SetsKey(Reading(line), key)
    ensures FirstIndex(InsertedAt(body, at, line), key) == at
  {
    hide Reading;
    var b := InsertedAt(body, at, line);
    forall j | 0 <= j < at ensures !SetsKey(Reading(b[j]), key) {
      assert b[j] == body[j];
    }
    assert b[at] == line;
    FirstIndexIs(b, key, at);
  }

  lemma {:induction false} FirstIndexUpdate(body: seq<string>, key: string, line: string)
    requires FirstIndex(body, key) < |body| && SetsKey(Reading(line), key)
    ensures FirstIndex(body[FirstIndex(body, key) := line], key) == FirstIndex(body, key)
  {
    hide Reading;
    FirstIndexIs(body[FirstIndex(body, key) := line], key, FirstIndex(body, key));
  }

  /**
   What a set produces, in one form for its three cases: a file cut at the section, whose body has
   one line for the key that is the first, and from which the old file comes by undoing that line.
   */
  datatype Outcome = Outcome(cut: Cut, index: nat, how: How)

  datatype How =
    | Replaced(was: string)          // the line at `index` was another line for the key
    | Inserted                       // the line at `index` is new
    | Appended(lines: seq<string>)   // the section is new; these were the lines

  ghost predicate Explains(o: Outcome, lines: seq<string>, section: string, key: string, value: string) {
    && o.cut.Around(HeaderText(section)) && o.index < |o.cut.body|
    && o.cut.body[o.index] == NewLine(key, value) && FirstIndex(o.cut.body, key) == o.index
    && match o.how
       case Replaced(was) =>
         && lines == o.cut.(body := o.cut.body[o.index := was]).Whole() && !Reading(was).Header?
         && FirstIndex(o.cut.body[o.index := was], key) == o.index
       case Inserted =>
         var body := o.cut.body[..o.index] + o.cut.body[o.index + 1..];
         && lines == o.cut.(body := body).Whole() && FirstIndex(body, key) == |body|
         && o.index == PlaceIn(o.cut.(body := body))
       case Appended(ls) =>
         && ls == lines && Without(lines, HeaderText(section))
         && o.cut == Cut(lines + Padding(lines), NewHeader(section), [NewLine(key, value)], [])
  }

  lemma {:induction false} BlankLine()
    ensures Reading("\n") == Blank
  {
    assert Trim("\n") == [] by {
      TrimOf([], [], "\n");
      assert [] + [] + "\n" == "\n";
    }
  }

  lemma {:induction false} PaddingSaysNothing(lines: seq<string>, h: string)
    ensures NoHeader(Padding(lines)) && Without(Padding(lines), h)
  {
    BlankLine();
  }

  /** Every successful set with storable arguments is explained. */
  lemma {:induction false} SetOutcome(lines: seq<string>, section: string, key: string, value: string)
    returns (o: Outcome)
    requires OneHeaderEach(lines) && Storable(section, key, value) && Fits(lines, section, key, value)
    requires SetLines(lines, section, key, value).Some?
    ensures SetLines(lines, section, key, value) == Some(o.cut.Whole())
    ensures Explains(o, lines, section, key, value)
  {
    hide Reading, NewLine, NewHeader, HeaderText, SetLines, Padding, Cut.Whole, FirstIndex, PlaceIn;
    ReadingNewLine(key, value);
    var h, line := HeaderText(section), NewLine(key, value);
    if Without(lines, h) {
      SetNewSection(lines, section, key, value);
      ReadingNewHeader(section);
      o := Outcome(Cut(lines + Padding(lines), NewHeader(section), [line], []), 0, Appended(lines));
      PaddingSaysNothing(lines, h);
      FirstIndexIs([line], key, 0);
    } else {
      var c := CutAt(lines, h);
      SetInSection(c, section, key, value);
      var at := PlaceIn(c);
      var k := FirstIndex(c.body, key);
      if k < |c.body| {
        NoHeaderUpdate(c.body, k, line);
        FirstIndexUpdate(c.body, key, line);
        o := Outcome(c.(body := c.body[k := line]), k, Replaced(c.body[k]));
        assert c.body[k := line][k := c.body[k]] == c.body;
      } else {
        NoHeaderInsert(c.body, at, line);
        FirstIndexInsert(c.body, key, at, line);
        var body := InsertedAt(c.body, at, line);
        o := Outcome(c.(body := body), at, Inserted);
        assert body[..at] + body[at + 1..] == c.body;
      }
    }
  }

  /** Set, then get: the value. */
  lemma {:induction false} SetThenGet(lines: seq<string>, section: string, key: string, value: string)
    requires OneHeaderEach(lines) && Storable(section, key, value) && Fits(lines, section, key, value)
    requires SetLines(lines, section, key, value).Some?
    ensures GetLines(SetLines(lines, section, key, value).value, section, key) == Some(value)
  {
    hide Reading, NewLine, NewHeader, HeaderText, SetLines, GetLines, Padding, Cut.Whole;
    var o := SetOutcome(lines, section, key, value);
    GetInCut(o.cut, section, key);
    FirstValueAt(o.cut.body, key);
    ReadingNewLine(key, value);
  }

  lemma {:induction false} SkipOne(a: seq<string>, line: string, b: seq<string>, key: string)
    requires !SetsKey(Reading(line), key)
    ensures FirstValue(a + [line] + b, key) == FirstValue(a + b, key)
  {
    hide Reading;
    FirstValueConcat(a + [line], b, key);
    FirstValueConcat(a, [line], key);
    FirstValueConcat(a, b, key);
    assert [line][1..] == [];
  }

  /** Within the section, another key has its value as before. */
  lemma {:induction false} OtherKey(o: Outcome, lines: seq<string>, section: string, key: string, value: string,
        other: string)
    requires Explains(o, lines, section, key, value) && Reading(NewLine(key, value)) == Pair(key, value) && other != key
    ensures GetLines(o.cut.Whole(), section, other) == GetLines(lines, section, other)
  {
    hide Reading, NewLine, NewHeader, HeaderText, GetLines, Padding, Cut.Whole, PlaceIn, FirstIndex, FirstValue;
    GetInCut(o.cut, section, other);
    var b, i := o.cut.body, o.index;
    SkipLine(b, i, other);
    match o.how
    case Replaced(was) =>
      ReplacedKey(b, i, was, key);
      SkipLine(b[i := was], i, other);
      NoHeaderUpdate(b, i, was);
      GetInCut(o.cut.(body := b[i := was]), section, other);
    case Inserted =>
      GetInCut(o.cut.(body := b[..i] + b[i + 1..]), section, other);
    case Appended(_) =>
      GetWithout(lines, section, other);
      NothingFound(other);
      assert b[..i] + b[i + 1..] == [];
  }

  lemma {:induction false} NothingFound(key: string)
    ensures FirstValue([], key) == None
  {
  }

  lemma {:induction false} SkipLine(b: seq<string>, i: nat, key: string)
    requires i < |b| && !SetsKey(Reading(b[i]), key)
    ensures FirstValue(b, key) == FirstValue(b[..i] + b[i + 1..], key)
  {
    hide Reading, FirstValue;
    assert b == b[..i] + [b[i]] + b[i + 1..];
    SkipOne(b[..i], b[i], b[i + 1..], key);
  }

  /** The first line that sets a key sets no other. */
  lemma {:induction false} ReplacedKey(b: seq<string>, i: nat, was: string, key: string)
    requires i < |b| && FirstIndex(b[i := was], key) == i
    ensures SetsKey(Reading(was), key)
    ensures b[i := was][..i] + b[i := was][i + 1..] == b[..i] + b[i + 1..]
  {
    hide Reading;
    assert b[i := was][i] == was;
  }

  /** From another section, an appended section changes nothing. */
  lemma {:induction false} AppendedForeign(lines: seq<string>, padding: seq<string>, header: string, line: string,
        h: string,
                                           section: string, key: string)
    requires NoHeader(padding) && Reading(header) == Header(h) && !Reading(line).Header? && HeaderText(section) != h
    requires FirstValue(padding, key) == None
    ensures GetLines(Cut(lines + padding, header, [line], []).Whole(), section, key) == GetLines(lines, section, key)
  {
    hide Reading, HeaderText;
    var c := Cut(lines + padding, header, [line], []);
    var other := HeaderText(section);
    BodyForeign(c, h, other, key);
    FollowConcat(Going(false), lines, padding, other, key);
    var p := Follow(Going(false), lines, other, key);
    if p.Going? {
      FollowBody(p.inside, padding, other, key);
    }
  }

  /** From another section, a set changes nothing. */
  lemma {:induction false} ForeignSet(o: Outcome, lines: seq<string>, section: string, key: string, value: string,
                                      section': string, key': string)
    requires Explains(o, lines, section, key, value) && !Reading(NewLine(key, value)).Header?
    requires HeaderText(section') != HeaderText(section)
    ensures GetLines(o.cut.Whole(), section', key') == GetLines(lines, section', key')
  {
    hide Reading, NewLine, NewHeader, HeaderText, GetLines, Cut.Whole, PlaceIn;
    var b, i := o.cut.body, o.index;
    match o.how
    case Replaced(was) =>
      NoHeaderUpdate(b, i, was);
      OtherSection(o.cut, b[i := was], HeaderText(section), section', key');
    case Inserted =>
      OtherSection(o.cut, b[..i] + b[i + 1..], HeaderText(section), section', key');
    case Appended(_) =>
      PaddingSaysNothing(lines, HeaderText(section));
      BlankLine();
      AppendedForeign(lines, Padding(lines), NewHeader(section), NewLine(key, value), HeaderText(section), section',
            key');
  }

  /** Set leaves every other section and key as it is, whether a line is replaced, inserted or appended. */
  lemma {:induction false} SetFrames(lines: seq<string>, section: string, key: string, value: string,
        section': string, key': string)
    requires OneHeaderEach(lines) && Storable(section, key, value) && Fits(lines, section, key, value)
    requires SetLines(lines, section, key, value).Some?
    requires HeaderText(section') != HeaderText(section) || key' != key
    ensures GetLines(SetLines(lines, section, key, value).value, section', key') == GetLines(lines, section', key')
  {
    hide Reading, NewLine, NewHeader, HeaderText, SetLines, GetLines, Padding, Cut.Whole, Explains;
    var o := SetOutcome(lines, section, key, value);
    ReadingNewLine(key, value);
    if HeaderText(section') != HeaderText(section) {
      ForeignSet(o, lines, section, key, value, section', key');
    } else {
      OtherKey(o, lines, section, key, value, key');
      SameHeaderSameGet(o.cut.Whole(), section, section', key');
      SameHeaderSameGet(lines, section, section', key');
    }
  }

  lemma {:induction false} SameHeaderSameGet(lines: seq<string>, section: string, section': string, key: string)
    requires HeaderText(section) == HeaderText(section')
    ensures GetLines(lines, section, key) == GetLines(lines, section', key)
  {
  }

  lemma {:induction false} Reinserted(b: seq<string>, i: nat, line: string)
    requires i < |b|
    ensures InsertedAt(b[..i] + b[i + 1..], i, line) == b[i := line]
  {
  }

  /** What a set of another value makes of the old file is the new file with its line exchanged. */
  lemma {:induction false} SetInstead(o: Outcome, lines: seq<string>, section: string, key: string, value: string,
        value': string)
    requires Explains(o, lines, section, key, value) && SetLines(lines, section, key, value).Some?
    requires !Reading(NewLine(key, value)).Header?
    ensures SetLines(lines, section, key, value')
            == Some(o.cut.(body := o.cut.body[o.index := NewLine(key, value')]).Whole())
  {
    hide Reading, NewLine, NewHeader, HeaderText, SetLines, Padding, Cut.Whole, PlaceIn, InsertedAt, FirstIndex;
    var b, i, line := o.cut.body, o.index, NewLine(key, value');
    Reinserted(b, i, line);
    match o.how
    case Replaced(was) =>
      NoHeaderUpdate(b, i, was);
      SetInSection(o.cut.(body := b[i := was]), section, key, value');
      assert b[i := was][i := line] == b[i := line];
    case Inserted =>
      var body := b[..i] + b[i + 1..];
      SetInSection(o.cut.(body := body), section, key, value');
      SetInSection(o.cut.(body := body), section, key, value);
    case Appended(_) =>
      SetNewSection(lines, section, key, value');
      SetNewSection(lines, section, key, value);
      assert b[i := line] == [line];
  }

  /** The last of two sets of one key alone decides the file. */
  lemma {:induction false} SetTwice(lines: seq<string>, section: string, key: string, value: string, value': string)
    requires OneHeaderEach(lines) && Storable(section, key, value) && Fits(lines, section, key, value)
    requires SetLines(lines, section, key, value).Some?
    ensures SetLines(SetLines(lines, section, key, value).value, section, key, value')
            == SetLines(lines, section, key, value')
  {
    hide Reading, NewLine, NewHeader, HeaderText, SetLines, Padding, Cut.Whole, PlaceIn;
    var o := SetOutcome(lines, section, key, value);
    ReadingNewLine(key, value);
    SetInSection(o.cut, section, key, value');
    SetInstead(o, lines, section, key, value, value');
  }

  /** Setting an absent key in an existing section and deleting it again restores the lines exactly. */
  lemma {:induction false} SetThenDelete(lines: seq<string>, section: string, key: string, value: string)
    requires OneHeaderEach(lines) && Storable(section, key, value) && Fits(lines, section, key, value)
    requires SetLines(lines, section, key, value).Some?
    requires !Without(lines, HeaderText(section)) && GetLines(lines, section, key) == None
    ensures DelLines(SetLines(lines, section, key, value).value, section, Some(key)) == Some(lines)
  {
    hide Reading, NewLine, NewHeader, HeaderText, SetLines, DelLines, GetLines, Padding, Cut.Whole, PlaceIn, Without;
    var o := SetOutcome(lines, section, key, value);
    var b, i := o.cut.body, o.index;
    assert o.how.Inserted? by {
      if o.how.Replaced? {
        NoHeaderUpdate(b, i, o.how.was);
        GetInCut(o.cut.(body := b[i := o.how.was]), section, key);
        FirstValueAt(b[i := o.how.was], key);
      }
    }
    DelInSection(o.cut, section, Some(key));
    ReadingNewLine(key, value);
    DropInserted(b, i, key);
  }

  /** Dropping the one line that sets the key leaves the others. */
  lemma {:induction false} DropInserted(b: seq<string>, i: nat, key: string)
    requires i < |b| && SetsKey(Reading(b[i]), key)
    requires FirstIndex(b[..i] + b[i + 1..], key) == |b| - 1
    ensures Dropping(b, key) == b[..i] + b[i + 1..]
  {
    hide Reading, FirstIndex;
    var front, back := b[..i], b[i + 1..];
    assert b == front + [b[i]] + back;
    DroppingConcat(front + [b[i]], back, key);
    DroppingConcat(front, [b[i]], key);
    DroppingConcat(front, back, key);
    assert [b[i]][1..] == [] && Dropping([b[i]], key) == [];
    assert Dropping(front, key) + [] == Dropping(front, key);
    DroppingAbsent(front + back, key);
  }

  // ----- del on lines -----

  lemma {:induction false} DroppedKey(body: seq<string>, key: string, other: string)
    requires NoHeader(body)
    ensures NoHeader(Dropping(body, key))
    ensures FirstValue(Dropping(body, key), other) == if other == key then None else FirstValue(body, other)
  {
    hide Reading;
    if body != [] {
      assert !Reading(body[0]).Header?;
      DroppedKey(body[1..], key, other);
      var here := if SetsKey(Reading(body[0]), key) then [] else [body[0]];
      FirstValueConcat(here, Dropping(body[1..], key), other);
      assert here != [] ==> here[1..] == [];
    }
  }

  /** Deleting a key removes it from its section and changes no other key and no other section. */
  lemma {:induction false} DeleteKey(lines: seq<string>, section: string, key: string, section': string, key': string)
    requires OneHeaderEach(lines) && !Without(lines, HeaderText(section))
    ensures DelLines(lines, section, Some(key)).Some?
    ensures GetLines(DelLines(lines, section, Some(key)).value, section', key')
            == if HeaderText(section') == HeaderText(section)
                  && key' == key then None else GetLines(lines, section', key')
    ensures OneHeaderEach(DelLines(lines, section, Some(key)).value)
  {
    hide Reading, HeaderText, DelLines, GetLines, Cut.Whole, Dropping;
    var c := CutAt(lines, HeaderText(section));
    DelInSection(c, section, Some(key));
    var body := Dropping(c.body, key);
    DroppedKey(c.body, key, key');
    BodyKeepsHeaders(c, body);
    if HeaderText(section') == HeaderText(section) {
      GetInCut(c, section', key');
      GetInCut(c.(body := body), section', key');
    } else {
      OtherSection(c, body, HeaderText(section), section', key');
    }
  }

  lemma {:induction false} InsideMeansHeader(lines: seq<string>, h: string, key: string)
    requires Follow(Going(false), lines, h, key) == Going(true)
    ensures h in Headers(lines)
  {
    hide Reading;
    WithoutHeader(lines, h);
    if Without(lines, h) {
      FollowOutside(lines, h, key);
    }
  }

  lemma {:induction false} CutDistinct(c: Cut, h: string)
    requires c.Around(h) && OneHeaderEach(c.Whole())
    ensures OneHeaderEach(c.before + c.after)
    ensures forall t | t in Headers(c.before) :: t !in Headers(c.after)
  {
    hide Reading, Cut.Whole;
    HeadersOfCut(c);
    HeadersConcat(c.before, c.after);
    DistinctDrop(Headers(c.before), h, Headers(c.after));
  }

  lemma {:induction false} DistinctDrop(a: seq<string>, h: string, b: seq<string>)
    requires Distinct(a + [h] + b)
    ensures Distinct(a + b) && forall t | t in a :: t !in b
  {
    var s, r := a + [h] + b, a + b;
    assert forall i | 0 <= i < |a| :: s[i] == a[i] && r[i] == a[i];
    assert forall i | 0 <= i < |b| :: s[|a| + 1 + i] == b[i];
    assert forall i | |a| <= i < |r| :: r[i] == s[i + 1];
    forall t | t in a ensures t !in b {
      var i :| 0 <= i < |a| && a[i] == t;
      forall j | 0 <= j < |b| ensures b[j] != t {
        assert s[i] != s[|a| + 1 + j];
      }
    }
  }

  /** Deleting a section removes its keys and changes no other section. */
  lemma {:induction false} DeleteSection(lines: seq<string>, section: string, section': string, key': string)
    requires OneHeaderEach(lines) && !Without(lines, HeaderText(section))
    ensures DelLines(lines, section, None).Some?
    ensures GetLines(DelLines(lines, section, None).value, section', key')
            == if HeaderText(section') == HeaderText(section) then None else GetLines(lines, section', key')
    ensures OneHeaderEach(DelLines(lines, section, None).value)
  {
    hide Reading, HeaderText, DelLines, Cut.Whole, OneHeaderEach;
    var h, other := HeaderText(section), HeaderText(section');
    var c := CutAt(lines, h);
    DelInSection(c, section, None);
    CutDistinct(c, h);
    var rest := c.before + c.after;
    FollowConcat(Going(false), c.before, c.after, other, key');
    if other == h {
      FollowOutside(c.before, h, key');
      FollowOutside(c.after, h, key');
    } else {
      BodyForeign(c, h, other, key');
      RemovedForeign(c, h, other, key');
    }
  }

  /** From another section, the lines after a removed section are met as they were. */
  lemma {:induction false} RemovedForeign(c: Cut, h: string, other: string, key: string)
    requires c.Around(h) && other != h && forall t | t in Headers(c.before) :: t !in Headers(c.after)
    ensures var p := Follow(Going(false), c.before, other, key);
            Answer(Follow(p, c.after, other, key))
            == Answer(Follow(if p.Done? then p else if p.inside then Done(None) else Going(false), c.after, other, key))
  {
    hide Reading;
    var p := Follow(Going(false), c.before, other, key);
    if p == Going(true) {
      InsideMeansHeader(c.before, other, key);
      WithoutHeader(c.after, other);
      FollowEnd(c.after, other, key);
    }
  }

  function Answer(p: Progress): Option<string> {
    if p.Going? then None else p.answer
  }
}
