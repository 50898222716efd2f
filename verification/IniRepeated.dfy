/** A set and the get behind it in files that may have several headers of one section. */
module IniRepeated {
  import opened Wrappers
  import opened IniText
  import opened IniGet
  import opened IniEdit
  import opened IniFile
  import opened IniLaws
  import opened IniRoundTrip
  import opened IniScan

  /** What the get behind a set needs: a line to exchange, or a place for the new one, before another section begins. */
  ghost predicate SeenAgain(lines: seq<string>, h: string, key: string, s: nat, e: nat) {
    || (exists i :: s < i < e && i < |lines| && SetsKey(Reading(lines[i]), key))
    || ((forall i :: 0 <= i < |lines| ==> !Sets(lines, i, h, key))
        && forall j :: e <= j < |lines| ==> Reading(lines[j]) != Header(h))
  }

  /** Lines of the first stretch are lines of the section, and there are none before. */
  lemma {:induction false} StretchUnder(lines: seq<string>, h: string, s: nat, e: nat, i: nat)
    requires Stretch(lines, h, s, e) && i < |lines|
    ensures i <= s ==> !Under(lines, i, h)
    ensures s < i < e ==> Under(lines, i, h)
    ensures i == e ==> Under(lines, i, h)
  {
    hide Reading;
    if s < i <= e {
      var k := LastHeader(lines, h, s, e, i);
    }
  }

  lemma {:induction false} LastHeader(lines: seq<string>, h: string, s: nat, e: nat, i: nat) returns (k: nat)
    requires Stretch(lines, h, s, e) && s < i <= e
    ensures k < i && Reading(lines[k]) == Header(h) && forall j :: k < j < i ==> !Reading(lines[j]).Header?
  {
    hide Reading;
    if i == s + 1 || Reading(lines[i - 1]).Header? {
      k := i - 1;
    } else {
      k := LastHeader(lines, h, s, e, i - 1);
    }
  }

  /** The first line of a stretch that sets a key. */
  lemma {:induction false} FirstIn(lines: seq<string>, key: string, s: nat, i: nat) returns (k: nat)
    requires s < i < |lines| && SetsKey(Reading(lines[i]), key)
    ensures s < k <= i && SetsKey(Reading(lines[k]), key) && forall j :: s < j < k ==> !SetsKey(Reading(lines[j]), key)
  {
    hide Reading;
    k := i;
    if j :| s < j < i && SetsKey(Reading(lines[j]), key) {
      k := FirstIn(lines, key, s, j);
    }
  }

  lemma {:induction false} FirstSets(lines: seq<string>, h: string, key: string, i: nat) returns (k: nat)
    requires Sets(lines, i, h, key)
    ensures k <= i && Sets(lines, k, h, key) && forall j :: 0 <= j < k ==> !Sets(lines, j, h, key)
  {
    hide Sets;
    k := i;
    if j: nat :| j < i && Sets(lines, j, h, key) {
      k := FirstSets(lines, h, key, j);
    }
  }

  /** Exchanging a line of the stretch for one that is no header, or a line behind its end, leaves the stretch. */
  lemma {:induction false} StretchExchanged(lines: seq<string>, h: string, s: nat, e: nat, i: nat, line: string)
    requires Stretch(lines, h, s, e) && s < i < |lines| && i != e && !Reading(line).Header?
    requires !Reading(lines[i]).Header?
    ensures Stretch(lines[i := line], h, s, e)
  {
    hide Reading;
  }

  /** Exchanged within the stretch. */
  lemma {:induction false} ExchangedSeen(lines: seq<string>, section: string, key: string, value: string, s: nat,
                                         e: nat, i: nat)
    requires Stretch(lines, HeaderText(section), s, e) && s < i < e && SetsKey(Reading(lines[i]), key)
    requires Storable(section, key, value) && LineFits(key, value)
    ensures SetLines(lines, section, key, value).Some?
    ensures GetLines(SetLines(lines, section, key, value).value, section, key) == Some(value)
  {
    hide Reading, HeaderText, NewLine, SetLines, GetLines, Under;
    var h, line := HeaderText(section), NewLine(key, value);
    ReadingNewLine(key, value);
    var k := FirstIn(lines, key, s, i);
    StretchUnder(lines, h, s, e, k);
    forall j | 0 <= j < k ensures !Sets(lines, j, h, key) {
      StretchUnder(lines, h, s, e, j);
    }
    SetExchanges(lines, section, key, value, k);
    StretchExchanged(lines, h, s, e, k, line);
    GetMeans(lines[k := line], section, key, s, e);
    assert SetsKey(Reading(lines[k := line][k]), key);
  }

  /** Exchanged behind the stretch: the get still finds nothing. */
  lemma {:induction false} ExchangedUnseen(lines: seq<string>, section: string, key: string, value: string, s: nat,
                                           e: nat, i: nat)
    requires Stretch(lines, HeaderText(section), s, e) && Sets(lines, i, HeaderText(section), key)
    requires forall j :: s < j < e ==> !SetsKey(Reading(lines[j]), key)
    requires Storable(section, key, value) && LineFits(key, value)
    ensures SetLines(lines, section, key, value).Some?
    ensures GetLines(SetLines(lines, section, key, value).value, section, key) == None
  {
    hide Reading, HeaderText, NewLine, SetLines, GetLines, Under;
    var h, line := HeaderText(section), NewLine(key, value);
    ReadingNewLine(key, value);
    var k := FirstSets(lines, h, key, i);
    StretchUnder(lines, h, s, e, k);
    SetExchanges(lines, section, key, value, k);
    StretchExchanged(lines, h, s, e, k, line);
    GetMeans(lines[k := line], section, key, s, e);
  }

  /** A new line for no header, within the stretch or behind its first line of another section. */
  lemma {:induction false} StretchInserted(lines: seq<string>, h: string, s: nat, e: nat, at: nat, line: string)
    requires Stretch(lines, h, s, e) && s < at <= |lines| && at != e + 1 && !Reading(line).Header?
    ensures Stretch(lines[..at] + [line] + lines[at..], h, s, if at <= e then e + 1 else e)
  {
    hide Reading;
    var after := lines[..at] + [line] + lines[at..];
    assert forall j | 0 <= j < at :: after[j] == lines[j];
    assert forall j | at < j < |after| :: after[j] == lines[j - 1];
  }

  /** The last part of a section that has a header at line j or behind. */
  lemma {:induction false} LastPart(lines: seq<string>, h: string, j: nat) returns (s: nat, e: nat, at: nat)
    requires j < |lines| && Reading(lines[j]) == Header(h)
    ensures LastSection(lines, |lines|, h, s, e) && j <= s && NewPlace(lines, s, e, at)
  {
    hide Reading, ScanTo, Sets, Trim;
    ScanBounds(lines, |lines|, h, "");
    ScanMeans(lines, |lines|, h, "");
    var sc := ScanTo(lines, |lines|, h, "");
    s, e := sc.start, sc.end;
    at := InsertPoint(lines, s, e, e);
    InsertPointMeans(lines, s, e, e);
  }

  /** Inserted where no line sets the key: found exactly if no header of the section stands behind the stretch. */
  lemma {:induction false} InsertedSeen(lines: seq<string>, section: string, key: string, value: string, s: nat, e: nat)
    requires Stretch(lines, HeaderText(section), s, e) && Storable(section, key, value) && LineFits(key, value)
    requires forall i :: 0 <= i < |lines| ==> !Sets(lines, i, HeaderText(section), key)
    requires SetLines(lines, section, key, value).Some?
    ensures GetLines(SetLines(lines, section, key, value).value, section, key)
            == if forall j :: e <= j < |lines| ==> Reading(lines[j]) != Header(HeaderText(section)) then Some(value)
               else None
  {
    hide Reading, HeaderText, NewLine, SetLines, GetLines, Under, NewPlace;
    var h, line := HeaderText(section), NewLine(key, value);
    ReadingNewLine(key, value);
    forall j | s < j < e ensures !SetsKey(Reading(lines[j]), key) {
      StretchUnder(lines, h, s, e, j);
      assert !Sets(lines, j, h, key);
    }
    StretchWithin(lines, h, s, e);
    assert Reading(lines[s]) == Header(h);
    hide Sets, Stretch, Storable, LineFits;
    var first := if j :| e <= j < |lines| && Reading(lines[j]) == Header(h) then j else s;
    var s', e', at := LastPart(lines, h, first);
    SetInserts(lines, section, key, value, s', e', at);
    PlaceBounds(lines, s', e', at);
    InsertedSide(lines, h, s, e, s', e', at);
    GetInserted(lines, section, key, value, s, e, at, line);
  }

  lemma {:induction false} GetInserted(lines: seq<string>, section: string, key: string, value: string, s: nat, e: nat,
                                       at: nat, line: string)
    requires Stretch(lines, HeaderText(section), s, e) && s < at <= |lines| && at != e + 1
    requires Reading(line) == Pair(key, value) && forall j :: s < j < e ==> !SetsKey(Reading(lines[j]), key)
    ensures GetLines(lines[..at] + [line] + lines[at..], section, key) == if at <= e then Some(value) else None
  {
    hide Reading, HeaderText, GetLines;
    var after := lines[..at] + [line] + lines[at..];
    StretchInserted(lines, HeaderText(section), s, e, at, line);
    StretchWithin(lines, HeaderText(section), s, e);
    hide Stretch;
    GetMeans(after, section, key, s, if at <= e then e + 1 else e);
    assert after[at] == line;
    assert forall j | s < j < at :: after[j] == lines[j];
  }

  /** The last part of the section ends with the stretch, or begins behind it. */
  lemma {:induction false} InsertedSide(lines: seq<string>, h: string, s: nat, e: nat, s': nat, e': nat, at: nat)
    requires Stretch(lines, h, s, e) && LastSection(lines, |lines|, h, s', e') && s' < at <= e'
    ensures (forall j :: e <= j < |lines| ==> Reading(lines[j]) != Header(h)) ==> s < at <= e
    ensures (exists j :: e <= j < |lines| && Reading(lines[j]) == Header(h)) ==> at > e + 1
  {
    hide Reading;
  }

  lemma {:induction false} PlaceBounds(lines: seq<string>, s: nat, e: nat, at: nat)
    requires NewPlace(lines, s, e, at)
    ensures s < at <= e <= |lines|
  {
  }

  /**
   In any file with the section, the get behind a set of storable arguments answers the value if and only if a line
   before another section begins sets the key already, or no line of the section does and it has no header behind that.
   */
  lemma {:induction false} SetThenGetAny(lines: seq<string>, section: string, key: string, value: string, s: nat,
                                         e: nat)
    requires Stretch(lines, HeaderText(section), s, e) && Storable(section, key, value) && LineFits(key, value)
    requires SetLines(lines, section, key, value).Some?
    ensures GetLines(SetLines(lines, section, key, value).value, section, key) == Some(value)
            <==> SeenAgain(lines, HeaderText(section), key, s, e)
  {
    hide Reading, HeaderText, SetLines, GetLines, Stretch, Sets;
    var h := HeaderText(section);
    if i :| s < i < e && i < |lines| && SetsKey(Reading(lines[i]), key) {
      ExchangedSeen(lines, section, key, value, s, e, i);
    } else if i :| 0 <= i < |lines| && Sets(lines, i, h, key) {
      StretchWithin(lines, h, s, e);
      ExchangedUnseen(lines, section, key, value, s, e, i);
    } else {
      InsertedSeen(lines, section, key, value, s, e);
    }
  }

  lemma {:induction false} StretchWithin(lines: seq<string>, h: string, s: nat, e: nat)
    requires Stretch(lines, h, s, e)
    ensures s < e <= |lines|
  {
  }

  /** The same for whole files. */
  lemma {:induction false} SetThenGetAnyFile(text: string, section: string, key: string, value: string, s: nat, e: nat)
    requires IsCString(text) && |ReadLines(text)| <= 8192 && Stretch(ReadLines(text), HeaderText(section), s, e)
    requires Apart(ReadLines(text), section, key) && Storable(section, key, value) && LineFits(key, value)
    requires IsCString(section) && IsCString(key) && IsCString(value)
    requires SetFile(text, section, key, value).Some?
    ensures GetFile(SetFile(text, section, key, value).value, section, key) == Some(value)
            <==> SeenAgain(ReadLines(text), HeaderText(section), key, s, e)
  {
    var lines := ReadLines(text);
    NewLineComplete(key, value);
    assert !Without(lines, HeaderText(section)) by {
      assert Reading(lines[s]) == Header(HeaderText(section));
    }
    hide ReadLines, WriteLines, SetLines, Apart, NewLine, HeaderText, Complete, GetLines, Stretch, Without;
    ReadReadable(text);
    SetReadable(lines, section, key, value);
    ReadWrite(SetLines(lines, section, key, value).value);
    SetThenGetAny(lines, section, key, value, s, e);
  }

  function RepeatedLines(): seq<string> {
    ["[s]\n", "[t]\n", "[s]\n"]
  }

  lemma {:induction false} RepeatedSays()
    ensures HeaderText("s") == "[s]" && NewLine("k", "v") == "k = v\n" && LineFits("k", "v") && Storable("s", "k", "v")
    ensures Reading("[s]\n") == Header("[s]") && Reading("[t]\n") == Header("[t]")
  {
    assert NewHeader("s") == "[s]\n" && NewHeader("t") == "[t]\n" && HeaderText("t") == "[t]";
    ReadingNewHeader("s");
    ReadingNewHeader("t");
  }

  lemma {:induction false} RepeatedParts()
    ensures var lines := RepeatedLines();
            && |lines| == 3 && Stretch(lines, "[s]", 0, 1) && LastSection(lines, 3, "[s]", 2, 3)
            && NewPlace(lines, 2, 3, 3) && Reading(lines[2]) == Header("[s]")
    ensures forall j :: 0 <= j < 3 ==> !Sets(RepeatedLines(), j, "[s]", "k")
  {
    RepeatedSays();
    hide Reading, Trim, HeaderText, NewLine, Storable, LineFits, Under;
    var lines := RepeatedLines();
    assert lines[0] == lines[2] == "[s]\n" && lines[1] == "[t]\n";
  }

  /** A section that goes on behind another one: the set puts the line there, and the get does not look there. */
  lemma {:induction false} RepeatedSection()
    ensures SetLines(RepeatedLines(), "s", "k", "v") == Some(RepeatedLines() + ["k = v\n"])
    ensures GetLines(RepeatedLines() + ["k = v\n"], "s", "k") == None
  {
    RepeatedSays();
    RepeatedParts();
    hide Reading, NewLine, HeaderText, SetLines, GetLines, RepeatedLines, Storable, LineFits, Stretch, LastSection,
         NewPlace, Sets;
    var lines := RepeatedLines();
    SetInserts(lines, "s", "k", "v", 2, 3, 3);
    assert lines[..3] + ["k = v\n"] + lines[3..] == lines + ["k = v\n"];
    InsertedSeen(lines, "s", "k", "v", 0, 1);
  }
}
