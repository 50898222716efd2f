/** What get, set and delete do to the lines of any file, also when a section has more than one header. */
module IniScan {
  import opened Wrappers
  import opened IniText
  import opened IniGet
  import opened IniEdit
  import opened IniShape

  /** The last header before line i is that of the section. */
  ghost predicate Under(lines: seq<string>, i: nat, h: string)
    requires i <= |lines|
  {
    exists s :: 0 <= s < i && Reading(lines[s]) == Header(h)
                && forall j :: s < j < i ==> !Reading(lines[j]).Header?
  }

  /** A line of the section that sets the key. */
  ghost predicate Sets(lines: seq<string>, i: nat, h: string, key: string) {
    i < |lines| && Under(lines, i, h) && SetsKey(Reading(lines[i]), key)
  }

  /** Line s is the last header of the section among the first n lines, and its lines go up to line e. */
  ghost predicate LastSection(lines: seq<string>, n: nat, h: string, s: int, e: int)
    requires n <= |lines|
  {
    && 0 <= s < e <= n && Reading(lines[s]) == Header(h)
    && (forall j :: s < j < n ==> Reading(lines[j]) != Header(h))
    && (forall j :: s < j < e ==> !Reading(lines[j]).Header?)
    && (e < n ==> Reading(lines[e]).Header?)
  }

  /** What the scan has found in the first i lines. */
  ghost predicate Scanned(sc: Scan, lines: seq<string>, i: nat, h: string, key: string)
    requires i <= |lines|
  {
    && (sc.start < 0 ==> sc.start == -1 && forall j :: 0 <= j < i ==> Reading(lines[j]) != Header(h))
    && (sc.start >= 0 ==> LastSection(lines, i, h, sc.start, if sc.end == |lines| then i else sc.end))
    && (sc.start >= 0 ==> sc.end == |lines| || 0 <= sc.end < i)
    && (sc.keyLine < 0 ==> sc.keyLine == -1 && forall j :: 0 <= j < i ==> !Sets(lines, j, h, key))
    && (sc.keyLine >= 0 ==>
          && sc.keyLine < i && Sets(lines, sc.keyLine, h, key)
          && forall j :: 0 <= j < sc.keyLine ==> !Sets(lines, j, h, key))
  }

  /** One more line, for where the section is. */
  lemma {:induction false} UnderLast(sc: Scan, lines: seq<string>, i: nat, h: string, key: string)
    requires i <= |lines| && Scanned(sc, lines, i, h, key)
    ensures Under(lines, i, h) <==> sc.start >= 0 && (sc.end == |lines| || i == 0)
  {
    hide Reading, Sets;
    if sc.start >= 0 && sc.end == |lines| {
      assert Reading(lines[sc.start]) == Header(h);
    }
    if Under(lines, i, h) {
      var s :| 0 <= s < i && Reading(lines[s]) == Header(h) && forall j :: s < j < i ==> !Reading(lines[j]).Header?;
      assert s == sc.start;
    }
  }

  lemma {:induction false} ScanStep(lines: seq<string>, i: nat, h: string, key: string)
    requires i < |lines| && Scanned(ScanTo(lines, i, h, key), lines, i, h, key)
    ensures Scanned(ScanTo(lines, i + 1, h, key), lines, i + 1, h, key)
  {
    hide Reading;
    var sc, now := ScanTo(lines, i, h, key), ScanTo(lines, i + 1, h, key);
    UnderLast(sc, lines, i, h, key);
    hide Under, ScanTo;
  }

  /**
   The scan of any file finds the last header of the section and the end of its lines, and the first line under any
   header of the section that sets the key.
   */
  lemma {:induction false} ScanMeans(lines: seq<string>, i: nat, h: string, key: string)
    requires i <= |lines|
    ensures Scanned(ScanTo(lines, i, h, key), lines, i, h, key)
  {
    if i > 0 {
      ScanMeans(lines, i - 1, h, key);
      ScanStep(lines, i - 1, h, key);
    }
  }

  // ----- get -----

  /** Without a header of the section a get fails. */
  lemma {:induction false} GetNowhere(lines: seq<string>, section: string, key: string)
    requires forall j :: 0 <= j < |lines| ==> Reading(lines[j]) != Header(HeaderText(section))
    ensures GetLines(lines, section, key) == None
  {
    GetWithout(lines, section, key);
  }

  /** A stretch of lines from a first header of the section, repeated or not, up to the header of another one. */
  ghost predicate Stretch(lines: seq<string>, h: string, s: nat, e: nat) {
    && s < e <= |lines| && Reading(lines[s]) == Header(h)
    && (forall j :: 0 <= j < s ==> Reading(lines[j]) != Header(h))
    && (forall j :: s < j < e && Reading(lines[j]).Header? ==> Reading(lines[j]) == Header(h))
    && (e < |lines| ==> Reading(lines[e]).Header? && Reading(lines[e]) != Header(h))
  }

  /** A get answers the first line of that stretch that sets the key, and fails if there is none. */
  lemma {:induction false} GetMeans(lines: seq<string>, section: string, key: string, s: nat, e: nat)
    requires Stretch(lines, HeaderText(section), s, e)
    ensures forall i :: s < i < e && SetsKey(Reading(lines[i]), key)
              && (forall j :: s < j < i ==> !SetsKey(Reading(lines[j]), key))
              ==> GetLines(lines, section, key) == Some(Reading(lines[i]).value)
    ensures (forall i :: s < i < e ==> !SetsKey(Reading(lines[i]), key)) ==> GetLines(lines, section, key) == None
  {
    hide Reading, HeaderText, GetLines, FirstIndex, FirstValue;
    var body := lines[s + 1..e];
    GetStretch(lines, section, key, s, e);
    hide Stretch;
    FirstValueAt(body, key);
    assert forall i | s < i < e :: body[i - s - 1] == lines[i];
    forall i | s < i < e && SetsKey(Reading(lines[i]), key)
               && (forall j :: s < j < i ==> !SetsKey(Reading(lines[j]), key))
      ensures GetLines(lines, section, key) == Some(Reading(lines[i]).value)
    {
      FirstIndexIs(body, key, i - s - 1);
    }
    if forall i :: s < i < e ==> !SetsKey(Reading(lines[i]), key) {
      FirstIndexIs(body, key, |body|);
    }
  }

  lemma {:induction false} GetStretch(lines: seq<string>, section: string, key: string, s: nat, e: nat)
    requires Stretch(lines, HeaderText(section), s, e)
    ensures GetLines(lines, section, key) == FirstValue(lines[s + 1..e], key)
  {
    hide Reading, HeaderText, FirstValue;
    var h := HeaderText(section);
    var front, body, rest := lines[..s], lines[s + 1..e], lines[e..];
    assert lines == front + ([lines[s]] + (body + rest));
    FollowConcat(Going(false), front, [lines[s]] + (body + rest), h, key);
    FollowOutside(front, h, key);
    FollowConcat(Going(false), [lines[s]], body + rest, h, key);
    FollowOne(Going(false), lines[s], h, key);
    FollowConcat(Going(true), body, rest, h, key);
    FollowStretch(body, h, key);
    FollowLeaves(rest, h, key);
  }

  /** The header of another section ends the scan. */
  lemma {:induction false} FollowLeaves(lines: seq<string>, h: string, key: string)
    requires lines != [] ==> Reading(lines[0]).Header? && Reading(lines[0]) != Header(h)
    ensures Follow(Going(true), lines, h, key) == if lines == [] then Going(true) else Done(None)
  {
    hide Reading;
  }

  /** Over headers of the same section the scan stays inside it. */
  lemma {:induction false} FollowStretch(lines: seq<string>, h: string, key: string)
    requires forall j :: 0 <= j < |lines| && Reading(lines[j]).Header? ==> Reading(lines[j]) == Header(h)
    ensures Follow(Going(true), lines, h, key)
            == if FirstValue(lines, key).Some? then Done(FirstValue(lines, key)) else Going(true)
  {
    hide Reading;
    if lines != [] {
      FollowStretch(lines[1..], h, key);
    }
  }

  // ----- set -----

  /** A set exchanges the first line of the section that sets the key, whichever of its headers it stands under. */
  lemma {:induction false} SetExchanges(lines: seq<string>, section: string, key: string, value: string, i: nat)
    requires var h := HeaderText(section);
             Sets(lines, i, h, key) && forall j :: 0 <= j < i ==> !Sets(lines, j, h, key)
    ensures i < |lines| && SetLines(lines, section, key, value) == Some(lines[i := NewLine(key, value)])
  {
    hide Reading, HeaderText, NewLine, NewHeader, Padding, ScanTo, InsertPoint, Under;
    ScanBounds(lines, |lines|, HeaderText(section), key);
    ScanMeans(lines, |lines|, HeaderText(section), key);
  }

  /** If none sets it, the new line goes behind the last line of the last part that is not blank, or to its end. */
  lemma {:induction false} SetInserts(lines: seq<string>, section: string, key: string, value: string, s: nat, e: nat,
        at: nat)
    requires LastSection(lines, |lines|, HeaderText(section), s, e) && NewPlace(lines, s, e, at)
    requires forall j :: 0 <= j < |lines| ==> !Sets(lines, j, HeaderText(section), key)
    ensures SetLines(lines, section, key, value)
            == if |lines| >= 8192 then None else Some(lines[..at] + [NewLine(key, value)] + lines[at..])
  {
    hide Reading, HeaderText, NewLine, NewHeader, Padding, ScanTo, InsertPoint, Sets;
    var h, n := HeaderText(section), |lines|;
    ScanBounds(lines, n, h, key);
    ScanMeans(lines, n, h, key);
    var sc := ScanTo(lines, n, h, key);
    OneLast(lines, n, h, s, e, sc.start, sc.end);
    PlaceIs(lines, s, e, at);
  }

  /**
   Without the section, its header and the line go to the end of the file, behind a blank line if the last line ends
   with a newline and is not blank.
   */
  lemma {:induction false} SetAppends(lines: seq<string>, section: string, key: string, value: string)
    requires forall j :: 0 <= j < |lines| ==> Reading(lines[j]) != Header(HeaderText(section))
    ensures var blank := lines != [] && lines[|lines| - 1] != "" && Trim(lines[|lines| - 1]) != ""
                         && lines[|lines| - 1][|lines[|lines| - 1]| - 1] == '\n';
            SetLines(lines, section, key, value)
            == if |lines| + 2 >= 8192 then None
               else Some(lines + (if blank then ["\n"] else []) + [NewHeader(section), NewLine(key, value)])
  {
    hide Reading, HeaderText, NewLine, NewHeader, ScanTo, InsertPoint, Sets;
    ScanBounds(lines, |lines|, HeaderText(section), key);
    ScanNothing(lines, |lines|, HeaderText(section), key);
  }

  /** Behind the last line between s and e that is not blank, or at e if there is none. */
  ghost predicate NewPlace(lines: seq<string>, s: nat, e: nat, at: nat) {
    && s < at <= e <= |lines|
    && if forall j :: s < j < e ==> Trim(lines[j]) == "" then at == e
       else s + 1 < at && Trim(lines[at - 1]) != "" && forall j :: at <= j < e ==> Trim(lines[j]) == ""
  }

  lemma {:induction false} PlaceIs(lines: seq<string>, s: nat, e: nat, at: nat)
    requires s < e && NewPlace(lines, s, e, at)
    ensures at == InsertPoint(lines, s, e, e)
  {
    hide Trim, InsertPoint;
    InsertPointMeans(lines, s, e, e);
  }

  /** There is only one last header, and only one end of its lines. */
  lemma {:induction false} OneLast(lines: seq<string>, n: nat, h: string, s: int, e: int, s': int, e': int)
    requires n <= |lines| && LastSection(lines, n, h, s, e)
    requires s' < 0 ==> forall j :: 0 <= j < n ==> Reading(lines[j]) != Header(h)
    requires s' >= 0 ==> LastSection(lines, n, h, s', e')
    ensures s == s' && e == e'
  {
    hide Reading;
  }

  // ----- del -----

  /** Dropping keeps every line that does not set the key, as often as it is there, and no other. */
  lemma {:induction false} DroppingExact(lines: seq<string>, key: string)
    ensures forall x :: multiset(Dropping(lines, key))[x]
                        == if SetsKey(Reading(x), key) then 0 else multiset(lines)[x]
  {
    hide Reading;
    if lines != [] {
      DroppingExact(lines[1..], key);
      var first := if SetsKey(Reading(lines[0]), key) then [] else [lines[0]];
      assert lines == [lines[0]] + lines[1..];
      assert multiset(Dropping(lines, key)) == multiset(first) + multiset(Dropping(lines[1..], key));
    }
  }

  /**
   A delete fails without a header of the section. Otherwise it drops the last part of the section with its header, or
   of its lines those that set the key, and leaves all other lines.
   */
  lemma {:induction false} DelMeans(lines: seq<string>, section: string, key: Option<string>)
    ensures var h, n, result := HeaderText(section), |lines|, DelLines(lines, section, key);
            && (result.None? <==> forall j :: 0 <= j < n ==> Reading(lines[j]) != Header(h))
            && (forall s, e :: LastSection(lines, n, h, s, e) ==>
                  result == Some(if key.None? then lines[..s] + lines[e..]
                                 else lines[..s + 1] + Dropping(lines[s + 1..e], key.value) + lines[e..]))
  {
    hide Reading, HeaderText, ScanTo, Dropping, Sets;
    var h, n := HeaderText(section), |lines|;
    ScanBounds(lines, n, h, "");
    ScanMeans(lines, n, h, "");
    var sc := ScanTo(lines, n, h, "");
    assert sc.start >= 0 ==> Reading(lines[sc.start]) == Header(h);
    forall s, e | LastSection(lines, n, h, s, e) ensures sc.start == s && sc.end == e {
      OneLast(lines, n, h, s, e, sc.start, sc.end);
    }
  }
}
