/** Reading a value: the scan for a section and a key, and what it finds. */
module IniGet {
  import opened Wrappers
  import opened IniText

  const HEADER_ROOM := 127
  const LINE_ROOM := 4095

  /** snprintf into a buffer: what does not fit is cut off. */
  function Printed(s: string, room: nat): string {
    if |s| <= room then s else s[..room]
  }

  function HeaderText(section: string): string {
    Printed("[" + section + "]", HEADER_ROOM)
  }

  // ----- the scan, one line at a time -----

  /** Still looking, inside the section or not, or done with an answer. */
  datatype Progress = Going(inside: bool) | Done(answer: Option<string>)

  function Look(r: Says, inside: bool, h: string, key: string): Progress {
    match r
    case Header(t) => if t == h then Going(true) else if inside then Done(None) else Going(false)
    case Pair(k, v) => if inside && k == key then Done(Some(v)) else Going(inside)
    case _ => Going(inside)
  }

  function Follow(p: Progress, lines: seq<string>, h: string, key: string): Progress
    decreases lines
  {
    if p.Done? || lines == [] then p else Follow(Look(Reading(lines[0]), p.inside, h, key), lines[1..], h, key)
  }

  function GetLines(lines: seq<string>, section: string, key: string): Option<string> {
    var p := Follow(Going(false), lines, HeaderText(section), key);
    if p.Going? then None else p.answer
  }

  method ConfigGet(lines: seq<string>, section: string, key: string) returns (value: Option<string>)
    ensures value == GetLines(lines, section, key)
  {
    hide Reading, HeaderText;
    var h := HeaderText(section);
    var inSection := false;
    for i := 0 to |lines|
      invariant Follow(Going(inSection), lines[i..], h, key) == Follow(Going(false), lines, h, key)
    {
      assert lines[i..][0] == lines[i] && lines[i..][1..] == lines[i + 1..];
      match Reading(lines[i])
      case Blank => continue;
      case Comment => continue;
      case Header(t) =>
        if t == h {
          inSection := true;
        } else if inSection {
          return None;
        }
      case Pair(k, v) =>
        if inSection && k == key {
          return Some(v);
        }
      case Other =>
    }
    value := None;
  }

  predicate SetsKey(r: Says, key: string) {
    r.Pair? && r.key == key
  }

  // ----- following a concatenation -----

  lemma {:induction false} FollowConcat(p: Progress, a: seq<string>, b: seq<string>, h: string, key: string)
    ensures Follow(p, a + b, h, key) == Follow(Follow(p, a, h, key), b, h, key)
    decreases a
  {
    hide Reading, Look;
    if a == [] {
      assert a + b == b;
    } else if p.Going? {
      assert (a + b)[1..] == a[1..] + b;
      FollowConcat(Look(Reading(a[0]), p.inside, h, key), a[1..], b, h, key);
    }
  }

  ghost predicate NoHeader(lines: seq<string>) {
    forall i | 0 <= i < |lines| :: !Reading(lines[i]).Header?
  }

  ghost predicate Without(lines: seq<string>, h: string) {
    forall i | 0 <= i < |lines| :: Reading(lines[i]) != Header(h)
  }

  /** Before its header a section is not entered. */
  lemma {:induction false} FollowOutside(lines: seq<string>, h: string, key: string)
    requires Without(lines, h)
    ensures Follow(Going(false), lines, h, key) == Going(false)
  {
    hide Reading;
    if lines != [] {
      assert Reading(lines[0]) != Header(h);
      FollowOutside(lines[1..], h, key);
    }
  }

  /** Between headers the scan stays where it is, unless it finds the key in its own section. */
  lemma {:induction false} FollowBody(inside: bool, lines: seq<string>, h: string, key: string)
    requires NoHeader(lines)
    ensures Follow(Going(inside), lines, h, key)
            == if inside && FirstValue(lines, key).Some? then Done(FirstValue(lines, key)) else Going(inside)
  {
    hide Reading;
    if lines != [] {
      assert !Reading(lines[0]).Header?;
      FollowBody(inside, lines[1..], h, key);
    }
  }

  /** The value of the first line that sets the key. */
  function FirstValue(lines: seq<string>, key: string): Option<string> {
    if lines == [] then None
    else if SetsKey(Reading(lines[0]), key) then Some(Reading(lines[0]).value)
    else FirstValue(lines[1..], key)
  }

  lemma {:induction false} FirstValueConcat(a: seq<string>, b: seq<string>, key: string)
    ensures FirstValue(a + b, key) == if FirstValue(a, key).Some? then FirstValue(a, key) else FirstValue(b, key)
  {
    hide Reading;
    if a == [] {
      assert a + b == b;
    } else {
      assert (a + b)[1..] == a[1..] + b;
      FirstValueConcat(a[1..], b, key);
    }
  }

  // ----- a file cut at one section -----

  /** Lines before a header, the header line, the body up to the next header, and the rest. */
  datatype Cut = Cut(before: seq<string>, header: string, body: seq<string>, after: seq<string>) {
    function Whole(): seq<string> {
      before + [header] + body + after
    }

    /** The header is h and occurs nowhere else; the rest is empty or starts with another header. */
    ghost predicate Around(h: string) {
      && Reading(header) == Header(h)
      && Without(before, h) && NoHeader(body) && Without(after, h)
      && (after != [] ==> Reading(after[0]).Header?)
    }
  }

  lemma {:induction false} CutAssociates(c: Cut)
    ensures c.Whole() == c.before + ([c.header] + (c.body + c.after))
  {
  }

  /** In its section, a key has the value of the first line of the body that sets it. */
  lemma {:induction false} GetInCut(c: Cut, section: string, key: string)
    requires c.Around(HeaderText(section))
    ensures GetLines(c.Whole(), section, key) == FirstValue(c.body, key)
  {
    hide Reading, HeaderText;
    var h := HeaderText(section);
    CutAssociates(c);
    FollowConcat(Going(false), c.before, [c.header] + (c.body + c.after), h, key);
    FollowOutside(c.before, h, key);
    FollowConcat(Going(false), [c.header], c.body + c.after, h, key);
    FollowOne(Going(false), c.header, h, key);
    FollowConcat(Going(true), c.body, c.after, h, key);
    FollowBody(true, c.body, h, key);
    FollowEnd(c.after, h, key);
  }

  lemma {:induction false} FollowOne(p: Progress, line: string, h: string, key: string)
    requires p.Going?
    ensures Follow(p, [line], h, key) == Look(Reading(line), p.inside, h, key)
  {
    hide Reading, Look;
    assert [line][1..] == [];
  }

  lemma {:induction false} FollowEnd(after: seq<string>, h: string, key: string)
    requires Without(after, h) && (after != [] ==> Reading(after[0]).Header?)
    ensures Follow(Going(true), after, h, key) == if after == [] then Going(true) else Done(None)
  {
    hide Reading;
  }

  lemma {:induction false} GetWithout(lines: seq<string>, section: string, key: string)
    requires Without(lines, HeaderText(section))
    ensures GetLines(lines, section, key) == None
  {
    FollowOutside(lines, HeaderText(section), key);
  }

  /** Another section does not see where it stands after the header and part of the body of this one. */
  lemma {:induction false} FollowForeign(p: Progress, header: string, body: seq<string>, h: string, other: string,
        key: string)
    requires Reading(header) == Header(h) && h != other && NoHeader(body)
    ensures var q := Follow(p, [header] + body, other, key);
            q == (if p.Done? then p else if p.inside then Done(None) else Going(false))
  {
    hide Reading;
    if p.Going? {
      FollowConcat(p, [header], body, other, key);
      FollowOne(p, header, other, key);
      FollowBody(false, body, other, key);
    }
  }

  /** Two bodies under one header look the same from any other section. */
  lemma {:induction false} OtherSection(c: Cut, body: seq<string>, h: string, section: string, key: string)
    requires Reading(c.header) == Header(h) && NoHeader(c.body) && NoHeader(body) && HeaderText(section) != h
    ensures GetLines(c.Whole(), section, key) == GetLines(c.(body := body).Whole(), section, key)
  {
    hide Reading, HeaderText;
    var other := HeaderText(section);
    var p := Follow(Going(false), c.before, other, key);
    BodyForeign(c, h, other, key);
    BodyForeign(c.(body := body), h, other, key);
  }

  lemma {:induction false} BodyForeign(c: Cut, h: string, other: string, key: string)
    requires Reading(c.header) == Header(h) && NoHeader(c.body) && other != h
    ensures var p := Follow(Going(false), c.before, other, key);
            Follow(Going(false), c.Whole(), other, key)
            == Follow(if p.Done? then p else if p.inside then Done(None) else Going(false), c.after, other, key)
  {
    hide Reading;
    assert c.Whole() == c.before + (([c.header] + c.body) + c.after);
    FollowConcat(Going(false), c.before, ([c.header] + c.body) + c.after, other, key);
    var p := Follow(Going(false), c.before, other, key);
    FollowConcat(p, [c.header] + c.body, c.after, other, key);
    FollowForeign(p, c.header, c.body, h, other, key);
  }
}
