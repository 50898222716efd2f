/** What a set or a delete does to a file that is cut at the section. */
module IniShape {
  import opened Wrappers
  import opened IniText
  import opened IniGet
  import opened IniEdit

  /** The first line of a body that sets the key; its length when none does. */
  function FirstIndex(body: seq<string>, key: string): (i: nat)
    ensures i <= |body|
    ensures forall j | 0 <= j < i :: !SetsKey(Reading(body[j]), key)
    ensures i < |body| ==> SetsKey(Reading(body[i]), key)
  {
    hide Reading;
    if body == [] || SetsKey(Reading(body[0]), key) then 0
    else 1 + FirstIndex(body[1..], key)
  }

  /** The first index is the only one with nothing before it. */
  lemma {:induction false} FirstIndexIs(body: seq<string>, key: string, i: nat)
    requires i <= |body| && forall j | 0 <= j < i :: !SetsKey(Reading(body[j]), key)
    requires i < |body| ==> SetsKey(Reading(body[i]), key)
    ensures FirstIndex(body, key) == i
  {
    hide Reading;
    var k := FirstIndex(body, key);
  }

  lemma {:induction false} FirstIndexPrefix(body: seq<string>, key: string, i: nat)
    requires i < |body|
    ensures FirstIndex(body[..i + 1], key)
            == if FirstIndex(body[..i], key) < i then FirstIndex(body[..i], key)
               else if SetsKey(Reading(body[i]), key) then i else i + 1
  {
    hide Reading;
    var k := FirstIndex(body[..i], key);
    var a, b := body[..i + 1], body[..i];
    assert forall j | 0 <= j < i :: a[j] == b[j];
    FirstIndexIs(a, key, if k < i then k else if SetsKey(Reading(body[i]), key) then i else i + 1);
  }

  /** The value found is that of the first index. */
  lemma {:induction false} FirstValueAt(body: seq<string>, key: string)
    ensures var i := FirstIndex(body, key);
            FirstValue(body, key) == if i < |body| then Some(Reading(body[i]).value) else None
  {
    hide Reading;
    if body != [] && !SetsKey(Reading(body[0]), key) {
      FirstValueAt(body[1..], key);
    }
  }

  // ----- what the scan finds -----

  lemma {:induction false} ScanNothing(lines: seq<string>, i: nat, h: string, key: string)
    requires i <= |lines| && Without(lines, h)
    ensures ScanTo(lines, i, h, key) == Scan(-1, -1, -1)
  {
    hide Reading;
    if i > 0 {
      ScanNothing(lines, i - 1, h, key);
      assert Reading(lines[i - 1]) != Header(h);
    }
  }

  lemma {:induction false} ScanSees(lines: seq<string>, i: nat, h: string, key: string, j: nat)
    requires j < i <= |lines| && Reading(lines[j]) == Header(h)
    ensures ScanTo(lines, i, h, key).start >= 0
  {
    hide Reading;
    if j < i - 1 {
      ScanSees(lines, i - 1, h, key, j);
    }
  }

  /** The scan finds a section exactly when a line is its header. */
  lemma {:induction false} ScanMissing(lines: seq<string>, h: string, key: string)
    ensures ScanTo(lines, |lines|, h, key).start < 0 <==> Without(lines, h)
  {
    hide Reading, ScanTo;
    if Without(lines, h) {
      ScanNothing(lines, |lines|, h, key);
    } else {
      var j :| 0 <= j < |lines| && Reading(lines[j]) == Header(h);
      ScanSees(lines, |lines|, h, key, j);
    }
  }

  lemma {:induction false} WholeAt(c: Cut)
    ensures |c.Whole()| == |c.before| + 1 + |c.body| + |c.after|
    ensures forall i | 0 <= i < |c.before| :: c.Whole()[i] == c.before[i]
    ensures c.Whole()[|c.before|] == c.header
    ensures forall i | 0 <= i < |c.body| :: c.Whole()[|c.before| + 1 + i] == c.body[i]
    ensures forall i | 0 <= i < |c.after| :: c.Whole()[|c.before| + 1 + |c.body| + i] == c.after[i]
  {
  }

  ghost function KeyLine(c: Cut, key: string, m: nat): int
    requires m <= |c.body|
  {
    var k := FirstIndex(c.body[..m], key);
    if k < m then |c.before| + 1 + k else -1
  }

  lemma {:induction false} ScanBefore(c: Cut, h: string, key: string, i: nat)
    requires c.Around(h) && i <= |c.before|
    ensures ScanTo(c.Whole(), i, h, key) == Scan(-1, -1, -1)
  {
    hide Reading, Cut.Whole;
    WholeAt(c);
    if i > 0 {
      ScanBefore(c, h, key, i - 1);
      assert c.Whole()[i - 1] == c.before[i - 1];
      assert Reading(c.before[i - 1]) != Header(h);
    }
  }

  lemma {:induction false} BodyLine(c: Cut, h: string, m: nat)
    requires c.Around(h) && m <= |c.body|
    ensures m > 0 ==> !Reading(c.body[m - 1]).Header?
  {
  }

  lemma {:induction false} ScanBody(c: Cut, h: string, key: string, m: nat)
    requires c.Around(h) && m <= |c.body|
    ensures ScanTo(c.Whole(), |c.before| + 1 + m, h, key) == Scan(|c.before|, |c.Whole()|, KeyLine(c, key, m))
  {
    hide Reading, Cut.Whole, FirstIndex, NoHeader, Without;
    BodyLine(c, h, m);
    WholeAt(c);
    var s := |c.before|;
    if m == 0 {
      ScanBefore(c, h, key, s);
      assert c.body[..0] == [];
    } else {
      ScanBody(c, h, key, m - 1);
      assert c.Whole()[s + 1 + (m - 1)] == c.body[m - 1];
      FirstIndexPrefix(c.body, key, m - 1);
    }
  }

  lemma {:induction false} ScanAfter(c: Cut, h: string, key: string, m: nat)
    requires c.Around(h) && 0 < m <= |c.after|
    ensures ScanTo(c.Whole(), |c.before| + 1 + |c.body| + m, h, key)
            == Scan(|c.before|, |c.before| + 1 + |c.body|, KeyLine(c, key, |c.body|))
  {
    hide Reading, Cut.Whole;
    WholeAt(c);
    var e := |c.before| + 1 + |c.body|;
    assert c.Whole()[e + (m - 1)] == c.after[m - 1];
    assert Reading(c.after[m - 1]) != Header(h);
    if m == 1 {
      ScanBody(c, h, key, |c.body|);
    } else {
      ScanAfter(c, h, key, m - 1);
    }
  }

  /** The scan of a file with one header of the section finds its lines and the first line that sets the key. */
  lemma {:induction false} ScanFinds(c: Cut, h: string, key: string)
    requires c.Around(h)
    ensures var k := FirstIndex(c.body, key);
            ScanTo(c.Whole(), |c.Whole()|, h, key)
            == Scan(|c.before|, |c.before| + 1 + |c.body|, if k < |c.body| then |c.before| + 1 + k else -1)
  {
    hide Reading, Cut.Whole;
    WholeAt(c);
    assert c.body[..|c.body|] == c.body;
    if c.after == [] {
      ScanBody(c, h, key, |c.body|);
    } else {
      ScanAfter(c, h, key, |c.after|);
    }
  }

  lemma {:induction false} WholeSlices(c: Cut)
    ensures c.Whole()[..|c.before|] == c.before
    ensures c.Whole()[..|c.before| + 1] == c.before + [c.header]
    ensures c.Whole()[|c.before| + 1..|c.before| + 1 + |c.body|] == c.body
    ensures c.Whole()[|c.before| + 1 + |c.body|..] == c.after
  {
  }

  // ----- the shapes of the results -----

  function InsertedAt(body: seq<string>, at: nat, line: string): seq<string>
    requires at <= |body|
  {
    body[..at] + [line] + body[at..]
  }

  /** Where in the body a new line goes. */
  function PlaceIn(c: Cut): (at: nat)
    ensures at <= |c.body|
  {
    WholeAt(c);
    var s, e := |c.before|, |c.before| + 1 + |c.body|;
    InsertPoint(c.Whole(), s, e, e) - (s + 1)
  }

  /** A set changes one line of the body, or puts one line into it, and leaves every other line as it is. */
  lemma {:induction false} SetInSection(c: Cut, section: string, key: string, value: string)
    requires c.Around(HeaderText(section))
    ensures FirstIndex(c.body, key) < |c.body| ==>
              SetLines(c.Whole(), section, key, value)
              == Some(c.(body := c.body[FirstIndex(c.body, key) := NewLine(key, value)]).Whole())
    ensures FirstIndex(c.body, key) == |c.body| ==>
              SetLines(c.Whole(), section, key, value)
              == if |c.Whole()| >= 8192 then None
                 else Some(c.(body := InsertedAt(c.body, PlaceIn(c), NewLine(key, value))).Whole())
  {
    hide Reading, NewLine, HeaderText, ScanTo, Cut.Whole, InsertPoint, InsertedAt;
    ScanFinds(c, HeaderText(section), key);
    WholeAt(c);
    var k := FirstIndex(c.body, key);
    var line := NewLine(key, value);
    if k < |c.body| {
      WholeUpdate(c, k, line);
    } else {
      WholeInsert(c, PlaceIn(c), line);
    }
  }

  lemma {:induction false} WholeUpdate(c: Cut, k: nat, line: string)
    requires k < |c.body|
    ensures |c.before| + 1 + k < |c.Whole()|
    ensures c.Whole()[|c.before| + 1 + k := line] == c.(body := c.body[k := line]).Whole()
  {
  }

  lemma {:induction false} WholeInsert(c: Cut, at: nat, line: string)
    requires at <= |c.body|
    ensures |c.before| + 1 + at <= |c.Whole()|
    ensures c.Whole()[..|c.before| + 1 + at] + [line] + c.Whole()[|c.before| + 1 + at..]
            == c.(body := InsertedAt(c.body, at, line)).Whole()
  {
    var i := |c.before| + 1 + at;
    assert c.Whole()[..i] == c.before + [c.header] + c.body[..at];
    assert c.Whole()[i..] == c.body[at..] + c.after;
  }

  lemma {:induction false} SetNewSection(lines: seq<string>, section: string, key: string, value: string)
    requires Without(lines, HeaderText(section))
    ensures SetLines(lines, section, key, value)
            == if |lines| + 2 >= 8192 then None
               else Some(Cut(lines + Padding(lines), NewHeader(section), [NewLine(key, value)], []).Whole())
  {
    hide Reading, NewLine, NewHeader, HeaderText, Padding;
    ScanNothing(lines, |lines|, HeaderText(section), key);
    var c := Cut(lines + Padding(lines), NewHeader(section), [NewLine(key, value)], []);
    assert c.Whole() == lines + Padding(lines) + [NewHeader(section), NewLine(key, value)];
  }

  lemma {:induction false} DelInSection(c: Cut, section: string, key: Option<string>)
    requires c.Around(HeaderText(section))
    ensures DelLines(c.Whole(), section, key)
            == if key.None? then Some(c.before + c.after) else Some(c.(body := Dropping(c.body, key.value)).Whole())
  {
    hide Reading, HeaderText, ScanTo;
    ScanFinds(c, HeaderText(section), "");
    WholeSlices(c);
    WholeAt(c);
  }

  lemma {:induction false} DelNothing(lines: seq<string>, section: string, key: Option<string>)
    requires Without(lines, HeaderText(section))
    ensures DelLines(lines, section, key) == None
  {
    ScanNothing(lines, |lines|, HeaderText(section), "");
  }

  lemma {:induction false} DroppingConcat(a: seq<string>, b: seq<string>, key: string)
    ensures Dropping(a + b, key) == Dropping(a, key) + Dropping(b, key)
  {
    hide Reading;
    if a == [] {
      assert a + b == b;
    } else {
      assert (a + b)[1..] == a[1..] + b;
      DroppingConcat(a[1..], b, key);
    }
  }

  /** A body without the key loses no line. */
  lemma {:induction false} DroppingAbsent(body: seq<string>, key: string)
    requires FirstIndex(body, key) == |body|
    ensures Dropping(body, key) == body
  {
    hide Reading;
    if body != [] {
      assert !SetsKey(Reading(body[0]), key);
      FirstIndexIs(body[1..], key, |body| - 1);
      DroppingAbsent(body[1..], key);
    }
  }
}
