/** The JSON printers: one callback per entry that compares a running count with the size of the tree. */
module ArtJson {
  import opened Wrappers
  import opened Bytes
  import opened Radix
  import opened RadixOrder
  import opened ArtWalk
  import opened ArtMap
  import opened JsonText

  const INDENT_PER_LEVEL := 2

  /** How values are printed behind a tag; the printers of the values themselves are not part of this model. */
  type Render = (Value, string, int) -> string

  /** The texts with a separator between any two, and an ending after the last. */
  function Joined(texts: seq<string>, separator: string, ending: string): string {
    if texts == [] then ""
    else if |texts| == 1 then texts[0] + ending
    else texts[0] + separator + Joined(texts[1..], separator, ending)
  }

  function Texts(entries: seq<Entry>, text: Entry -> string): (texts: seq<string>)
    ensures |texts| == |entries| && forall k :: 0 <= k < |entries| ==> texts[k] == text(entries[k])
  {
    seq(|entries|, k requires 0 <= k < |entries| => text(entries[k]))
  }

  /** What a callback carries along: the text so far, and how many entries it has seen. */
  datatype Progress = Progress(str: string, cnt: nat)

  /**
   The callback: `text` renders one entry, and an entry is taken for the last one when the count of entries so far has
   reached the size of the tree.
   */
  function Printer(text: Entry -> string, separator: string, ending: string, size: nat)
    : (Progress, Entry) -> (Progress, bool)
  {
    (p: Progress, x: Entry) =>
      (Progress(p.str + text(x) + if p.cnt + 1 < size then separator else ending, p.cnt + 1), false)
  }

  /** Printing the entries from the k-th on adds their texts with a separator between any two and the ending. */
  lemma {:induction false} WalkPrints(text: Entry -> string, separator: string, ending: string, entries: seq<Entry>,
                                      p: Progress)
    requires p.cnt <= |entries|
    ensures Walk(Printer(text, separator, ending, |entries|), p, entries[p.cnt..])
            == (Progress(p.str + Joined(Texts(entries, text)[p.cnt..], separator, ending), |entries|), false)
    decreases |entries| - p.cnt
  {
    var k, texts := p.cnt, Texts(entries, text);
    if k == |entries| {
      assert p.str + "" == p.str;
    } else {
      var after := if k + 1 < |entries| then separator else ending;
      var next := Progress(p.str + texts[k] + after, k + 1);
      assert entries[k..][1..] == entries[k + 1..] && entries[k..][0] == entries[k];
      JoinedFrom(texts, k, separator, ending);
      WalkPrints(text, separator, ending, entries, next);
      hide Joined;
      var rest := Joined(texts[k + 1..], separator, ending);
      assert p.str + texts[k] + after + rest == p.str + (texts[k] + after + rest);
    }
  }

  lemma {:induction false} JoinedFrom(texts: seq<string>, k: nat, separator: string, ending: string)
    requires k < |texts|
    ensures Joined(texts[k..], separator, ending)
            == texts[k] + (if k + 1 < |texts| then separator else ending) + Joined(texts[k + 1..], separator, ending)
  {
    assert texts[k..][1..] == texts[k + 1..] && texts[k..][0] == texts[k];
    assert k + 1 == |texts| ==> texts[k] + ending + "" == texts[k] + ending;
  }

  /** What the callbacks append to `start` over the whole tree. */
  method PrintEntries(t: Art, text: Entry -> string, separator: string, ending: string, start: string)
    returns (s: string)
    requires t.Valid()
    ensures exists es :: ListsMap(es, t.contents) && |es| == t.size
                         && s == start + Joined(Texts(es, text), separator, ending)
  {
    hide Art.Valid, ListsMap, Walk, Joined, Printer;
    var printer := Printer(text, separator, ending, t.size);
    var p, stopped := t.ForEach(printer, Progress(start, 0));
    s := p.str;
    ghost var es :| ListsMap(es, t.contents) && |es| == t.size && (p, stopped) == Walk(printer, Progress(start, 0), es);
    WalkPrints(text, separator, ending, es, Progress(start, 0));
    assert es[0..] == es && Texts(es, text)[0..] == Texts(es, text);
  }

  /** One entry: its escaped key in quotes, a colon, and the value as it is printed behind that. */
  function EntryText(x: Entry, colon: string, indent: int, render: Render): string {
    render(x.value, "\"" + Escaped(KeyText(x.key)) + "\"" + colon, indent)
  }

  /** The compact form: an empty tree prints as two braces, any other with a comma between any two entries. */
  method ToCompactJson(t: Art, tag: Option<string>, indent: int, render: Render) returns (s: string)
    requires t.Valid()
    ensures exists es :: ListsMap(es, t.contents) && |es| == t.size
                         && s == Indented("", tag, indent) + "{"
                                 + Joined(Texts(es, x => EntryText(x, ":", indent, render)), ",", "") + "}"
  {
    hide Art.Valid, Indented, EntryText;
    var text := x => EntryText(x, ":", indent, render);
    s := Indent("", tag, indent);
    if t.size == 0 {
      t.Parts();
      assert t.contents == map[];
      assert ListsMap([], t.contents) && Joined(Texts([], text), ",", "") == "";
      s := s + "{}";
      assert s == Indented("", tag, indent) + "{" + "" + "}";
    } else {
      hide ListsMap;
      var start := s + "{";
      s := PrintEntries(t, text, ",", "", start);
      ghost var es :| ListsMap(es, t.contents) && |es| == t.size && s == start + Joined(Texts(es, text), ",", "");
      s := s + "}";
    }
  }

  /** The form with one entry to a line, indented one level more: a comma ends every line but the last. */
  method ToJson(t: Art, tag: Option<string>, indent: int, render: Render) returns (s: string)
    requires t.Valid()
    ensures t.contents == map[] ==> s == Indented("", tag, indent) + "{}"
    ensures t.contents != map[]
            ==> exists es :: ListsMap(es, t.contents) && |es| == t.size
                             && s == Indented("", tag, indent) + "{\n"
                                     + Joined(Texts(es, x => EntryText(x, ": ", indent + INDENT_PER_LEVEL, render)),
                                              ",\n", "\n")
                                     + Spaces(indent) + "}"
  {
    hide ListsMap, Joined, Models, EntryText;
    var text := x => EntryText(x, ": ", indent + INDENT_PER_LEVEL, render);
    s := Indent("", tag, indent);
    if t.size == 0 {
      return s + "{}";
    }
    hide Art.Valid;
    s := PrintEntries(t, text, ",\n", "\n", s + "{\n");
    s := Indent(s, None, indent);
    s := s + "}";
  }

  lemma {:induction false} SameFirst(a: seq<Entry>, b: seq<Entry>)
    requires Sorted(a) && Sorted(b) && (forall x: Entry :: x in a <==> x in b) && a != [] && b != []
    ensures a[0] == b[0]
  {
    hide LexLess;
    assert a[0] in a && b[0] in b;
    var i :| 0 <= i < |a| && a[i] == b[0];
    var j :| 0 <= j < |b| && b[j] == a[0];
    if i > 0 && j > 0 {
      LexTransitive(a[0].key, a[i].key, b[j].key);
      LexIrreflexive(a[0].key);
    }
  }

  lemma {:induction false} TailWithoutFirst(a: seq<Entry>, x: Entry)
    requires Sorted(a) && a != []
    ensures Sorted(a[1..]) && (x in a[1..] <==> x in a && x != a[0])
  {
    hide LexLess;
    LexIrreflexive(a[0].key);
    assert x in a <==> x == a[0] || x in a[1..];
  }

  lemma {:induction false} SortedSame(a: seq<Entry>, b: seq<Entry>)
    requires Sorted(a) && Sorted(b) && forall x: Entry :: x in a <==> x in b
    ensures a == b
  {
    assert (a != [] ==> a[0] in a) && (b != [] ==> b[0] in b);
    if a != [] && b != [] {
      SameFirst(a, b);
      forall x: Entry ensures x in a[1..] <==> x in b[1..] {
        TailWithoutFirst(a, x);
        TailWithoutFirst(b, x);
      }
      SortedSame(a[1..], b[1..]);
      assert a == [a[0]] + a[1..] && b == [b[0]] + b[1..];
    }
  }

  /** There is only one such list, so the text printed for a map depends on nothing but the map. */
  lemma {:induction false} OneList(a: seq<Entry>, b: seq<Entry>, contents: map<Key, Value>)
    requires ListsMap(a, contents) && ListsMap(b, contents)
    ensures a == b
  {
    SortedSame(a, b);
  }
}
