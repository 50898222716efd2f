/** Reading back what the JSON printers of the tree have written, by a reader that knows nothing of them. */
module JsonRead {
  import opened Wrappers
  import opened Radix
  import opened RadixOrder
  import opened JsonText
  import opened ArtJson

  type Reader = string -> Option<(Value, string)>

  datatype Member = Member(key: string, value: Value)

  /**
   The members of an object and the text behind them: blanks, a string, the colon, a value, and then the separator and
   another member, or the ending.
   */
  function ReadMembers(text: string, blanks: nat, colon: string, separator: string, ending: string, read: Reader)
    : Option<(seq<Member>, string)>
    decreases |text|
  {
    if |text| <= blanks || !Blanks(text[..blanks], blanks) || text[blanks] != '\"' then None
    else
      var key := ReadString(text[blanks + 1..]);
      if key.None? || !(colon <= key.value.1) then None
      else
        var value := read(key.value.1[|colon|..]);
        if value.None? then None
        else
          var member, rest := Member(key.value.0, value.value.0), value.value.1;
          if separator <= rest && |rest| - |separator| < |text| then
            var more := ReadMembers(rest[|separator|..], blanks, colon, separator, ending, read);
            if more.None? then None else Some(([member] + more.value.0, more.value.1))
          else if ending <= rest then Some(([member], rest[|ending|..]))
          else None
  }

  /** What follows a value in an object. */
  predicate Follows(rest: string) {
    rest != "" && (rest[0] == ',' || rest[0] == '\n' || rest[0] == '}')
  }

  /** A value printed behind n blanks and its tag. */
  ghost predicate BehindTag(render: Render, body: Value -> string, n: int, v: Value, tag: string) {
    exists blanks :: Blanks(blanks, n) && render(v, tag, n) == blanks + tag + body(v)
  }

  /** Values are printed behind n blanks and their tag, and the reader finds them and their end. */
  ghost predicate Understands(read: Reader, render: Render, body: Value -> string, n: int) {
    && (forall v, tag :: BehindTag(render, body, n, v, tag))
    && (forall v, rest :: Follows(rest) ==> read(body(v) + rest) == Some((v, rest)))
  }

  function MembersOf(es: seq<Entry>): (ms: seq<Member>)
    ensures |ms| == |es|
    ensures forall i :: 0 <= i < |es| ==> ms[i].value == es[i].value && ms[i].key == KeyText(es[i].key)
  {
    if es == [] then [] else [Member(KeyText(es[0].key), es[0].value)] + MembersOf(es[1..])
  }

  /** The tag of an entry is its key as a JSON string, and the colon. */
  lemma {:induction false} EntryTag(x: Entry, colon: string, indent: int, render: Render) returns (tag: string)
    ensures EntryText(x, colon, indent, render) == render(x.value, tag, indent)
    ensures tag != "" && tag[0] == '\"' && ReadString(tag[1..]) == Some((KeyText(x.key), colon))
  {
    tag := "\"" + Escaped(KeyText(x.key)) + "\"" + colon;
    ReadEscaped(KeyText(x.key), colon);
    assert tag[1..] == Escaped(KeyText(x.key)) + "\"" + colon;
  }

  /** One entry and what follows it. */
  lemma {:induction false} EntryReads(x: Entry, colon: string, indent: int, render: Render, body: Value -> string,
                                      read: Reader, rest: string) returns (blanks: string)
    requires Understands(read, render, body, indent) && Follows(rest)
    ensures Blanks(blanks, indent)
    ensures var text, n := EntryText(x, colon, indent, render) + rest, |blanks|;
            && |text| > n && text[..n] == blanks && text[n] == '\"' && |rest| < |text|
            && ReadString(text[n + 1..]) == Some((KeyText(x.key), colon + body(x.value) + rest))
            && read(body(x.value) + rest) == Some((x.value, rest))
  {
    var key := Escaped(KeyText(x.key));
    var tag := "\"" + key + "\"" + colon;
    blanks := Rendered(read, render, body, indent, x.value, tag);
    var after := colon + body(x.value) + rest;
    ReadEscaped(KeyText(x.key), after);
    hide Escaped, ReadString, KeyText, Blanks;
    Regrouped(blanks, key, colon, body(x.value), rest);
  }

  lemma {:induction false} Rendered(read: Reader, render: Render, body: Value -> string, n: int, v: Value, tag: string)
    returns (blanks: string)
    requires Understands(read, render, body, n)
    ensures Blanks(blanks, n) && render(v, tag, n) == blanks + tag + body(v)
  {
    hide Blanks;
    assert BehindTag(render, body, n, v, tag);
    blanks :| Blanks(blanks, n) && render(v, tag, n) == blanks + tag + body(v);
  }

  lemma {:induction false} Regrouped(blanks: string, key: string, colon: string, value: string, rest: string)
    ensures var text := blanks + ("\"" + key + "\"" + colon) + value + rest;
            && |text| > |blanks| + |rest| && text[..|blanks|] == blanks && text[|blanks|] == '\"'
            && text[|blanks| + 1..] == key + "\"" + (colon + value + rest)
  {
  }

  /** One entry is read as its member, and then what follows it. */
  lemma {:induction false} MemberRead(x: Entry, colon: string, separator: string, ending: string, indent: int,
                                      render: Render, body: Value -> string, read: Reader, rest: string)
    requires Understands(read, render, body, indent) && Follows(rest)
    ensures var text, n := EntryText(x, colon, indent, render) + rest, if indent > 0 then indent else 0;
            var member := Member(KeyText(x.key), x.value);
            ReadMembers(text, n, colon, separator, ending, read)
            == if separator <= rest then
                 var more := ReadMembers(rest[|separator|..], n, colon, separator, ending, read);
                 if more.None? then None else Some(([member] + more.value.0, more.value.1))
               else if ending <= rest then Some(([member], rest[|ending|..]))
               else None
  {
    hide EntryText, ReadString, KeyText, Understands;
    var blanks := EntryReads(x, colon, indent, render, body, read, rest);
    var after := colon + body(x.value) + rest;
    assert after[..|colon|] == colon && after[|colon|..] == body(x.value) + rest;
  }

  /** The printed entries are read back as they are, up to the ending. */
  lemma {:induction false} EntriesRead(es: seq<Entry>, colon: string, separator: string, ending: string, indent: int,
                                       render: Render, body: Value -> string, read: Reader, more: string)
    requires es != [] && Understands(read, render, body, indent)
    requires Follows(separator) && Follows(ending + more) && !(separator <= ending + more)
    ensures var text := Joined(Texts(es, x => EntryText(x, colon, indent, render)), separator, ending) + more;
            ReadMembers(text, if indent > 0 then indent else 0, colon, separator, ending, read)
            == Some((MembersOf(es), more))
    decreases |es|
  {
    hide EntryText, ReadString, KeyText, Understands, ReadMembers;
    var texts := Texts(es, x => EntryText(x, colon, indent, render));
    if |es| == 1 {
      MemberRead(es[0], colon, separator, ending, indent, render, body, read, ending + more);
      OneText(texts, separator, ending, more);
      assert ending <= ending + more && (ending + more)[|ending|..] == more;
      assert MembersOf(es) == [Member(KeyText(es[0].key), es[0].value)];
    } else {
      assert Texts(es[1..], x => EntryText(x, colon, indent, render)) == texts[1..];
      var tail := Joined(texts[1..], separator, ending) + more;
      EntriesRead(es[1..], colon, separator, ending, indent, render, body, read, more);
      FollowsMore(separator, tail);
      MemberRead(es[0], colon, separator, ending, indent, render, body, read, separator + tail);
      assert Joined(texts, separator, ending) + more == texts[0] + (separator + tail);
      assert separator <= separator + tail && (separator + tail)[|separator|..] == tail;
    }
  }

  lemma {:induction false} OneText(texts: seq<string>, separator: string, ending: string, more: string)
    requires |texts| == 1
    ensures Joined(texts, separator, ending) + more == texts[0] + (ending + more)
  {
  }

  lemma {:induction false} FollowsMore(a: string, b: string)
    requires Follows(a)
    ensures Follows(a + b)
  {
  }

  /** The compact form, read from its brace on. */
  lemma {:induction false} CompactReadsBack(es: seq<Entry>, indent: int, render: Render, body: Value -> string,
                                            read: Reader)
    requires es != [] && Understands(read, render, body, indent)
    ensures ReadMembers(Joined(Texts(es, x => EntryText(x, ":", indent, render)), ",", "") + "}",
                        if indent > 0 then indent else 0, ":", ",", "", read)
            == Some((MembersOf(es), "}"))
  {
    assert "" + "}" == "}";
    EntriesRead(es, ":", ",", "", indent, render, body, read, "}");
  }

  /** The form with one entry to a line, read from the line behind its brace on: the entries are indented two more. */
  lemma {:induction false} PrettyReadsBack(es: seq<Entry>, indent: int, render: Render, body: Value -> string,
                                           read: Reader)
    requires es != [] && Understands(read, render, body, indent + 2)
    ensures var end := Spaces(indent) + "}";
            var texts := Texts(es, x => EntryText(x, ": ", indent + INDENT_PER_LEVEL, render));
            ReadMembers(Joined(texts, ",\n", "\n") + end,
                        if indent + 2 > 0 then indent + 2 else 0, ": ", ",\n", "\n", read)
            == Some((MembersOf(es), end))
  {
    var end := Spaces(indent) + "}";
    assert ("\n" + end)[0] == '\n';
    EntriesRead(es, ": ", ",\n", "\n", indent + 2, render, body, read, end);
  }

  /** The members say which entries were printed. */
  lemma {:induction false} MembersDecide(es: seq<Entry>, fs: seq<Entry>)
    requires MembersOf(es) == MembersOf(fs)
    ensures es == fs
  {
    var ms, ns := MembersOf(es), MembersOf(fs);
    forall i | 0 <= i < |es| ensures es[i] == fs[i] {
      assert ms[i] == ns[i];
      KeyReadBack(es[i].key, fs[i].key, "", "");
    }
  }
}
