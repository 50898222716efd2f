/**
 Exactly when cmd_parse keeps options and positionals apart: when every option that takes a value was typed with
 one.
 */
module CmdValues {
  import opened Wrappers
  import opened CmdOrder
  import opened CmdParse
  import opened CmdLaws

  /** Every option that takes a value is directly followed by an argument that is no option. */
  ghost predicate Closed(options: seq<CliOption>, s: seq<string>) {
    forall k :: 0 <= k < |s| && KindOf(options, s[k]) == Valued
                ==> k + 1 < |s| && KindOf(options, s[k + 1]) == Plain
  }

  /** The options of the line are in the table and spelled without '='. */
  ghost predicate Known(options: seq<CliOption>, s: seq<string>) {
    forall k :: 0 <= k < |s| && Dashed(s[k])
                ==> KindOf(options, s[k]) != Joined && Find(options, OptionText(s[k]), IsLong(s[k])).Some?
  }

  function CountOptions(s: seq<string>): nat {
    if s == [] then 0 else (if Dashed(s[0]) then 1 else 0) + CountOptions(s[1..])
  }

  lemma {:induction false} CountAppend(a: seq<string>, b: seq<string>)
    ensures CountOptions(a + b) == CountOptions(a) + CountOptions(b)
  {
    if a == [] {
      assert a + b == b;
    } else {
      CountAppend(a[1..], b);
      assert (a + b)[1..] == a[1..] + b;
    }
  }

  lemma {:induction false} CountOne(arg: string)
    ensures CountOptions([arg]) == if Dashed(arg) then 1 else 0
  {
    assert CountOptions([arg][1..]) == 0;
  }

  lemma {:induction false} KindDashed(options: seq<CliOption>, arg: string)
    ensures KindOf(options, arg) == Plain <==> !Dashed(arg)
  {
    hide Find;
  }

  // ----- reading the line as items -----

  function ItemsOf(options: seq<CliOption>, s: seq<string>): seq<Item> {
    if s == [] then []
    else if KindOf(options, s[0]) == Valued && |s| > 1 then [ValueItem(s[0], s[1])] + ItemsOf(options, s[2..])
    else if KindOf(options, s[0]) == Plain then [PlainItem(s[0])] + ItemsOf(options, s[1..])
    else [FlagItem(s[0])] + ItemsOf(options, s[1..])
  }

  lemma {:induction false} ClosedTail(options: seq<CliOption>, s: seq<string>, n: nat)
    requires Closed(options, s) && Known(options, s) && n <= |s|
    ensures Closed(options, s[n..]) && Known(options, s[n..])
  {
    hide KindOf;
  }

  /** A closed line of known options is a proper command line. */
  lemma {:induction false} ItemsSpell(options: seq<CliOption>, s: seq<string>)
    requires Closed(options, s) && Known(options, s)
    ensures Spell(ItemsOf(options, s)) == s && AllProper(options, ItemsOf(options, s))
    decreases |s|
  {
    if s != [] {
      var n := if KindOf(options, s[0]) == Valued then 2 else 1;
      FirstItem(options, s);
      ClosedTail(options, s, n);
      ItemsSpell(options, s[n..]);
      assert ItemsOf(options, s) == [ItemsOf(options, s)[0]] + ItemsOf(options, s[n..]);
      assert s == s[..n] + s[n..];
    }
  }

  lemma {:induction false} FirstItem(options: seq<CliOption>, s: seq<string>)
    requires Closed(options, s) && Known(options, s) && s != []
    ensures ItemsOf(options, s) != []
    ensures var n := if KindOf(options, s[0]) == Valued then 2 else 1;
            && n <= |s| && Words(ItemsOf(options, s)[0]) == s[..n] && Proper(options, ItemsOf(options, s)[0])
            && ItemsOf(options, s) == [ItemsOf(options, s)[0]] + ItemsOf(options, s[n..])
  {
    hide Find;
    KindDashed(options, s[0]);
  }

  lemma {:induction false} CountSpell(options: seq<CliOption>, items: seq<Item>)
    requires AllProper(options, items)
    ensures CountOptions(Spell(items)) == |Flags(items)| + |Values(items)|
  {
    hide Find;
    if items != [] {
      CountSpell(options, items[1..]);
      CountAppend(Words(items[0]), Spell(items[1..]));
      KindDashed(options, items[0].arg);
      CountOne(items[0].arg);
      if items[0].ValueItem? {
        CountAppend([items[0].arg], [items[0].value]);
        CountOne(items[0].value);
        assert Words(items[0]) == [items[0].arg] + [items[0].value];
      }
    }
  }

  // ----- the passes keep the values where they are, or missing -----

  lemma {:induction false} ClosedAdd(options: seq<CliOption>, s: seq<string>, x: string)
    ensures KindOf(options, x) == Valued ==> !Closed(options, s + [x])
    ensures KindOf(options, x) == Flag || KindOf(options, x) == Joined
            ==> (Closed(options, s + [x]) <==> Closed(options, s))
    ensures KindOf(options, x) == Plain && (s == [] || KindOf(options, s[|s| - 1]) != Valued)
            ==> (Closed(options, s + [x]) <==> Closed(options, s))
  {
    hide KindOf;
    var t := s + [x];
    assert t[|s|] == x && forall k :: 0 <= k < |s| ==> t[k] == s[k];
    if Closed(options, t) && KindOf(options, x) != Valued
       && (KindOf(options, x) != Plain || s == [] || KindOf(options, s[|s| - 1]) != Valued) {
      forall k | 0 <= k < |s| && KindOf(options, s[k]) == Valued
        ensures k + 1 < |s| && KindOf(options, s[k + 1]) == Plain
      {
        assert t[k] == s[k];
      }
    }
  }

  lemma {:induction false} ClosedPair(options: seq<CliOption>, s: seq<string>, v: string, x: string)
    requires KindOf(options, v) == Valued && KindOf(options, x) == Plain
    ensures Closed(options, s + [v, x]) <==> Closed(options, s)
  {
    hide KindOf;
    var t := s + [v, x];
    assert t[|s|] == v && t[|s| + 1] == x && forall k :: 0 <= k < |s| ==> t[k] == s[k];
    if Closed(options, t) {
      forall k | 0 <= k < |s| && KindOf(options, s[k]) == Valued
        ensures k + 1 < |s| && KindOf(options, s[k + 1]) == Plain
      {
        assert t[k] == s[k];
      }
    }
  }

  lemma {:induction false} PickedClosed(options: seq<CliOption>, argv: seq<string>, n: nat)
    requires 1 <= n <= |argv|
    ensures Closed(options, argv[1..n]) <==> Closed(options, Picked(options, argv, Second, n))
  {
    hide KindOf, Closed;
    assert argv[1..1] == [];
    if n > 1 {
      var x, picked := argv[n - 1], Picked(options, argv, Second, n - 1);
      assert argv[1..n] == argv[1..n - 1] + [x];
      if n > 2 && KindOf(options, x) == Plain && KindOf(options, argv[n - 2]) == Valued {
        var earlier := Picked(options, argv, Second, n - 2);
        assert argv[1..n] == argv[1..n - 2] + [argv[n - 2], x];
        assert Picked(options, argv, Second, n) == earlier + [argv[n - 2], x];
        ClosedPair(options, argv[1..n - 2], argv[n - 2], x);
        ClosedPair(options, earlier, argv[n - 2], x);
        PickedClosed(options, argv, n - 2);
      } else {
        ClosedAdd(options, argv[1..n - 1], x);
        ClosedAdd(options, picked, x);
        PickedClosed(options, argv, n - 1);
      }
    }
  }

  lemma {:induction false} PickedCounts(options: seq<CliOption>, argv: seq<string>, n: nat)
    requires 1 <= n <= |argv|
    ensures CountOptions(argv[1..n])
            == |Picked(options, argv, First, n)| + CountOptions(Picked(options, argv, Second, n))
  {
    assert argv[1..1] == [];
    if n > 1 {
      hide KindOf;
      var x := argv[n - 1];
      PickedCounts(options, argv, n - 1);
      assert argv[1..n] == argv[1..n - 1] + [x];
      CountAppend(argv[1..n - 1], [x]);
      CountAppend(Picked(options, argv, Second, n - 1), [x]);
      CountOne(x);
      KindDashed(options, x);
    }
  }

  // ----- parsing the options that take a value -----

  /** Parsing a run of options and values in which some value is missing either fails or eats one positional. */
  lemma {:induction false} ScanOpen(options: seq<CliOption>, argv: seq<string>, i: nat, s: seq<string>,
                                    t: seq<string>, slots: nat)
    requires i <= |argv| && argv[i..] == s + t
    requires AllOfKind(options, s, {Valued, Plain}) && AllOfKind(options, t, {Plain})
    requires ValuesFollow(options, s) && !Closed(options, s) && CountOptions(s) <= slots
    ensures var outcome := Scan(options, argv, i, slots);
            outcome.Failed? || outcome.next == i + |s| + 1
    decreases |s|
  {
    hide KindOf, Find, BringsArgument, EqualsAt;
    KindDashed(options, s[0]);
    assert argv[i] == (s + t)[0] == s[0];
    FindsValued(options, s[0]);
    NoArgumentBrought(options, s[0]);
    if |s| > 1 {
      assert argv[i + 1] == (s + t)[1] == s[1];
      KindDashed(options, s[1]);
      if KindOf(options, s[1]) == Plain {
        OpenTail(options, s);
        assert argv[i + 2..] == argv[i..][2..] == s[2..] + t;
        assert CountOptions(s) == 1 + CountOptions(s[1..]) && s[1..][1..] == s[2..];
        ScanOpen(options, argv, i + 2, s[2..], t, slots - 1);
      }
    } else if t != [] {
      assert argv[i + 1] == (s + t)[1] == t[0];
      KindDashed(options, t[0]);
      if |t| > 1 {
        assert argv[i + 2] == (s + t)[2] == t[1];
        KindDashed(options, t[1]);
      }
      ScanEnds(options, argv, i + 2, slots - 1);
    }
  }

  lemma {:induction false} FindsValued(options: seq<CliOption>, arg: string)
    requires KindOf(options, arg) == Valued
    ensures Dashed(arg)
    ensures var found := Find(options, OptionText(arg), IsLong(arg)); found.Some? && found.value.requiresArg
  {
  }

  lemma {:induction false} OpenTail(options: seq<CliOption>, s: seq<string>)
    requires |s| > 1 && KindOf(options, s[0]) == Valued && KindOf(options, s[1]) == Plain
    requires AllOfKind(options, s, {Valued, Plain}) && ValuesFollow(options, s) && !Closed(options, s)
    ensures AllOfKind(options, s[2..], {Valued, Plain}) && ValuesFollow(options, s[2..]) && !Closed(options, s[2..])
  {
    hide KindOf;
    ClosedFront(options, s);
  }

  lemma {:induction false} ClosedFront(options: seq<CliOption>, s: seq<string>)
    requires |s| > 1 && KindOf(options, s[0]) == Valued && KindOf(options, s[1]) == Plain
    ensures Closed(options, s[2..]) ==> Closed(options, s)
  {
    hide KindOf;
    forall k | 2 <= k < |s|
      ensures s[k] == s[2..][k - 2]
    {
    }
  }

  function AsFlags(s: seq<string>): seq<Item> {
    if s == [] then [] else [FlagItem(s[0])] + AsFlags(s[1..])
  }

  lemma {:induction false} FlagsSpell(options: seq<CliOption>, s: seq<string>)
    requires AllOfKind(options, s, {Flag}) && Known(options, s)
    ensures Spell(AsFlags(s)) == s && |AsFlags(s)| == |s| && OptionItems(options, AsFlags(s))
  {
    hide KindOf, Find;
    if s == [] {
      assert Spell([]) == [];
    } else {
      hide Spell;
      FlagsSpell(options, s[1..]);
      KindDashed(options, s[0]);
      SpellFirst(AsFlags(s));
      assert s == [s[0]] + s[1..];
    }
  }

  lemma {:induction false} KnownAppend(options: seq<CliOption>, a: seq<string>, b: seq<string>)
    ensures Known(options, a + b) <==> Known(options, a) && Known(options, b)
  {
    hide KindOf, Find;
    var c := a + b;
    assert forall k :: 0 <= k < |a| ==> c[k] == a[k];
    assert forall k :: 0 <= k < |b| ==> c[|a| + k] == b[k];
  }

  lemma {:induction false} PickedKnown(options: seq<CliOption>, argv: seq<string>, pass: Pass, n: nat)
    requires 1 <= n <= |argv| && Known(options, argv[1..n])
    ensures Known(options, Picked(options, argv, pass, n))
  {
    hide KindOf, Find, PassOf;
    if n > 1 {
      hide Known;
      var x := argv[n - 1];
      assert argv[1..n] == argv[1..n - 1] + [x];
      KnownAppend(options, argv[1..n - 1], [x]);
      KnownAppend(options, Picked(options, argv, pass, n - 1), [x]);
      PickedKnown(options, argv, pass, n - 1);
    }
  }

  /**
   The positionals survive the reordering and the parse exactly when every option that takes a value was typed with
   one. Otherwise the parse fails, or the first positional ends up as the value of the last option.
   */
  lemma {:induction false} ValuesDecide(options: seq<CliOption>, argv: seq<string>, slots: nat)
    requires |argv| >= 1 && Known(options, argv[1..]) && CountOptions(argv[1..]) <= slots
    ensures var line := Reordered(options, argv);
            var outcome := Scan(options, line, 1, slots);
            && |line| == |argv|
            && ((outcome.Done? && outcome.next == |argv| - |Picked(options, argv, Third, |argv|)|)
                <==> Closed(options, argv[1..]))
  {
    hide Closed, Known, Scan, CountOptions, AllProper, OptionItems, Proper;
    ReorderedPermutes(options, argv);
    assert argv == [argv[0]] + argv[1..] && argv[1..|argv|] == argv[1..];
    if Closed(options, argv[1..]) {
      var items := ItemsOf(options, argv[1..]);
      ItemsSpell(options, argv[1..]);
      CountSpell(options, items);
      CommandLine(options, argv[0], items, slots);
      PickedItems(options, argv[0], items, Third);
    } else {
      OpenLine(options, argv, slots);
    }
  }

  lemma {:induction false} OpenLine(options: seq<CliOption>, argv: seq<string>, slots: nat)
    requires |argv| >= 1 && Known(options, argv[1..]) && CountOptions(argv[1..]) <= slots
    requires !Closed(options, argv[1..])
    ensures var outcome := Scan(options, Reordered(options, argv), 1, slots);
            outcome.Failed? || outcome.next == |argv| - |Picked(options, argv, Third, |argv|)| + 1
  {
    hide Closed, Known, Scan, CountOptions, AllOfKind, ValuesFollow, Picked;
    var n := |argv|;
    assert argv[1..n] == argv[1..];
    PickedAll(options, argv, n);
    PickedKinds(options, argv, n);
    PickedCounts(options, argv, n);
    PickedClosed(options, argv, n);
    PickedKnown(options, argv, First, n);
    PickedKnown(options, argv, Second, n);
    var f, s, t := Picked(options, argv, First, n), Picked(options, argv, Second, n), Picked(options, argv, Third, n);
    NoneJoined(options, s);
    OpenParts(options, Reordered(options, argv), f, s, t, slots);
  }

  lemma {:induction false} OpenParts(options: seq<CliOption>, line: seq<string>, f: seq<string>, s: seq<string>,
                                     t: seq<string>, slots: nat)
    requires |line| >= 1 && line == [line[0]] + f + s + t
    requires AllOfKind(options, f, {Flag}) && AllOfKind(options, s, {Valued, Plain}) && AllOfKind(options, t, {Plain})
    requires ValuesFollow(options, s) && !Closed(options, s) && Known(options, f) && |f| + CountOptions(s) <= slots
    ensures var outcome := Scan(options, line, 1, slots);
            outcome.Failed? || outcome.next == |line| - |t| + 1
  {
    hide Closed, Known, Scan, CountOptions, OptionItems, AllOfKind, ValuesFollow;
    FlagsSpell(options, f);
    assert line[1..1 + |f|] == f;
    assert line[1 + |f|..] == s + t;
    ScanItems(options, line, AsFlags(f), 1, slots);
    ScanOpen(options, line, 1 + |f|, s, t, slots - |f|);
  }

  lemma {:induction false} NoneJoined(options: seq<CliOption>, s: seq<string>)
    requires AllOfKind(options, s, {Valued, Joined, Plain}) && Known(options, s)
    ensures AllOfKind(options, s, {Valued, Plain})
  {
    forall k | 0 <= k < |s| ensures KindOf(options, s[k]) in {Valued, Plain} {
      KindDashed(options, s[k]);
    }
  }

  /**
   A line where it goes wrong: the positional comes first, the option that lacks its value last. After the
   reordering the positional stands behind that option and is taken for its value.
   */
  lemma {:induction false} SwallowedPositional()
    ensures var options := [CliOption("c", "config", true)];
            var argv := ["prog", "file", "-c"];
            && Reordered(options, argv) == ["prog", "-c", "file"]
            && Scan(options, Reordered(options, argv), 1, 8) == Done([CliResult("c", Some("file"))], 3)
  {
    var options := [CliOption("c", "config", true)];
    var argv := ["prog", "file", "-c"];
    assert KindOf(options, "file") == Plain && KindOf(options, "prog") == Plain;
    assert OptionText("-c") == "c" && KindOf(options, "-c") == Valued;
    assert PassOf(options, argv, 1) == Third && PassOf(options, argv, 2) == Second;
    assert Picked(options, argv, First, 3) == Picked(options, argv, First, 2) == [];
    assert Picked(options, argv, Second, 3) == Picked(options, argv, Second, 2) + ["-c"] == ["-c"];
    assert Picked(options, argv, Third, 3) == Picked(options, argv, Third, 2) == ["file"];
    var line := ["prog", "-c", "file"];
    assert Reordered(options, argv) == line;
    NoArgumentBrought(options, "-c");
    assert Taken(line, 1, options[0]) == Some((CliResult("c", Some("file")), 2));
    ScanStep(options, line, 1, 8, options[0]);
    ScanEnds(options, line, 3, 7);
  }
}
