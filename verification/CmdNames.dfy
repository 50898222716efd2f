/** Command lines as they are typed: options by the names of their table entries, with their values, and positionals. */
module CmdNames {
  import opened Wrappers
  import opened CmdOrder
  import opened CmdParse
  import opened CmdLaws

  /** An option of the table typed by its long or its short name, with its value if it takes one; or a positional. */
  datatype Use = Named(option: CliOption, long: bool, value: string) | Positional(arg: string)

  function NameOf(option: CliOption, long: bool): string {
    if long then option.longName else option.shortName
  }

  /** The arguments that a use is typed as. */
  function Typed(use: Use): seq<string> {
    match use
    case Named(option, true, value) => ["--" + option.longName] + if option.requiresArg then [value] else []
    case Named(option, false, value) => ["-" + option.shortName] + if option.requiresArg then [value] else []
    case Positional(arg) => [arg]
  }

  /** An argument that is not empty and starts with a dash is read as an option. */
  predicate LooksLikeOption(arg: string) {
    arg != "" && arg[0] == '-'
  }

  /** An entry that is the first of the table with its name, which has no '=' in it and no dash in front. */
  ghost predicate Reachable(options: seq<CliOption>, option: CliOption, long: bool) {
    && '=' !in NameOf(option, long) && (!long ==> !LooksLikeOption(option.shortName))
    && exists i :: 0 <= i < |options| && options[i] == option
                   && forall j :: 0 <= j < i ==> NameOf(options[j], long) != NameOf(option, long)
  }

  ghost predicate Usable(options: seq<CliOption>, use: Use) {
    match use
    case Named(option, long, value) =>
      Reachable(options, option, long) && (option.requiresArg ==> !LooksLikeOption(value))
    case Positional(arg) => !LooksLikeOption(arg)
  }

  ghost predicate AllUsable(options: seq<CliOption>, uses: seq<Use>) {
    forall k :: 0 <= k < |uses| ==> Usable(options, uses[k])
  }

  function TypedLine(uses: seq<Use>): seq<string> {
    if uses == [] then [] else Typed(uses[0]) + TypedLine(uses[1..])
  }

  /** The uses of options without a value, of options with one, and the positionals, each in the order of typing. */
  function FlagsOf(uses: seq<Use>): seq<Use> {
    if uses == [] then []
    else (if uses[0].Named? && !uses[0].option.requiresArg then [uses[0]] else []) + FlagsOf(uses[1..])
  }

  function ValuedOf(uses: seq<Use>): seq<Use> {
    if uses == [] then []
    else (if uses[0].Named? && uses[0].option.requiresArg then [uses[0]] else []) + ValuedOf(uses[1..])
  }

  function PositionalsOf(uses: seq<Use>): seq<string> {
    if uses == [] then []
    else (if uses[0].Positional? then [uses[0].arg] else []) + PositionalsOf(uses[1..])
  }

  /** For each option the name it has in the table, and its value. */
  ghost predicate Reported(results: seq<CliResult>, uses: seq<Use>) {
    && |results| == |uses|
    && forall k :: 0 <= k < |uses| ==>
         && uses[k].Named?
         && results[k].optionName == (if uses[k].long then uses[k].option.longName else uses[k].option.shortName)
         && results[k].argument == if uses[k].option.requiresArg then Some(uses[k].value) else None
  }

  // ----- names and dashes -----

  /** An argument typed as two dashes and a name, or one dash and a name without a dash in front, means that name. */
  lemma {:induction false} DashesRead(name: string)
    ensures Dashed("--" + name) && IsLong("--" + name) && OptionText("--" + name) == name
    ensures !LooksLikeOption(name) ==> Dashed("-" + name) && !IsLong("-" + name) && OptionText("-" + name) == name
  {
    assert ("--" + name)[2..] == name && ("-" + name)[1..] == name;
  }

  /** The first entry of that name is found. */
  lemma {:induction false} FindsFirst(options: seq<CliOption>, option: CliOption, long: bool, i: nat)
    requires i < |options| && options[i] == option
    requires forall j :: 0 <= j < i ==> NameOf(options[j], long) != NameOf(option, long)
    ensures Find(options, NameOf(option, long), long) == Some(option)
  {
    if i > 0 {
      assert NameOf(options[0], long) != NameOf(option, long);
      FindsFirst(options[1..], option, long, i - 1);
    }
  }

  function ItemOf(use: Use): Item {
    match use
    case Named(option, long, value) =>
      if option.requiresArg then ValueItem(Typed(use)[0], value) else FlagItem(Typed(use)[0])
    case Positional(arg) => PlainItem(arg)
  }

  function ItemsOf(uses: seq<Use>): seq<Item> {
    if uses == [] then [] else [ItemOf(uses[0])] + ItemsOf(uses[1..])
  }

  lemma {:induction false} ItemProper(options: seq<CliOption>, use: Use)
    requires Usable(options, use)
    ensures Proper(options, ItemOf(use)) && Words(ItemOf(use)) == Typed(use)
    ensures use.Named? ==> Dashed(ItemOf(use).arg) && OptionText(ItemOf(use).arg) == NameOf(use.option, use.long)
  {
    hide Find;
    if use.Named? {
      DashesRead(NameOf(use.option, use.long));
      var i :| 0 <= i < |options| && options[i] == use.option
               && forall j :: 0 <= j < i ==> NameOf(options[j], use.long) != NameOf(use.option, use.long);
      FindsFirst(options, use.option, use.long, i);
    }
  }

  /** The items of a typed line are proper, and spell it. */
  lemma {:induction false} ItemsProper(options: seq<CliOption>, uses: seq<Use>)
    requires AllUsable(options, uses)
    ensures AllProper(options, ItemsOf(uses)) && |ItemsOf(uses)| == |uses| && Spell(ItemsOf(uses)) == TypedLine(uses)
  {
    hide Usable, Proper, Words, Typed, ItemOf;
    if uses != [] {
      ItemProper(options, uses[0]);
      ItemsProper(options, uses[1..]);
      assert ItemsOf(uses)[1..] == ItemsOf(uses[1..]);
    }
  }

  lemma {:induction false} PartsUsable(options: seq<CliOption>, uses: seq<Use>)
    requires AllUsable(options, uses)
    ensures AllUsable(options, FlagsOf(uses)) && AllUsable(options, ValuedOf(uses))
  {
    hide Usable;
    if uses != [] {
      PartsUsable(options, uses[1..]);
    }
  }

  /** What the items are sorted into is what the uses are sorted into. */
  lemma {:induction false} ItemsSorted(uses: seq<Use>)
    ensures Flags(ItemsOf(uses)) == ItemsOf(FlagsOf(uses)) && Values(ItemsOf(uses)) == ItemsOf(ValuedOf(uses))
    ensures Positionals(ItemsOf(uses)) == PositionalsOf(uses)
  {
    if uses != [] {
      var rest := uses[1..];
      ItemsSorted(rest);
      OnlyFirst(uses);
      hide Only, Spell, ItemOf;
      assert [uses[0]][1..] == [];
      OneMore(uses[0], FlagsOf(rest));
      OneMore(uses[0], ValuedOf(rest));
    }
  }

  lemma {:induction false} OneMore(use: Use, uses: seq<Use>)
    ensures ItemsOf([use] + uses) == [ItemOf(use)] + ItemsOf(uses) && [] + uses == uses
    ensures [] + ItemsOf(uses) == ItemsOf(uses)
  {
    hide Typed;
    assert ([use] + uses)[1..] == uses;
  }

  lemma {:induction false} OnlyFirst(uses: seq<Use>)
    requires uses != []
    ensures var first, rest := ItemOf(uses[0]), ItemsOf(uses[1..]);
            && Flags(ItemsOf(uses)) == (if FlagsOf([uses[0]]) != [] then [first] else []) + Flags(rest)
            && Values(ItemsOf(uses)) == (if ValuedOf([uses[0]]) != [] then [first] else []) + Values(rest)
            && Positionals(ItemsOf(uses)) == PositionalsOf([uses[0]]) + Positionals(rest)
  {
    hide Typed;
    assert ItemsOf(uses)[1..] == ItemsOf(uses[1..]) && [uses[0]][1..] == [];
    var only := if PassOfItem(ItemOf(uses[0])) == Third then [ItemOf(uses[0])] else [];
    assert Only(ItemsOf(uses), Third) == only + Only(ItemsOf(uses[1..]), Third);
    SpellAppend(only, Only(ItemsOf(uses[1..]), Third));
    OneItem(ItemOf(uses[0]), Third);
  }

  lemma {:induction false} ResultsReported(options: seq<CliOption>, uses: seq<Use>)
    requires AllUsable(options, uses) && forall k :: 0 <= k < |uses| ==> uses[k].Named?
    ensures OptionItems(options, ItemsOf(uses)) && Reported(Results(ItemsOf(uses)), uses)
  {
    hide Proper, Usable, OptionText, Typed, Find, AllProper;
    ItemsProper(options, uses);
    if uses != [] {
      ItemProper(options, uses[0]);
      ResultsReported(options, uses[1..]);
      assert ItemsOf(uses)[1..] == ItemsOf(uses[1..]);
      OneReported(options, uses[0]);
      assert Results(ItemsOf(uses)) == [ResultOf(ItemOf(uses[0]))] + Results(ItemsOf(uses[1..]));
    }
  }

  lemma {:induction false} OneReported(options: seq<CliOption>, use: Use)
    requires Usable(options, use) && use.Named? && !ItemOf(use).PlainItem? && Dashed(ItemOf(use).arg)
    ensures Reported([ResultOf(ItemOf(use))], [use])
  {
    ItemProper(options, use);
  }

  lemma {:induction false} AllNamed(uses: seq<Use>)
    ensures forall k :: 0 <= k < |FlagsOf(uses)| ==> FlagsOf(uses)[k].Named?
    ensures forall k :: 0 <= k < |ValuedOf(uses)| ==> ValuedOf(uses)[k].Named?
  {
    if uses != [] {
      AllNamed(uses[1..]);
    }
  }

  lemma {:induction false} ItemsAppend(a: seq<Use>, b: seq<Use>)
    ensures ItemsOf(a + b) == ItemsOf(a) + ItemsOf(b)
  {
    hide Typed;
    if a == [] {
      assert a + b == b;
    } else {
      assert (a + b)[1..] == a[1..] + b;
      ItemsAppend(a[1..], b);
    }
  }

  /**
   However options and positionals are interleaved: behind the program come the options without a value, then those
   with one and their values, then the positionals, each in the order of typing; every option is reported under its
   name in the table and with its value; and optind leaves exactly the positionals.
   */
  lemma {:induction false} NamedLine(options: seq<CliOption>, program: string, uses: seq<Use>, slots: nat)
    requires AllUsable(options, uses) && |FlagsOf(uses)| + |ValuedOf(uses)| <= slots
    ensures var argv := Reordered(options, [program] + TypedLine(uses));
            var outcome := Scan(options, argv, 1, slots);
            && argv == [program] + TypedLine(FlagsOf(uses)) + TypedLine(ValuedOf(uses)) + PositionalsOf(uses)
            && outcome.Done? && Reported(outcome.results, FlagsOf(uses) + ValuedOf(uses))
            && outcome.next == |argv| - |PositionalsOf(uses)|
  {
    hide Usable, Proper, Scan, Reordered, Reported, Results, Typed, Spell, Only;
    PartsUsable(options, uses);
    ItemsSorted(uses);
    ItemsProper(options, uses);
    ItemsProper(options, FlagsOf(uses));
    ItemsProper(options, ValuedOf(uses));
    CommandLine(options, program, ItemsOf(uses), slots);
    AllNamed(uses);
    ItemsAppend(FlagsOf(uses), ValuedOf(uses));
    ResultsReported(options, FlagsOf(uses) + ValuedOf(uses));
  }

  // ----- options with an equals sign -----

  /** An option typed with its value behind an equals sign stops the parser, unless the whole text is a name. */
  lemma {:induction false} JoinedUnknown(options: seq<CliOption>, argv: seq<string>, i: nat, slots: nat, name: string,
        value: string)
    requires i < |argv| && (argv[i] == "--" + name + "=" + value || argv[i] == "-" + name + "=" + value)
    requires !LooksLikeOption(name)
    requires forall o :: o in options ==> '=' !in o.longName && '=' !in o.shortName
    ensures Scan(options, argv, i, slots) == Done([], i)
  {
    var text := name + "=" + value;
    assert text[|name|] == '=' && !LooksLikeOption(text);
    assert argv[i] == "--" + text || argv[i] == "-" + text by {
      assert "--" + name + "=" + value == "--" + text && "-" + name + "=" + value == "-" + text;
    }
    DashesRead(text);
    ScanEnds(options, argv, i, slots);
  }

  /** An entry that is the first of the table with its name, which has no dash in front. */
  ghost predicate FirstNamed(options: seq<CliOption>, option: CliOption, long: bool) {
    && (!long ==> !LooksLikeOption(option.shortName))
    && exists i :: 0 <= i < |options| && options[i] == option
                   && forall j :: 0 <= j < i ==> NameOf(options[j], long) != NameOf(option, long)
  }

  lemma {:induction false} FirstNamedFound(options: seq<CliOption>, option: CliOption, long: bool, arg: string)
    requires FirstNamed(options, option, long) && arg == (if long then "--" else "-") + NameOf(option, long)
    ensures Dashed(arg) && IsLong(arg) == long && OptionText(arg) == NameOf(option, long)
    ensures Find(options, NameOf(option, long), long) == Some(option)
  {
    DashesRead(NameOf(option, long));
    var k :| 0 <= k < |options| && options[k] == option
             && forall j :: 0 <= j < k ==> NameOf(options[j], long) != NameOf(option, long);
    FindsFirst(options, option, long, k);
  }

  /**
   What the parser makes of one option of the table: a flag is reported without a value; an option that takes a value is
   reported with the next argument, and the parse fails if there is none or it looks like an option.
   */
  lemma {:induction false} OptionStep(options: seq<CliOption>, argv: seq<string>, i: nat, slots: nat, long: bool,
        option: CliOption)
    requires i < |argv| && slots > 0 && FirstNamed(options, option, long) && '=' !in NameOf(option, long)
    requires argv[i] == (if long then "--" else "-") + NameOf(option, long)
    ensures var name := NameOf(option, long);
            Scan(options, argv, i, slots)
            == if !option.requiresArg then Prepend([CliResult(name, None)], Scan(options, argv, i + 1, slots - 1))
               else if i + 1 < |argv| && !LooksLikeOption(argv[i + 1]) then
                 Prepend([CliResult(name, Some(argv[i + 1]))], Scan(options, argv, i + 2, slots - 1))
               else Failed([])
  {
    FirstNamedFound(options, option, long, argv[i]);
    hide Find;
    if Taken(argv, i, option).Some? {
      ScanStep(options, argv, i, slots, option);
    } else {
      ScanEnds(options, argv, i, slots);
    }
  }

  /**
   A name that has an equals sign itself brings its value along, with a short option only if the sign is its second
   character; otherwise the next argument is the value, or there is none and the parse fails.
   */
  lemma {:induction false} NameWithEquals(options: seq<CliOption>, argv: seq<string>, i: nat, slots: nat, long: bool,
        front: string, value: string, option: CliOption)
    requires i < |argv| && slots > 0 && '=' !in front && option.requiresArg && FirstNamed(options, option, long)
    requires NameOf(option, long) == front + "=" + value
    requires argv[i] == (if long then "--" else "-") + NameOf(option, long)
    ensures var name := NameOf(option, long);
            Scan(options, argv, i, slots)
            == if long || |front| == 1 then
                 Prepend([CliResult(name, Some(value))], Scan(options, argv, i + 1, slots - 1))
               else if i + 1 < |argv| && !LooksLikeOption(argv[i + 1]) then
                 Prepend([CliResult(name, Some(argv[i + 1]))], Scan(options, argv, i + 2, slots - 1))
               else Failed([])
  {
    var name := NameOf(option, long);
    FirstNamedFound(options, option, long, argv[i]);
    assert name[|front|] == '=' && name[..|front|] == front && name[|front| + 1..] == value;
    assert EqualsAt(name) == |front|;
    hide Find, EqualsAt;
    if Taken(argv, i, option).Some? {
      ScanStep(options, argv, i, slots, option);
    } else {
      ScanEnds(options, argv, i, slots);
    }
  }

  /** The parser stops, without an error, at the end, at a positional, at a name not in the table, or out of slots. */
  lemma {:induction false} ParseStops(options: seq<CliOption>, argv: seq<string>, i: nat, slots: nat)
    requires i <= |argv|
    requires || i == |argv| || slots == 0 || !LooksLikeOption(argv[i])
             || forall o :: o in options ==> argv[i] != "--" + o.longName && argv[i] != "-" + o.shortName
    ensures Scan(options, argv, i, slots) == Done([], i)
  {
    if i < |argv| && LooksLikeOption(argv[i]) {
      var text := OptionText(argv[i]);
      assert argv[i] == if IsLong(argv[i]) then "--" + text else "-" + text;
    }
    ScanEnds(options, argv, i, slots);
  }

  // ----- an example -----

  function ExampleOptions(): seq<CliOption> {
    [CliOption("c", "config", true), CliOption("v", "verbose", false)]
  }

  function ExampleUses(): seq<Use> {
    [Positional("file"), Named(ExampleOptions()[0], true, "x.conf"), Named(ExampleOptions()[1], false, "")]
  }

  lemma {:induction false} ExampleTyped()
    ensures TypedLine(ExampleUses()) == ["file", "--config", "x.conf", "-v"]
    ensures FlagsOf(ExampleUses()) == ExampleUses()[2..] && TypedLine(ExampleUses()[2..]) == ["-v"]
    ensures ValuedOf(ExampleUses()) == ExampleUses()[1..2] && TypedLine(ExampleUses()[1..2]) == ["--config", "x.conf"]
    ensures PositionalsOf(ExampleUses()) == ["file"]
  {
    var uses := ExampleUses();
    var two, one := uses[1..], uses[2..];
    assert two[1..] == one && one == [uses[2]] && one[1..] == [] && uses[1..2] == [uses[1]] && [uses[1]][1..] == [];
    assert "--" + "config" == "--config" && "-" + "v" == "-v";
    assert Typed(uses[1]) == ["--config", "x.conf"] && Typed(uses[2]) == ["-v"] + [];
    assert TypedLine(one) == Typed(uses[2]) + TypedLine([]);
    assert TypedLine(two) == Typed(uses[1]) + TypedLine(one);
    assert FlagsOf(two) == [] + FlagsOf(one);
    assert ValuedOf(two) == [uses[1]] + ValuedOf(one);
  }

  /** A long option typed behind a positional, and a flag behind both. */
  lemma {:induction false} NamedExample()
    ensures var argv := Reordered(ExampleOptions(), ["prog", "file", "--config", "x.conf", "-v"]);
            && argv == ["prog", "-v", "--config", "x.conf", "file"]
            && Scan(ExampleOptions(), argv, 1, 8)
               == Done([CliResult("v", None), CliResult("config", Some("x.conf"))], 4)
  {
    ExampleTyped();
    ExampleUsable();
    hide ExampleUses, ExampleOptions, TypedLine, FlagsOf, ValuedOf, PositionalsOf, Reordered, Scan, AllUsable, Reported;
    NamedLine(ExampleOptions(), "prog", ExampleUses(), 8);
    assert ["prog"] + ["file", "--config", "x.conf", "-v"] == ["prog", "file", "--config", "x.conf", "-v"];
    assert ["prog"] + ["-v"] + ["--config", "x.conf"] + ["file"] == ["prog", "-v", "--config", "x.conf", "file"];
    var argv := ["prog", "-v", "--config", "x.conf", "file"];
    ExampleResults(Scan(ExampleOptions(), argv, 1, 8).results);
  }

  lemma {:induction false} ExampleUsable()
    ensures AllUsable(ExampleOptions(), ExampleUses())
    ensures |FlagsOf(ExampleUses())| == 1 && |ValuedOf(ExampleUses())| == 1
  {
    ExampleTyped();
    assert ExampleOptions()[1].shortName != ExampleOptions()[0].shortName;
  }

  lemma {:induction false} ExampleResults(results: seq<CliResult>)
    ensures Reported(results, FlagsOf(ExampleUses()) + ValuedOf(ExampleUses()))
            ==> results == [CliResult("v", None), CliResult("config", Some("x.conf"))]
  {
    ExampleTyped();
    hide FlagsOf, ValuedOf, TypedLine;
    var uses := ExampleUses();
    assert uses[2..] + uses[1..2] == [uses[2], uses[1]];
  }
}
