/** What a caller of cmd_parse can rely on, whatever the order in which options and positionals were typed. */
module CmdLaws {
  import opened Wrappers
  import opened CmdOrder
  import opened CmdParse

  /** A command line as its author means it: flags, options with their values, and positionals, in any order. */
  datatype Item = FlagItem(arg: string) | ValueItem(arg: string, value: string) | PlainItem(arg: string)

  function Words(item: Item): seq<string> {
    if item.ValueItem? then [item.arg, item.value] else [item.arg]
  }

  function Spell(items: seq<Item>): seq<string> {
    if items == [] then [] else Words(items[0]) + Spell(items[1..])
  }

  function PassOfItem(item: Item): Pass {
    match item case FlagItem(_) => First case ValueItem(_, _) => Second case PlainItem(_) => Third
  }

  function Only(items: seq<Item>, pass: Pass): seq<Item> {
    if items == [] then []
    else (if PassOfItem(items[0]) == pass then [items[0]] else []) + Only(items[1..], pass)
  }

  /** Known options spelled without '=', and values and positionals that do not look like options. */
  predicate Proper(options: seq<CliOption>, item: Item) {
    match item
    case FlagItem(arg) => KindOf(options, arg) == Flag && Find(options, OptionText(arg), IsLong(arg)).Some?
    case ValueItem(arg, value) => KindOf(options, arg) == Valued && !Dashed(value)
    case PlainItem(arg) => !Dashed(arg)
  }

  ghost predicate AllProper(options: seq<CliOption>, items: seq<Item>) {
    forall k :: 0 <= k < |items| ==> Proper(options, items[k])
  }

  /** The result an option stands for. */
  function ResultOf(item: Item): CliResult
    requires !item.PlainItem? && Dashed(item.arg)
  {
    CliResult(OptionText(item.arg), if item.ValueItem? then Some(item.value) else None)
  }

  function Results(items: seq<Item>): seq<CliResult>
    requires forall k :: 0 <= k < |items| ==> !items[k].PlainItem? && Dashed(items[k].arg)
  {
    if items == [] then [] else [ResultOf(items[0])] + Results(items[1..])
  }

  // ----- what the passes pick from a spelled command line -----

  lemma {:induction false} SpellAppend(a: seq<Item>, b: seq<Item>)
    ensures Spell(a + b) == Spell(a) + Spell(b)
  {
    hide Words;
    if a == [] {
      assert a + b == b;
    } else {
      SpellAppend(a[1..], b);
      assert (a + b)[1..] == a[1..] + b;
      var first := Words(a[0]);
      assert first + (Spell(a[1..]) + Spell(b)) == first + Spell(a[1..]) + Spell(b);
    }
  }

  lemma {:induction false} OnlyAppend(a: seq<Item>, b: seq<Item>, pass: Pass)
    ensures Only(a + b, pass) == Only(a, pass) + Only(b, pass)
  {
    hide PassOfItem;
    if a == [] {
      assert a + b == b;
    } else {
      OnlyAppend(a[1..], b, pass);
      assert (a + b)[1..] == a[1..] + b;
      var head := if PassOfItem(a[0]) == pass then [a[0]] else [];
      assert head + (Only(a[1..], pass) + Only(b, pass)) == head + Only(a[1..], pass) + Only(b, pass);
    }
  }

  /** What a pass picks depends only on the arguments before it. */
  lemma {:induction false} PickedFromPrefix(options: seq<CliOption>, a: seq<string>, b: seq<string>, pass: Pass, n: nat)
    requires n <= |a| && n <= |b| && a[..n] == b[..n]
    ensures Picked(options, a, pass, n) == Picked(options, b, pass, n)
  {
    if n > 1 {
      assert a[..n][n - 1] == b[..n][n - 1] && a[..n][n - 2] == b[..n][n - 2];
      assert a[..n - 1] == a[..n][..n - 1] == b[..n - 1];
      PickedFromPrefix(options, a, b, pass, n - 1);
    }
  }

  /**
   The last argument of a proper command line is a flag, a value or a positional, never an option without its
   value.
   */
  lemma {:induction false} LastWord(options: seq<CliOption>, items: seq<Item>)
    requires AllProper(options, items) && items != []
    ensures Spell(items) != [] && KindOf(options, Spell(items)[|Spell(items)| - 1]) != Valued
  {
    var front, last := items[..|items| - 1], items[|items| - 1];
    assert items == front + [last];
    SpellAppend(front, [last]);
    assert Spell([last]) == Words(last);
  }

  lemma {:induction false} PickedWord(options: seq<CliOption>, argv: seq<string>, word: string, pass: Pass)
    requires |argv| >= 1
    ensures Picked(options, argv + [word], pass, |argv| + 1)
            == Picked(options, argv, pass, |argv|)
               + if PassOf(options, argv + [word], |argv|) == pass then [word] else []
  {
    hide PassOf;
    PickedFromPrefix(options, argv, argv + [word], pass, |argv|);
  }

  lemma {:induction false} PassOfWord(options: seq<CliOption>, argv: seq<string>, word: string)
    requires |argv| >= 1
    ensures var last := if |argv| > 1 then KindOf(options, argv[|argv| - 1]) else Plain;
            PassOf(options, argv + [word], |argv|)
            == match KindOf(options, word)
               case Flag => First
               case Valued => Second
               case Joined => Second
               case Plain => if last == Valued then Second else Third
  {
    hide KindOf;
  }

  lemma {:induction false} PickedItem(options: seq<CliOption>, argv: seq<string>, item: Item, pass: Pass)
    requires |argv| >= 1 && Proper(options, item)
    requires |argv| > 1 ==> KindOf(options, argv[|argv| - 1]) != Valued
    ensures Picked(options, argv + Words(item), pass, |argv + Words(item)|)
            == Picked(options, argv, pass, |argv|) + if PassOfItem(item) == pass then Words(item) else []
  {
    hide Find, Picked, PassOf;
    var more := argv + [item.arg];
    PickedWord(options, argv, item.arg, pass);
    PassOfWord(options, argv, item.arg);
    if item.ValueItem? {
      PickedWord(options, more, item.value, pass);
      PassOfWord(options, more, item.value);
      assert more + [item.value] == argv + Words(item);
    }
  }

  lemma {:induction false} OneItem(item: Item, pass: Pass)
    ensures Spell([item]) == Words(item)
    ensures Spell(Only([item], pass)) == if PassOfItem(item) == pass then Words(item) else []
  {
    assert [item][1..] == [] && Words(item) + [] == Words(item);
  }

  lemma {:induction false} PickedLast(options: seq<CliOption>, program: string, front: seq<Item>, last: Item,
                                      pass: Pass)
    requires AllProper(options, front) && Proper(options, last)
    requires Picked(options, [program] + Spell(front), pass, |[program] + Spell(front)|) == Spell(Only(front, pass))
    ensures Picked(options, [program] + Spell(front + [last]), pass, |[program] + Spell(front + [last])|)
            == Spell(Only(front + [last], pass))
  {
    hide Proper, Picked, KindOf, PassOfItem, Words, Spell, Only, AllProper;
    var argv, w := [program] + Spell(front), Words(last);
    LastOfLine(options, program, front);
    PickedItem(options, argv, last, pass);
    SpellAppend(front, [last]);
    OneItem(last, pass);
    assert [program] + Spell(front + [last]) == argv + w;
    OnlyAppend(front, [last], pass);
    SpellAppend(Only(front, pass), Only([last], pass));
  }

  lemma {:induction false} PickedItems(options: seq<CliOption>, program: string, items: seq<Item>, pass: Pass)
    requires AllProper(options, items)
    ensures Picked(options, [program] + Spell(items), pass, |[program] + Spell(items)|) == Spell(Only(items, pass))
  {
    if items == [] {
      hide Proper;
      NothingPicked(options, [program] + Spell(items), pass, []);
    } else {
      hide Proper, Picked, Spell, Only, AllProper;
      AllProperFront(options, items);
      var front, last := items[..|items| - 1], items[|items| - 1];
      assert items == front + [last];
      PickedItems(options, program, front, pass);
      PickedLast(options, program, front, last, pass);
    }
  }

  lemma {:induction false} AllProperFront(options: seq<CliOption>, items: seq<Item>)
    requires AllProper(options, items) && items != []
    ensures AllProper(options, items[..|items| - 1]) && Proper(options, items[|items| - 1])
  {
    hide Proper;
  }

  lemma {:induction false} LastOfLine(options: seq<CliOption>, program: string, items: seq<Item>)
    requires AllProper(options, items)
    ensures var argv := [program] + Spell(items);
            |argv| > 1 ==> KindOf(options, argv[|argv| - 1]) != Valued
  {
    hide KindOf, Proper;
    if items != [] {
      LastWord(options, items);
    }
  }

  // ----- parsing a proper command line -----

  lemma {:induction false} NoArgumentBrought(options: seq<CliOption>, arg: string)
    requires KindOf(options, arg) == Flag || KindOf(options, arg) == Valued
    ensures !BringsArgument(OptionText(arg), IsLong(arg))
  {
  }

  lemma {:induction false} ScanItem(options: seq<CliOption>, argv: seq<string>, item: Item, i: nat, slots: nat)
    requires Proper(options, item) && !item.PlainItem? && slots > 0
    requires i + |Words(item)| <= |argv| && argv[i..i + |Words(item)|] == Words(item)
    ensures Scan(options, argv, i, slots)
            == Prepend([ResultOf(item)], Scan(options, argv, i + |Words(item)|, slots - 1))
  {
    hide Find, EqualsAt, BringsArgument;
    NoArgumentBrought(options, item.arg);
    assert argv[i] == argv[i..i + |Words(item)|][0] == item.arg;
    if item.ValueItem? {
      assert argv[i + 1] == argv[i..i + |Words(item)|][1] == item.value;
    }
  }

  ghost predicate OptionItems(options: seq<CliOption>, items: seq<Item>) {
    AllProper(options, items) && forall k :: 0 <= k < |items| ==> !items[k].PlainItem? && Dashed(items[k].arg)
  }

  lemma {:induction false} SpellFirst(items: seq<Item>)
    requires items != []
    ensures Spell(items) == Words(items[0]) + Spell(items[1..])
  {
  }

  lemma {:induction false} SliceOf(argv: seq<string>, i: nat, a: seq<string>, b: seq<string>)
    requires i + |a + b| <= |argv| && argv[i..i + |a + b|] == a + b
    ensures argv[i..i + |a|] == a && argv[i + |a|..i + |a| + |b|] == b
  {
    assert argv[i..i + |a|] == argv[i..i + |a + b|][..|a|];
    assert argv[i + |a|..i + |a| + |b|] == argv[i..i + |a + b|][|a|..];
  }

  lemma {:induction false} ScanItems(options: seq<CliOption>, argv: seq<string>, items: seq<Item>, i: nat, slots: nat)
    requires OptionItems(options, items) && |items| <= slots
    requires i + |Spell(items)| <= |argv| && argv[i..i + |Spell(items)|] == Spell(items)
    ensures Scan(options, argv, i, slots)
            == Prepend(Results(items), Scan(options, argv, i + |Spell(items)|, slots - |items|))
    decreases |items|
  {
    hide Scan, Proper, Words;
    var rest := Scan(options, argv, i + |Spell(items)|, slots - |items|);
    if items == [] {
      assert Prepend([], rest) == rest;
    } else {
      hide Spell;
      var w := Words(items[0]);
      SpellFirst(items);
      SliceOf(argv, i, w, Spell(items[1..]));
      ScanItem(options, argv, items[0], i, slots);
      ScanItems(options, argv, items[1..], i + |w|, slots - 1);
      PrependTwice([ResultOf(items[0])], Results(items[1..]), rest);
    }
  }

  lemma {:induction false} OnlyKeeps(options: seq<CliOption>, items: seq<Item>, pass: Pass, k: nat)
    requires k < |Only(items, pass)|
    ensures Only(items, pass)[k] in items && PassOfItem(Only(items, pass)[k]) == pass
  {
    hide PassOfItem;
    if PassOfItem(items[0]) != pass {
      OnlyKeeps(options, items[1..], pass, k);
    } else if k > 0 {
      OnlyKeeps(options, items[1..], pass, k - 1);
    }
  }

  lemma {:induction false} OnlyProper(options: seq<CliOption>, items: seq<Item>, pass: Pass)
    requires AllProper(options, items)
    ensures AllProper(options, Only(items, pass))
    ensures forall k :: 0 <= k < |Only(items, pass)| ==> PassOfItem(Only(items, pass)[k]) == pass
    ensures pass != Third ==> OptionItems(options, Only(items, pass))
  {
    hide Find, Only;
    forall k | 0 <= k < |Only(items, pass)|
      ensures PassOfItem(Only(items, pass)[k]) == pass && Proper(options, Only(items, pass)[k])
    {
      OnlyKeeps(options, items, pass, k);
    }
  }

  lemma {:induction false} SpellPlain(options: seq<CliOption>, items: seq<Item>)
    requires AllProper(options, items) && forall k :: 0 <= k < |items| ==> items[k].PlainItem?
    ensures AllOfKind(options, Spell(items), {Plain})
  {
    if items != [] {
      SpellPlain(options, items[1..]);
    }
  }

  function Flags(items: seq<Item>): seq<Item> {
    Only(items, First)
  }

  function Values(items: seq<Item>): seq<Item> {
    Only(items, Second)
  }

  function Positionals(items: seq<Item>): seq<string> {
    Spell(Only(items, Third))
  }

  /**
   However the items are interleaved, the flags are reported first, then the options with their own values, each
   group as typed, and optind leaves exactly the positionals.
   */
  lemma {:induction false} CommandLine(options: seq<CliOption>, program: string, items: seq<Item>, slots: nat)
    requires AllProper(options, items) && |Flags(items)| + |Values(items)| <= slots
    ensures OptionItems(options, Flags(items) + Values(items))
    ensures var argv := Reordered(options, [program] + Spell(items));
            var next := 1 + |Spell(Flags(items))| + |Spell(Values(items))|;
            && argv == [program] + Spell(Flags(items)) + Spell(Values(items)) + Positionals(items)
            && Scan(options, argv, 1, slots) == Done(Results(Flags(items) + Values(items)), next)
            && argv[next..] == Positionals(items)
  {
    hide Proper, Scan, Spell, Only, AllProper, Results;
    PickedItems(options, program, items, First);
    PickedItems(options, program, items, Second);
    PickedItems(options, program, items, Third);
    OnlyProper(options, items, First);
    OnlyProper(options, items, Second);
    OnlyProper(options, items, Third);
    JoinItems(options, Flags(items), Values(items));
    SpellAppend(Flags(items), Values(items));
    var front := Flags(items) + Values(items);
    var argv := [program] + Spell(front) + Positionals(items);
    assert argv == [program] + Spell(Flags(items)) + Spell(Values(items)) + Positionals(items);
    var next := 1 + |Spell(front)|;
    assert argv[1..next] == Spell(front) && argv[next..] == Positionals(items);
    ScanItems(options, argv, front, 1, slots);
    SpellPlain(options, Only(items, Third));
    if next < |argv| {
      assert argv[next] == Positionals(items)[0];
    }
    ScanEnds(options, argv, next, slots - |front|);
    assert Results(front) + [] == Results(front);
  }

  lemma {:induction false} JoinItems(options: seq<CliOption>, a: seq<Item>, b: seq<Item>)
    requires OptionItems(options, a) && OptionItems(options, b)
    ensures OptionItems(options, a + b)
  {
    hide Proper;
  }

  /** Two orders of typing the same flags, valued options and positionals come to the same. */
  lemma {:induction false} AnyInterleaving(options: seq<CliOption>, program: string, xs: seq<Item>, ys: seq<Item>,
                                           slots: nat)
    requires AllProper(options, xs) && AllProper(options, ys)
    requires Flags(xs) == Flags(ys) && Values(xs) == Values(ys) && Positionals(xs) == Positionals(ys)
    requires |Flags(xs)| + |Values(xs)| <= slots
    ensures var a := Reordered(options, [program] + Spell(xs));
            var b := Reordered(options, [program] + Spell(ys));
            a == b && Scan(options, a, 1, slots) == Scan(options, b, 1, slots) && Scan(options, a, 1, slots).Done?
  {
    CommandLine(options, program, xs, slots);
    CommandLine(options, program, ys, slots);
  }
}
