/** The argument reordering of cmd_parse: option lookup, the three collecting passes over argv, and the copy back. */
module CmdOrder {
  import opened Wrappers

  datatype CliOption = CliOption(shortName: string, longName: string, requiresArg: bool)

  /** What the passes make of one argument; the joined kind is an option that carries its own "=value". */
  datatype Kind = Flag | Valued | Joined | Plain

  /** The pass that collects an argument. */
  datatype Pass = First | Second | Third

  predicate Dashed(arg: string) {
    |arg| > 0 && arg[0] == '-'
  }

  predicate IsLong(arg: string) {
    |arg| > 1 && arg[1] == '-'
  }

  function OptionText(arg: string): string
    requires Dashed(arg)
  {
    if IsLong(arg) then arg[2..] else arg[1..]
  }

  predicate Matches(option: CliOption, text: string, long: bool) {
    text == if long then option.longName else option.shortName
  }

  /** The first option of the table with that name. */
  function Find(options: seq<CliOption>, text: string, long: bool): (r: Option<CliOption>)
    ensures r.Some? ==> r.value in options && Matches(r.value, text, long)
    ensures r.None? ==> forall o :: o in options ==> !Matches(o, text, long)
  {
    if options == [] then None
    else if Matches(options[0], text, long) then Some(options[0])
    else
      assert forall o :: o in options ==> o == options[0] || o in options[1..];
      Find(options[1..], text, long)
  }

  predicate RequiresArg(options: seq<CliOption>, text: string, long: bool) {
    var found := Find(options, text, long);
    found.Some? && found.value.requiresArg
  }

  function KindOf(options: seq<CliOption>, arg: string): Kind {
    if !Dashed(arg) then Plain
    else if '=' in OptionText(arg) then Joined
    else if RequiresArg(options, OptionText(arg), IsLong(arg)) then Valued
    else Flag
  }

  /**
   An argument that is no option belongs to the second pass exactly when it follows an option that takes a value;
   argv[0] is never read as an option.
   */
  function PassOf(options: seq<CliOption>, argv: seq<string>, i: nat): Pass
    requires 1 <= i < |argv|
  {
    match KindOf(options, argv[i])
    case Flag => First
    case Valued => Second
    case Joined => Second
    case Plain => if i > 1 && KindOf(options, argv[i - 1]) == Valued then Second else Third
  }

  /** The arguments before position n that one pass collects, in their original order. */
  function Picked(options: seq<CliOption>, argv: seq<string>, pass: Pass, n: nat): seq<string>
    requires n <= |argv|
  {
    if n <= 1 then []
    else if PassOf(options, argv, n - 1) == pass then Picked(options, argv, pass, n - 1) + [argv[n - 1]]
    else Picked(options, argv, pass, n - 1)
  }

  function Reordered(options: seq<CliOption>, argv: seq<string>): seq<string>
    requires |argv| >= 1
  {
    [argv[0]] + Picked(options, argv, First, |argv|) + Picked(options, argv, Second, |argv|)
      + Picked(options, argv, Third, |argv|)
  }

  // ----- every argument is collected exactly once -----

  lemma {:induction false} PickedAll(options: seq<CliOption>, argv: seq<string>, n: nat)
    requires 1 <= n <= |argv|
    ensures |Picked(options, argv, First, n)| + |Picked(options, argv, Second, n)|
            + |Picked(options, argv, Third, n)| == n - 1
    ensures multiset(argv[1..n]) == multiset(Picked(options, argv, First, n))
                                    + multiset(Picked(options, argv, Second, n))
                                    + multiset(Picked(options, argv, Third, n))
  {
    hide PassOf, Picked;
    if n == 1 {
      assert argv[1..1] == [];
      NothingYet(options, argv, First);
      NothingYet(options, argv, Second);
      NothingYet(options, argv, Third);
    } else {
      PickedAll(options, argv, n - 1);
      OneMorePicked(options, argv, First, n);
      OneMorePicked(options, argv, Second, n);
      OneMorePicked(options, argv, Third, n);
      assert argv[1..n] == argv[1..n - 1] + [argv[n - 1]];
    }
  }

  lemma {:induction false} NothingYet(options: seq<CliOption>, argv: seq<string>, pass: Pass)
    requires |argv| >= 1
    ensures Picked(options, argv, pass, 1) == []
  {
  }

  /** The pass that collects argument n - 1 collects one more, the others what they had. */
  lemma {:induction false} OneMorePicked(options: seq<CliOption>, argv: seq<string>, pass: Pass, n: nat)
    requires 1 < n <= |argv|
    ensures var before, now := Picked(options, argv, pass, n - 1), Picked(options, argv, pass, n);
            if PassOf(options, argv, n - 1) == pass then
              |now| == |before| + 1 && multiset(now) == multiset(before) + multiset{argv[n - 1]}
            else now == before
  {
    hide PassOf;
  }

  lemma {:induction false} PickedGrows(options: seq<CliOption>, argv: seq<string>, pass: Pass, m: nat, n: nat)
    requires m <= n <= |argv|
    ensures Picked(options, argv, pass, m) <= Picked(options, argv, pass, n)
    decreases n
  {
    hide PassOf;
    if m < n {
      PickedGrows(options, argv, pass, m, n - 1);
    }
  }

  /** The three passes fill exactly argc slots with a permutation of argv. */
  lemma {:induction false} ReorderedPermutes(options: seq<CliOption>, argv: seq<string>)
    requires |argv| >= 1
    ensures |Reordered(options, argv)| == |argv|
    ensures multiset(Reordered(options, argv)) == multiset(argv)
    ensures Reordered(options, argv)[0] == argv[0]
  {
    PickedAll(options, argv, |argv|);
    assert argv == [argv[0]] + argv[1..|argv|];
  }

  // ----- each value stays directly behind its option -----

  /** Among the arguments of the second pass every plain one directly follows an option that takes a value. */
  ghost predicate ValuesFollow(options: seq<CliOption>, s: seq<string>) {
    forall k :: 0 <= k < |s| && KindOf(options, s[k]) == Plain ==> k > 0 && KindOf(options, s[k - 1]) == Valued
  }

  ghost predicate AllOfKind(options: seq<CliOption>, s: seq<string>, kinds: set<Kind>) {
    forall k :: 0 <= k < |s| ==> KindOf(options, s[k]) in kinds
  }

  lemma {:induction false} PickedKinds(options: seq<CliOption>, argv: seq<string>, n: nat)
    requires n <= |argv|
    ensures AllOfKind(options, Picked(options, argv, First, n), {Flag})
    ensures AllOfKind(options, Picked(options, argv, Second, n), {Valued, Joined, Plain})
    ensures ValuesFollow(options, Picked(options, argv, Second, n))
    ensures AllOfKind(options, Picked(options, argv, Third, n), {Plain})
  {
    hide KindOf;
    if n > 1 {
      PickedKinds(options, argv, n - 1);
      if n > 2 && KindOf(options, argv[n - 2]) == Valued {
        assert PassOf(options, argv, n - 2) == Second;
      }
    }
  }

  // ----- reordering twice is reordering once -----

  function Rank(pass: Pass): nat {
    match pass case First => 0 case Second => 1 case Third => 2
  }

  ghost predicate InOrder(options: seq<CliOption>, argv: seq<string>) {
    forall i, j :: 1 <= i < j < |argv| ==> Rank(PassOf(options, argv, i)) <= Rank(PassOf(options, argv, j))
  }

  /** What the passes pick from a line whose arguments already come pass by pass. */
  lemma {:induction false} PickedInOrder(options: seq<CliOption>, argv: seq<string>, n: nat)
    requires 1 <= n <= |argv| && InOrder(options, argv)
    ensures argv[1..n] == Picked(options, argv, First, n) + Picked(options, argv, Second, n)
                          + Picked(options, argv, Third, n)
    ensures n > 1 && PassOf(options, argv, n - 1) == First
            ==> Picked(options, argv, Second, n) == [] && Picked(options, argv, Third, n) == []
    ensures n > 1 && PassOf(options, argv, n - 1) == Second ==> Picked(options, argv, Third, n) == []
  {
    hide KindOf, PassOf, InOrder;
    assert argv[1..1] == [];
    if n > 1 {
      PickedInOrder(options, argv, n - 1);
      if n > 2 {
        InOrderPair(options, argv, n - 2);
      }
      var x := argv[n - 1];
      var a, b, c := Picked(options, argv, First, n - 1), Picked(options, argv, Second, n - 1),
                     Picked(options, argv, Third, n - 1);
      assert argv[1..n] == argv[1..n - 1] + [x] == a + b + (c + [x]);
      assert c == [] ==> a + b + (c + [x]) == a + (b + [x]) + c;
      assert b == c == [] ==> a + b + (c + [x]) == a + [x] + b + c;
    }
  }

  lemma {:induction false} InOrderPair(options: seq<CliOption>, argv: seq<string>, i: nat)
    requires 1 <= i < |argv| - 1 && InOrder(options, argv)
    ensures Rank(PassOf(options, argv, i)) <= Rank(PassOf(options, argv, i + 1))
  {
    hide PassOf;
  }

  lemma {:induction false} InOrderFixed(options: seq<CliOption>, argv: seq<string>)
    requires |argv| >= 1 && InOrder(options, argv)
    ensures Reordered(options, argv) == argv
  {
    hide PassOf, KindOf, InOrder, Picked;
    PickedInOrder(options, argv, |argv|);
    assert argv == [argv[0]] + argv[1..|argv|];
  }

  lemma {:induction false} PassWithin(options: seq<CliOption>, line: seq<string>, a: seq<string>, b: seq<string>,
                                      c: seq<string>, i: nat)
    requires |line| >= 1 && line == [line[0]] + a + b + c
    requires AllOfKind(options, a, {Flag}) && AllOfKind(options, c, {Plain})
    requires AllOfKind(options, b, {Valued, Joined, Plain}) && ValuesFollow(options, b)
    requires 1 <= i < |line|
    ensures i <= |a| ==> PassOf(options, line, i) == First
    ensures |a| < i <= |a| + |b| ==> PassOf(options, line, i) == Second
    ensures i == |a| + |b| + 1 ==> PassOf(options, line, i) != First
    ensures i > |a| + |b| + 1 ==> PassOf(options, line, i) == Third
  {
    if i <= |a| {
      assert line[i] == a[i - 1];
    } else if i <= |a| + |b| {
      var k := i - 1 - |a|;
      assert line[i] == b[k];
      if k > 0 {
        assert line[i - 1] == b[k - 1];
      }
    } else {
      var k := i - 1 - |a| - |b|;
      assert line[i] == c[k];
      if k > 0 {
        assert line[i - 1] == c[k - 1];
      }
    }
  }

  /**
   A second reordering changes nothing. This holds even when the last option that takes a value has none and is
   followed by a positional after the first reordering: the second pass then picks that positional, and it stays put.
   */
  lemma {:induction false} ReorderedTwice(options: seq<CliOption>, argv: seq<string>)
    requires |argv| >= 1
    ensures |Reordered(options, argv)| >= 1
    ensures Reordered(options, Reordered(options, argv)) == Reordered(options, argv)
  {
    hide PassOf, KindOf, AllOfKind, ValuesFollow;
    var n := |argv|;
    PickedKinds(options, argv, n);
    var line := Reordered(options, argv);
    var a, b, c := Picked(options, argv, First, n), Picked(options, argv, Second, n), Picked(options, argv, Third, n);
    forall i | 1 <= i < |line|
      ensures i <= |a| ==> PassOf(options, line, i) == First
      ensures |a| < i <= |a| + |b| ==> PassOf(options, line, i) == Second
      ensures i == |a| + |b| + 1 ==> PassOf(options, line, i) != First
      ensures i > |a| + |b| + 1 ==> PassOf(options, line, i) == Third
    {
      PassWithin(options, line, a, b, c, i);
    }
    InOrderFixed(options, line);
  }

  // ----- the passes as loops over arrays -----

  method OptionRequiresArg(name: string, options: seq<CliOption>, long: bool) returns (r: bool)
    ensures r == RequiresArg(options, name, long)
  {
    var j := 0;
    while j < |options|
      invariant 0 <= j <= |options|
      invariant Find(options, name, long) == Find(options[j..], name, long)
    {
      var matches;
      if long {
        matches := name == options[j].longName;
      } else {
        matches := name == options[j].shortName;
      }
      if matches {
        return options[j].requiresArg;
      }
      assert options[j..][1..] == options[j + 1..];
      j := j + 1;
    }
    r := false;
  }

  /** The first slots of the scratch array hold argv[0] and what the passes have collected so far. */
  ghost predicate Filled(sorted: seq<string>, done: seq<string>) {
    done <= sorted
  }

  /** One step of a pass over argument i, and room for that argument if the pass collects it. */
  lemma {:induction false} Advance(options: seq<CliOption>, argv: seq<string>, pass: Pass, i: nat)
    requires 1 <= i < |argv|
    ensures PassOf(options, argv, i) == pass
            ==> Picked(options, argv, pass, i + 1) == Picked(options, argv, pass, i) + [argv[i]]
    ensures PassOf(options, argv, i) != pass ==> Picked(options, argv, pass, i + 1) == Picked(options, argv, pass, i)
    ensures PassOf(options, argv, i) == pass
            ==> |Picked(options, argv, pass, i)| < |Picked(options, argv, pass, |argv|)|
    ensures |Picked(options, argv, First, |argv|)| + |Picked(options, argv, Second, |argv|)|
            + |Picked(options, argv, Third, |argv|)| == |argv| - 1
  {
    hide PassOf, KindOf;
    PickedGrows(options, argv, pass, i + 1, |argv|);
    PickedAll(options, argv, |argv|);
  }

  /** One more argument goes into the next slot. */
  method Collect(sorted: array<string>, sortedIdx: nat, arg: string, ghost done: seq<string>) returns (next: nat)
    requires Filled(sorted[..], done) && |done| == sortedIdx < sorted.Length
    modifies sorted
    ensures Filled(sorted[..], done + [arg]) && next == |done + [arg]|
  {
    ghost var before := sorted[..];
    sorted[sortedIdx] := arg;
    assert sorted[..] == before[sortedIdx := arg];
    next := sortedIdx + 1;
  }

  /** argv[0], then the options that take no value. */
  method CollectFlags(argv: array<string>, options: seq<CliOption>, sorted: array<string>) returns (sortedIdx: nat)
    requires argv != sorted && 1 <= argv.Length == sorted.Length
    modifies sorted
    ensures Filled(sorted[..], [argv[0]] + Picked(options, argv[..], First, argv.Length))
    ensures sortedIdx == 1 + |Picked(options, argv[..], First, argv.Length)|
  {
    hide Picked, RequiresArg;
    ghost var line := argv[..];
    sorted[0] := argv[0];
    sortedIdx := 1;
    var i := 1;
    NothingPicked(options, line, First, [line[0]]);
    while i < argv.Length
      invariant 1 <= i <= argv.Length && argv[..] == line
      invariant sortedIdx == 1 + |Picked(options, line, First, i)|
      invariant Filled(sorted[..], [line[0]] + Picked(options, line, First, i))
    {
      hide Filled;
      Advance(options, line, First, i);
      ghost var done := [line[0]] + Picked(options, line, First, i);
      assert PassOf(options, line, i) == First ==> done + [line[i]] == [line[0]] + Picked(options, line, First, i + 1);
      var arg := argv[i];
      if Dashed(arg) {
        var optionText := OptionText(arg);
        if '=' !in optionText {
          var requiresArg := OptionRequiresArg(optionText, options, IsLong(arg));
          if !requiresArg {
            sortedIdx := Collect(sorted, sortedIdx, arg, done);
          }
        }
      }
      i := i + 1;
    }
  }

  lemma {:induction false} NothingPicked(options: seq<CliOption>, argv: seq<string>, pass: Pass, done: seq<string>)
    requires |argv| >= 1
    ensures Picked(options, argv, pass, 1) == [] && done + Picked(options, argv, pass, 1) == done
  {
  }

  lemma {:induction false} KindTests(options: seq<CliOption>, arg: string)
    ensures !Dashed(arg) ==> KindOf(options, arg) == Plain
    ensures Dashed(arg) ==> KindOf(options, arg)
                            == if '=' in OptionText(arg) then Joined
                               else if RequiresArg(options, OptionText(arg), IsLong(arg)) then Valued else Flag
  {
  }

  /** Options with a value: joined ones alone, the others together with the next argument unless that is an option. */
  method CollectValued(argv: array<string>, options: seq<CliOption>, sorted: array<string>, start: nat,
                       ghost done: seq<string>)
    returns (sortedIdx: nat)
    requires argv != sorted && 1 <= argv.Length == sorted.Length
    requires start == |done| == 1 + |Picked(options, argv[..], First, argv.Length)| && Filled(sorted[..], done)
    modifies sorted
    ensures Filled(sorted[..], done + Picked(options, argv[..], Second, argv.Length))
    ensures sortedIdx == |done| + |Picked(options, argv[..], Second, argv.Length)|
  {
    hide Picked, RequiresArg, Filled, KindOf, OptionText;
    ghost var line := argv[..];
    sortedIdx := start;
    var i := 1;
    NothingPicked(options, line, Second, done);
    while i < argv.Length
      invariant 1 <= i <= argv.Length && argv[..] == line
      // the value of an option has been collected together with it
      invariant i > 1 && i < argv.Length && KindOf(options, line[i - 1]) == Valued ==> Dashed(line[i])
      invariant sortedIdx == |done| + |Picked(options, line, Second, i)|
      invariant Filled(sorted[..], done + Picked(options, line, Second, i))
    {
      Advance(options, line, Second, i);
      ghost var sofar := done + Picked(options, line, Second, i);
      assert PassOf(options, line, i) == Second ==> sofar + [line[i]] == done + Picked(options, line, Second, i + 1);
      var arg := argv[i];
      KindTests(options, arg);
      if Dashed(arg) {
        var optionText := OptionText(arg);
        var takesNext := false;
        if '=' !in optionText {
          takesNext := OptionRequiresArg(optionText, options, IsLong(arg));
        }
        if '=' in optionText || takesNext {
          sortedIdx := Collect(sorted, sortedIdx, arg, sofar);
          if takesNext && i + 1 < argv.Length && !Dashed(argv[i + 1]) {
            KindTests(options, argv[i + 1]);
            Advance(options, line, Second, i + 1);
            sofar := done + Picked(options, line, Second, i + 1);
            assert sofar + [line[i + 1]] == done + Picked(options, line, Second, i + 2);
            sortedIdx := Collect(sorted, sortedIdx, argv[i + 1], sofar);
            i := i + 1;
          }
        }
      }
      i := i + 1;
    }
  }

  /** The arguments that are neither options nor values of options. */
  method CollectPlain(argv: array<string>, options: seq<CliOption>, sorted: array<string>, start: nat,
                      ghost done: seq<string>)
    returns (sortedIdx: nat)
    requires argv != sorted && 1 <= argv.Length == sorted.Length
    requires start == |done| == 1 + |Picked(options, argv[..], First, argv.Length)|
                                  + |Picked(options, argv[..], Second, argv.Length)|
    requires Filled(sorted[..], done)
    modifies sorted
    ensures Filled(sorted[..], done + Picked(options, argv[..], Third, argv.Length))
    ensures sortedIdx == |done| + |Picked(options, argv[..], Third, argv.Length)|
  {
    hide Picked, RequiresArg, Filled;
    ghost var line := argv[..];
    sortedIdx := start;
    NothingPicked(options, line, Third, done);
    for i := 1 to argv.Length
      invariant argv[..] == line
      invariant sortedIdx == |done| + |Picked(options, line, Third, i)|
      invariant Filled(sorted[..], done + Picked(options, line, Third, i))
    {
      Advance(options, line, Third, i);
      ghost var sofar := done + Picked(options, line, Third, i);
      assert PassOf(options, line, i) == Third ==> sofar + [line[i]] == done + Picked(options, line, Third, i + 1);
      var arg := argv[i];
      if !Dashed(arg) {
        if i > 1 && Dashed(argv[i - 1]) {
          var previous := OptionText(argv[i - 1]);
          if '=' !in previous {
            var requiresArg := OptionRequiresArg(previous, options, IsLong(argv[i - 1]));
            if requiresArg {
              continue;
            }
          }
        }
        sortedIdx := Collect(sorted, sortedIdx, arg, sofar);
      }
    }
  }

  /** Rearranges argv in place. */
  method Reorder(argv: array<string>, options: seq<CliOption>)
    requires argv.Length >= 1
    modifies argv
    ensures argv[..] == Reordered(options, old(argv[..]))
    ensures multiset(argv[..]) == multiset(old(argv[..]))
  {
    hide Picked;
    ghost var line := argv[..];
    ReorderedPermutes(options, line);
    var sorted := new string[argv.Length];
    var sortedIdx := CollectFlags(argv, options, sorted);
    ghost var done := [line[0]] + Picked(options, line, First, |line|);
    sortedIdx := CollectValued(argv, options, sorted, sortedIdx, done);
    sortedIdx := CollectPlain(argv, options, sorted, sortedIdx, done + Picked(options, line, Second, |line|));
    assert sortedIdx == argv.Length && sorted[..] == Reordered(options, line);
    for i := 0 to sortedIdx
      invariant argv[..i] == sorted[..i] && sorted[..] == Reordered(options, line)
    {
      argv[i] := sorted[i];
    }
    assert argv[..] == sorted[..];
  }
}
