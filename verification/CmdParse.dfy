/** The option parser of cmd_parse, run over the rearranged argv, and what the two steps together promise. */
module CmdParse {
  import opened Wrappers
  import opened CmdOrder

  datatype CliResult = CliResult(optionName: string, argument: Option<string>)

  /** What the parser makes of argv: an error return, or the results and the position where it stopped. */
  datatype Outcome = Failed(results: seq<CliResult>) | Done(results: seq<CliResult>, next: nat)

  function Prepend(results: seq<CliResult>, rest: Outcome): Outcome {
    rest.(results := results + rest.results)
  }

  /** The position of the first '=', or the length of the text. */
  function EqualsAt(text: string): (n: nat)
    ensures n <= |text| && '=' !in text[..n] && (n < |text| ==> text[n] == '=')
    ensures n == |text| <==> '=' !in text
  {
    if text == [] || text[0] == '=' then 0
    else
      var n := EqualsAt(text[1..]);
      assert text[..n + 1] == [text[0]] + text[1..][..n];
      assert text == [text[0]] + text[1..];
      n + 1
  }

  /** An option whose own name has an '=' in it brings its argument along. */
  predicate BringsArgument(text: string, long: bool) {
    EqualsAt(text) < |text| && (long || EqualsAt(text) == 1)
  }

  /** Parsing from position i with room for that many more results. */
  function Scan(options: seq<CliOption>, argv: seq<string>, i: nat, slots: nat): Outcome
    requires i <= |argv|
    decreases |argv| - i
  {
    if i == |argv| || slots == 0 || !Dashed(argv[i]) then Done([], i)
    else
      var text, long := OptionText(argv[i]), IsLong(argv[i]);
      match Find(options, text, long)
      case None => Done([], i)
      case Some(option) =>
        if !option.requiresArg then
          Prepend([CliResult(text, None)], Scan(options, argv, i + 1, slots - 1))
        else if BringsArgument(text, long) then
          Prepend([CliResult(text, Some(text[EqualsAt(text) + 1..]))], Scan(options, argv, i + 1, slots - 1))
        else if i + 1 < |argv| && !Dashed(argv[i + 1]) then
          Prepend([CliResult(text, Some(argv[i + 1]))], Scan(options, argv, i + 2, slots - 1))
        else
          Failed([])
  }

  // ----- the parser as a loop -----

  method FindOption(name: string, options: seq<CliOption>, long: bool) returns (r: Option<CliOption>)
    ensures r == Find(options, name, long)
  {
    var j := 0;
    while j < |options|
      invariant 0 <= j <= |options|
      invariant Find(options, name, long) == Find(options[j..], name, long)
    {
      var matches;
      if long {
        matches := name == options[j].longName;
      } else {
        matches := name == options[j].shortName;
      }
      if matches {
        return Some(options[j]);
      }
      assert options[j..][1..] == options[j + 1..];
      j := j + 1;
    }
    r := None;
  }

  lemma {:induction false} PrependTwice(a: seq<CliResult>, b: seq<CliResult>, rest: Outcome)
    ensures Prepend(a, Prepend(b, rest)) == Prepend(a + b, rest)
  {
    assert a + (b + rest.results) == a + b + rest.results;
  }

  /** What one option found in the table does: its result and how many arguments it takes up, or the error. */
  function Taken(argv: seq<string>, i: nat, option: CliOption): (r: Option<(CliResult, nat)>)
    requires i < |argv| && Dashed(argv[i])
    ensures r.Some? ==> 1 <= r.value.1 <= 2 && i + r.value.1 <= |argv|
  {
    var text, long := OptionText(argv[i]), IsLong(argv[i]);
    if !option.requiresArg then Some((CliResult(text, None), 1))
    else if BringsArgument(text, long) then Some((CliResult(text, Some(text[EqualsAt(text) + 1..])), 1))
    else if i + 1 < |argv| && !Dashed(argv[i + 1]) then Some((CliResult(text, Some(argv[i + 1])), 2))
    else None
  }

  /** Where a scan goes no further. */
  lemma {:induction false} ScanEnds(options: seq<CliOption>, argv: seq<string>, i: nat, slots: nat)
    requires i <= |argv|
    ensures i == |argv| || slots == 0 || !Dashed(argv[i]) || Find(options, OptionText(argv[i]), IsLong(argv[i])).None?
            ==> Scan(options, argv, i, slots) == Done([], i)
    ensures i < |argv| && slots > 0 && Dashed(argv[i])
            ==> var found := Find(options, OptionText(argv[i]), IsLong(argv[i]));
                found.Some? && Taken(argv, i, found.value).None? ==> Scan(options, argv, i, slots) == Failed([])
  {
  }

  lemma {:induction false} ScanStep(options: seq<CliOption>, argv: seq<string>, i: nat, slots: nat,
                                    option: CliOption)
    requires i < |argv| && slots > 0 && Dashed(argv[i])
    requires Find(options, OptionText(argv[i]), IsLong(argv[i])) == Some(option)
    requires Taken(argv, i, option).Some?
    ensures var (result, width) := Taken(argv, i, option).value;
            Scan(options, argv, i, slots) == Prepend([result], Scan(options, argv, i + width, slots - 1))
  {
  }

  /** Stores the result of one option found in the table; width 0 is the error. Its name is stored even then. */
  method Take(argv: array<string>, i: nat, option: CliOption, results: array<CliResult>, resultCount: nat)
    returns (width: nat)
    requires i < argv.Length && resultCount < results.Length && Dashed(argv[i])
    modifies results
    ensures var taken := Taken(argv[..], i, option);
            if taken.None? then
              width == 0 && results[..] == old(results[..])[resultCount := results[resultCount]]
            else
              width == taken.value.1 && results[..] == old(results[..])[resultCount := taken.value.0]
  {
    var optionText, long := OptionText(argv[i]), IsLong(argv[i]);
    results[resultCount] := results[resultCount].(optionName := optionText);
    width := 1;
    if option.requiresArg {
      if BringsArgument(optionText, long) {
        results[resultCount] := results[resultCount].(argument := Some(optionText[EqualsAt(optionText) + 1..]));
      } else if i + 1 < argv.Length && !Dashed(argv[i + 1]) {
        results[resultCount] := results[resultCount].(argument := Some(argv[i + 1]));
        width := 2;
      } else {
        width := 0;
      }
    } else {
      results[resultCount] := results[resultCount].(argument := None);
    }
  }

  /** The results so far and what the scan of the rest will add make up the whole outcome. */
  ghost predicate Parsed(outcome: Outcome, results: seq<CliResult>, count: nat, rest: Outcome) {
    count <= |results| && outcome == Prepend(results[..count], rest)
  }

  lemma {:induction false} ParsedStart(outcome: Outcome, results: seq<CliResult>)
    ensures Parsed(outcome, results, 0, outcome)
  {
  }

  lemma {:induction false} ParsedStep(outcome: Outcome, results: seq<CliResult>, count: nat, rest: Outcome,
                                      result: CliResult, now: seq<CliResult>, next: Outcome)
    requires count < |results| && now == results[count := result]
    requires Parsed(outcome, results, count, rest) && rest == Prepend([result], next)
    ensures Parsed(outcome, now, count + 1, next)
  {
    assert now[..count + 1] == results[..count] + [result];
    PrependTwice(results[..count], [result], next);
  }

  lemma {:induction false} ParsedEnd(outcome: Outcome, results: seq<CliResult>, count: nat, rest: Outcome)
    requires Parsed(outcome, results, count, rest) && rest.results == []
    ensures |outcome.results| == count <= |results| && results[..count] == outcome.results
    ensures outcome == rest.(results := results[..count])
  {
  }

  /** Fills the results and says where it stopped; -1 is the error return, which leaves optind alone. */
  method ParseOptions(argv: array<string>, options: seq<CliOption>, results: array<CliResult>, optind0: int)
    returns (resultCount: int, optind: int)
    requires argv.Length >= 1
    modifies results
    ensures var outcome := Scan(options, argv[..], 1, results.Length);
            && |outcome.results| <= results.Length
            && results[..|outcome.results|] == outcome.results
            && (outcome.Failed? ==> resultCount == -1 && optind == optind0)
            && (outcome.Done? ==> resultCount == |outcome.results| && optind == outcome.next)
  {
    hide Find, Parsed, Taken, Scan;
    ghost var line := argv[..];
    ghost var outcome := Scan(options, line, 1, results.Length);
    resultCount := 0;
    optind := optind0;
    var i := 1;
    ParsedStart(outcome, results[..]);
    while i < argv.Length && resultCount < results.Length
      invariant 1 <= i <= argv.Length && 0 <= resultCount <= results.Length && argv[..] == line && optind == optind0
      invariant Parsed(outcome, results[..], resultCount, Scan(options, line, i, results.Length - resultCount))
    {
      ghost var before := results[..];
      ghost var slots := results.Length - resultCount;
      var arg := argv[i];
      if !Dashed(arg) {
        break;
      }
      var found := FindOption(OptionText(arg), options, IsLong(arg));
      if found.None? {
        break;
      }
      var width := Take(argv, i, found.value, results, resultCount);
      if width == 0 {
        ScanEnds(options, line, i, slots);
        ParsedEnd(outcome, before, resultCount, Scan(options, line, i, slots));
        assert results[..resultCount] == before[..resultCount];
        return -1, optind0;
      }
      ScanStep(options, line, i, slots, found.value);
      ParsedStep(outcome, before, resultCount, Scan(options, line, i, slots), results[resultCount], results[..],
                 Scan(options, line, i + width, slots - 1));
      resultCount := resultCount + 1;
      i := i + width;
    }
    ScanEnds(options, line, i, results.Length - resultCount);
    ParsedEnd(outcome, results[..], resultCount, Scan(options, line, i, results.Length - resultCount));
    optind := i;
  }

  /** Rearranges argv, parses it, and names the file when exactly one argument is left over. */
  method CmdParse(argv: array<string>, options: seq<CliOption>, results: array<CliResult>,
                  useLastArgAsFilename: bool, optind0: int)
    returns (resultCount: int, filename: Option<string>, optind: int)
    requires argv.Length >= 1
    modifies argv, results
    ensures argv[..] == Reordered(options, old(argv[..]))
    ensures var outcome := Scan(options, argv[..], 1, results.Length);
            && |outcome.results| <= results.Length
            && results[..|outcome.results|] == outcome.results
            && (outcome.Failed? ==> resultCount == -1 && optind == optind0 && filename == None)
            && (outcome.Done? ==> resultCount == |outcome.results| && optind == outcome.next)
    ensures resultCount >= 0 && useLastArgAsFilename && optind == argv.Length - 1 ==> filename == Some(argv[optind])
    ensures resultCount >= 0 && !(useLastArgAsFilename && optind == argv.Length - 1) ==> filename == None
  {
    Reorder(argv, options);
    filename := None;
    resultCount, optind := ParseOptions(argv, options, results, optind0);
    if resultCount >= 0 && useLastArgAsFilename && optind < argv.Length && argv.Length - optind == 1 {
      filename := Some(argv[optind]);
    }
  }
}
