/** The CLI side of the application in `application/application_cli.go`:
    registering commands, rewriting `-v`, `-vv`, ... into a verbosity flag,
    and suggesting commands for an unknown name. Rendering the suggestion
    table and running the command are left to the caller. */
module ApplicationCli {
  import opened Wrappers
  import opened Strings
  import Strconv

  /** A registered command, by the two things the suggestions show. */
  datatype CliCommand = CliCommand(name: string, description: string)

  // ---------------------------------------------------------------------------
  // Registering commands

  /** Why a registration is refused; the source panics with each. */
  datatype RegisterError = RegisteredAfterBoot | NilCommand | EmptyName | DuplicateName(name: string)

  /** The commands after registering `command`, or why it is refused. */
  function Registration(booted: bool, commands: seq<CliCommand>, command: Option<CliCommand>): Result<seq<CliCommand>, RegisterError> {
    if booted then Err(RegisteredAfterBoot)
    else if command.None? then Err(NilCommand)
    else if command.value.name == "" then Err(EmptyName)
    else if exists k :: 0 <= k < |commands| && commands[k].name == command.value.name then Err(DuplicateName(command.value.name))
    else Ok(commands + [command.value])
  }

  /** Every registered name is non-empty and names one command. */
  predicate RegistryValid(commands: seq<CliCommand>) {
    (forall k :: 0 <= k < |commands| ==> commands[k].name != "")
    && forall i, j :: 0 <= i < j < |commands| ==> commands[i].name != commands[j].name
  }

  /** Registration keeps the names non-empty and distinct, appends the new
      command last, and refuses exactly the four cases. */
  lemma RegistrationKeepsValid(booted: bool, commands: seq<CliCommand>, command: Option<CliCommand>)
    requires RegistryValid(commands)
    ensures Registration(booted, commands, command).Ok? ==>
      RegistryValid(Registration(booted, commands, command).value)
      && Registration(booted, commands, command).value == commands + [command.value]
    ensures Registration(booted, commands, command).Err? <==>
      booted || command.None? || command.value.name == ""
      || exists k :: 0 <= k < |commands| && commands[k].name == command.value.name
  {
  }

  class Application {
    var booted: bool
    var cliCommands: seq<CliCommand>

    constructor()
      ensures !booted && cliCommands == []
    {
      booted := false;
      cliCommands := [];
    }

    /** `RegisterCliCommand`: a panic of the source is the returned error,
        with the commands unchanged. */
    method RegisterCliCommand(command: Option<CliCommand>) returns (err: Option<RegisterError>)
      modifies this
      ensures booted == old(booted)
      ensures Registration(old(booted), old(cliCommands), command).Ok? ==>
        err == None && cliCommands == Registration(old(booted), old(cliCommands), command).value
      ensures Registration(old(booted), old(cliCommands), command).Err? ==>
        err == Some(Registration(old(booted), old(cliCommands), command).error) && cliCommands == old(cliCommands)
    {
      if booted {
        return Some(RegisteredAfterBoot);
      }
      if command.None? {
        return Some(NilCommand);
      }
      var commandName := command.value.name;
      if commandName == "" {
        return Some(EmptyName);
      }
      var duplicate := false;
      var index := 0;
      while index < |cliCommands| && !duplicate
        invariant 0 <= index <= |cliCommands|
        invariant !duplicate ==> forall k :: 0 <= k < index ==> cliCommands[k].name != commandName
        invariant duplicate ==> exists k :: 0 <= k < |cliCommands| && cliCommands[k].name == commandName
        decreases |cliCommands| - index, if duplicate then 0 else 1
      {
        if cliCommands[index].name == commandName {
          duplicate := true;
        } else {
          index := index + 1;
        }
      }
      if duplicate {
        return Some(DuplicateName(commandName));
      }
      cliCommands := cliCommands + [command.value];
      return None;
    }
  }

  // ---------------------------------------------------------------------------
  // Verbosity short flags

  /** The flag `-v...v` stands for. */
  const FlagNameVerbosity := "verbosity"

  /** A single-dash argument of a `v` and only `v`s after the dash. */
  predicate IsVerbosityShortFlag(argument: string) {
    HasPrefix(argument, "-") && !HasPrefix(argument, "--") && 2 <= |argument|
    && HasPrefix(argument, "-v") && forall k :: 2 <= k < |argument| ==> argument[k] == 'v'
  }

  /** One argument as normalisation rewrites it. */
  function NormalizedArgument(argument: string): string {
    if IsVerbosityShortFlag(argument)
    then "--" + FlagNameVerbosity + "=" + Strconv.FormatInt(|argument| - 1)
    else argument
  }

  /** The position of the first "--", or the length. */
  function StopIndex(arguments: seq<string>): (r: nat)
    ensures r <= |arguments|
    ensures r < |arguments| ==> arguments[r] == "--"
    ensures forall k :: 0 <= k < r ==> arguments[k] != "--"
    decreases |arguments|
  {
    if arguments == [] then 0
    else if arguments[0] == "--" then 0
    else 1 + StopIndex(arguments[1..])
  }

  /** `normalizeCliVerbosityArguments`: every argument before the first "--"
      is rewritten; that one and all after it are left alone. */
  function NormalizedArguments(arguments: seq<string>): (r: seq<string>)
    ensures |r| == |arguments|
  {
    seq(|arguments|, k requires 0 <= k < |arguments| =>
      if k < StopIndex(arguments) then NormalizedArgument(arguments[k]) else arguments[k])
  }

  lemma {:induction false} CountAllChar(s: string, c: char)
    requires forall k :: 0 <= k < |s| ==> s[k] == c
    ensures CountChar(s, c) == |s|
    decreases |s|
  {
    if s != [] {
      CountAllChar(s[1..], c);
    }
  }

  /** A verbosity short flag is "-" followed by one or more `v`s, and the level
      it gives is the number of `v`s. */
  lemma VerbosityLevel(argument: string)
    ensures IsVerbosityShortFlag(argument) <==>
      2 <= |argument| && argument[0] == '-' && forall k :: 1 <= k < |argument| ==> argument[k] == 'v'
    ensures IsVerbosityShortFlag(argument) ==> CountChar(argument, 'v') == |argument| - 1
  {
    if IsVerbosityShortFlag(argument) {
      assert argument[..2] == "-v";
      assert argument[1] == 'v';
      CountAllChar(argument[1..], 'v');
    } else if 2 <= |argument| && argument[0] == '-' && forall k :: 1 <= k < |argument| ==> argument[k] == 'v' {
      assert argument[..1] == "-";
      assert argument[..2] == "-v";
    }
  }

  /** The rewritten form of a short flag starts with "--", so it is neither a
      short flag nor "--" itself. */
  lemma RewrittenIsLongFlag(argument: string)
    ensures !IsVerbosityShortFlag(NormalizedArgument(argument)) || NormalizedArgument(argument) == argument
    ensures NormalizedArgument(argument) == "--" <==> argument == "--"
  {
    if IsVerbosityShortFlag(argument) {
      var r := NormalizedArgument(argument);
      assert r[..2] == "--";
      assert |r| > 2;
    }
  }

  /** Normalising twice changes nothing more. */
  lemma {:induction false} NormalizeIdempotent(arguments: seq<string>)
    ensures NormalizedArguments(NormalizedArguments(arguments)) == NormalizedArguments(arguments)
  {
    var once := NormalizedArguments(arguments);
    forall k | 0 <= k < |arguments| ensures (once[k] == "--") == (arguments[k] == "--") {
      RewrittenIsLongFlag(arguments[k]);
    }
    StopIndexSame(arguments, once);
    forall k | 0 <= k < |arguments| ensures NormalizedArguments(once)[k] == once[k] {
      RewrittenIsLongFlag(arguments[k]);
    }
  }

  lemma {:induction false} StopIndexSame(a: seq<string>, b: seq<string>)
    requires |a| == |b| && forall k :: 0 <= k < |a| ==> (a[k] == "--") == (b[k] == "--")
    ensures StopIndex(a) == StopIndex(b)
    decreases |a|
  {
    if a != [] && a[0] != "--" {
      StopIndexSame(a[1..], b[1..]);
    }
  }

  /** The `v`-only test over the characters after "-v". */
  method OnlyVsAfterPrefix(argument: string) returns (r: bool)
    requires 2 <= |argument|
    ensures r <==> forall k :: 2 <= k < |argument| ==> argument[k] == 'v'
  {
    r := true;
    var k := 2;
    while k < |argument| && r
      invariant 2 <= k <= |argument|
      invariant r ==> forall j :: 2 <= j < k ==> argument[j] == 'v'
      invariant !r ==> exists j :: 2 <= j < |argument| && argument[j] != 'v'
      decreases |argument| - k, if r then 1 else 0
    {
      if argument[k] != 'v' {
        r := false;
      } else {
        k := k + 1;
      }
    }
  }

  /** The normalisation loop, with the `--` stop flag. */
  method NormalizeCliVerbosityArguments(arguments: seq<string>) returns (normalized: seq<string>)
    ensures normalized == NormalizedArguments(arguments)
  {
    if |arguments| == 0 {
      return arguments;
    }
    normalized := [];
    var stopNormalization := false;
    for i := 0 to |arguments|
      invariant stopNormalization <==> StopIndex(arguments) < i
      invariant normalized == NormalizedArguments(arguments)[..i]
    {
      var argument := arguments[i];
      assert NormalizedArguments(arguments)[..i + 1] == NormalizedArguments(arguments)[..i] + [NormalizedArguments(arguments)[i]];
      if stopNormalization {
        normalized := normalized + [argument];
      } else if argument == "--" {
        stopNormalization := true;
        normalized := normalized + [argument];
      } else {
        var rewritten := NormalizeArgument(argument);
        normalized := normalized + [rewritten];
      }
    }
  }

  /** One argument before the stop flag: the short-flag test and rewrite. */
  method NormalizeArgument(argument: string) returns (r: string)
    ensures r == NormalizedArgument(argument)
  {
    var isVerbosityShortFlag := false;
    if HasPrefix(argument, "-") && !HasPrefix(argument, "--") {
      isVerbosityShortFlag := 2 <= |argument| && HasPrefix(argument, "-v");
      if isVerbosityShortFlag {
        isVerbosityShortFlag := OnlyVsAfterPrefix(argument);
      }
    }
    if isVerbosityShortFlag {
      var verbosityLevel := |argument| - 1;
      r := "--" + FlagNameVerbosity + "=" + Strconv.FormatInt(verbosityLevel);
    } else {
      r := argument;
    }
  }

  // ---------------------------------------------------------------------------
  // Suggesting commands

  const MaxMatchesToPrint := 50

  /** A row of the suggestion table: a blank description shows as "-". */
  datatype Row = Row(command: string, description: string)

  function RowOf(command: CliCommand): Row {
    var description := TrimSpace(command.description);
    Row(command.name, if description == "" then "-" else description)
  }

  /** What `suggestCliCommand` does: nothing, or the exit-status-2 error for
      an unknown command with either all commands listed or the matches. */
  datatype SuggestOutcome =
    | Proceed
    | CommandNotFound(command: string, listed: seq<Row>)
    | MatchesFound(command: string, total: nat, printed: seq<Row>)

  /** No suggestion is made without a command argument, for a flag, for
      help or h in any case, or for a registered name. */
  predicate NoSuggestion(arguments: seq<string>, commands: seq<CliCommand>) {
    |arguments| < 2
    || TrimSpace(arguments[1]) == ""
    || HasPrefix(TrimSpace(arguments[1]), "-")
    || ToLower(TrimSpace(arguments[1])) == "help" || ToLower(TrimSpace(arguments[1])) == "h"
    || exists k :: 0 <= k < |commands| && commands[k].name == TrimSpace(arguments[1])
  }

  /** The commands whose lower-case name contains `needle`, in order. */
  function Matching(commands: seq<CliCommand>, needle: string): (r: seq<CliCommand>)
    ensures forall k :: 0 <= k < |r| ==> r[k] in commands && Contains(ToLower(r[k].name), needle)
    ensures |r| <= |commands|
    decreases |commands|
  {
    if commands == [] then []
    else
      var init := Matching(commands[..|commands| - 1], needle);
      var last := commands[|commands| - 1];
      if Contains(ToLower(last.name), needle) then init + [last] else init
  }

  /** Every matching command is among the matches. */
  lemma {:induction false} MatchingComplete(commands: seq<CliCommand>, needle: string, k: nat)
    requires k < |commands| && Contains(ToLower(commands[k].name), needle)
    ensures commands[k] in Matching(commands, needle)
    decreases |commands|
  {
    if k < |commands| - 1 {
      MatchingComplete(commands[..|commands| - 1], needle, k);
    }
  }

  predicate NameSorted(s: seq<CliCommand>) {
    forall i, j :: 0 <= i < j < |s| ==> LessEq(s[i].name, s[j].name)
  }

  function InsertByName(x: CliCommand, s: seq<CliCommand>): (r: seq<CliCommand>)
    requires NameSorted(s)
    ensures NameSorted(r)
    ensures multiset(r) == multiset(s) + multiset{x}
  {
    if s == [] then [x]
    else if LessEq(x.name, s[0].name) then
      assert forall j :: 0 <= j < |s| ==> LessEq(x.name, s[j].name) by {
        forall j | 0 <= j < |s| ensures LessEq(x.name, s[j].name) {
          if x.name != s[0].name && s[0].name != s[j].name { LessTransitive(x.name, s[0].name, s[j].name); }
        }
      }
      [x] + s
    else
      LessTotal(x.name, s[0].name);
      var t := InsertByName(x, s[1..]);
      assert s == [s[0]] + s[1..];
      assert forall y :: y in multiset(t) ==> y == x || y in s[1..];
      assert forall j :: 0 <= j < |t| ==> t[j] in multiset(t);
      NameSortedHead(s[0], s[1..], x, t);
      [s[0]] + t
  }

  lemma NameSortedHead(h: CliCommand, rest: seq<CliCommand>, x: CliCommand, t: seq<CliCommand>)
    requires NameSorted([h] + rest) && NameSorted(t) && Less(h.name, x.name)
    requires forall j :: 0 <= j < |t| ==> t[j] == x || t[j] in rest
    ensures NameSorted([h] + t)
  {
    var r := [h] + t;
    forall i, j | 0 <= i < j < |r| ensures LessEq(r[i].name, r[j].name) {
      if i == 0 {
        if t[j - 1] != x {
          var k :| 0 <= k < |rest| && rest[k] == t[j - 1];
          assert ([h] + rest)[k + 1] == rest[k];
          assert LessEq(([h] + rest)[0].name, ([h] + rest)[k + 1].name);
        }
        assert r[0] == h && r[j] == t[j - 1];
      } else {
        assert r[i] == t[i - 1] && r[j] == t[j - 1];
      }
    }
  }

  /** `sort.Slice` by name. The source's sort is not stable, so commands
      with equal names may come in either order there; registration keeps
      names distinct, and then the order is fully determined. */
  function SortByName(s: seq<CliCommand>): (r: seq<CliCommand>)
    ensures NameSorted(r)
    ensures multiset(r) == multiset(s)
    ensures |r| == |s|
  {
    if s == [] then []
    else
      var r := InsertByName(s[|s| - 1], SortByName(s[..|s| - 1]));
      assert s == s[..|s| - 1] + [s[|s| - 1]];
      assert |r| == |multiset(r)|;
      r
  }

  function Rows(commands: seq<CliCommand>): (r: seq<Row>)
    ensures |r| == |commands|
  {
    seq(|commands|, k requires 0 <= k < |commands| => RowOf(commands[k]))
  }

  /** Rows keep the commands' names, hence their order. */
  lemma RowsKeepOrder(commands: seq<CliCommand>)
    requires NameSorted(commands)
    ensures forall i, j :: 0 <= i < j < |Rows(commands)| ==> LessEq(Rows(commands)[i].command, Rows(commands)[j].command)
  {
    var r := Rows(commands);
    forall i, j | 0 <= i < j < |r| ensures LessEq(r[i].command, r[j].command) {
      assert r[i].command == commands[i].name && r[j].command == commands[j].name;
    }
  }

  /** The matches at most 50 of which are shown, sorted by name. */
  function SortedMatches(commands: seq<CliCommand>, needle: string): seq<CliCommand> {
    SortByName(Matching(commands, needle))
  }

  function Shown(matches: seq<CliCommand>): (r: seq<CliCommand>)
    ensures r <= matches
    ensures |r| == if MaxMatchesToPrint < |matches| then MaxMatchesToPrint else |matches|
  {
    if MaxMatchesToPrint < |matches| then matches[..MaxMatchesToPrint] else matches
  }

  /** `suggestCliCommand`, on the normalised arguments. */
  function Suggestion(arguments: seq<string>, commands: seq<CliCommand>): SuggestOutcome {
    if NoSuggestion(arguments, commands) then Proceed
    else Unknown(TrimSpace(arguments[1]), commands)
  }

  /** The error for a command name that is not registered. */
  function Unknown(commandName: string, commands: seq<CliCommand>): SuggestOutcome {
    var matching := SortedMatches(commands, ToLower(commandName));
    if |matching| == 0 then CommandNotFound(commandName, Rows(commands))
    else MatchesFound(commandName, |matching|, Rows(Shown(matching)))
  }

  /** The shown matches are sorted by name and each is a matching command. */
  lemma ShownMatches(commands: seq<CliCommand>, needle: string)
    ensures var shown := Shown(SortedMatches(commands, needle));
      NameSorted(shown)
      && forall k :: 0 <= k < |shown| ==> shown[k] in commands && Contains(ToLower(shown[k].name), needle)
  {
    var m := Matching(commands, needle);
    var sorted := SortByName(m);
    var shown := Shown(sorted);
    forall k | 0 <= k < |shown| ensures shown[k] in commands && Contains(ToLower(shown[k].name), needle) {
      assert shown[k] == sorted[k];
      assert shown[k] in multiset(m);
    }
  }

  /** No suggestion is made exactly in the no-suggestion cases; otherwise the
      trimmed name is reported unknown. */
  lemma SuggestionProceeds(arguments: seq<string>, commands: seq<CliCommand>)
    ensures Suggestion(arguments, commands).Proceed? <==> NoSuggestion(arguments, commands)
    ensures !NoSuggestion(arguments, commands) ==> Suggestion(arguments, commands) == Unknown(TrimSpace(arguments[1]), commands)
  {
    if !NoSuggestion(arguments, commands) {
      NotFoundListsAll(TrimSpace(arguments[1]), commands);
    }
  }

  /** An unknown command that no name contains lists all commands. */
  lemma NotFoundListsAll(commandName: string, commands: seq<CliCommand>)
    ensures Unknown(commandName, commands).CommandNotFound? <==>
      forall k :: 0 <= k < |commands| ==> !Contains(ToLower(commands[k].name), ToLower(commandName))
    ensures Unknown(commandName, commands).CommandNotFound? ==>
      Unknown(commandName, commands).command == commandName
      && Unknown(commandName, commands).listed == Rows(commands)
    ensures Unknown(commandName, commands).MatchesFound? || Unknown(commandName, commands).CommandNotFound?
  {
    var needle := ToLower(commandName);
    var m := Matching(commands, needle);
    var sorted := SortByName(m);
    if |sorted| == 0 {
      forall k | 0 <= k < |commands| ensures !Contains(ToLower(commands[k].name), needle) {
        if Contains(ToLower(commands[k].name), needle) {
          MatchingComplete(commands, needle, k);
        }
      }
    } else {
      assert m[0] in commands;
    }
  }

  /** With matches, the total counts them all, at most 50 are shown, sorted
      by name, and each shown row is a matching command's row. */
  lemma MatchesShape(commandName: string, commands: seq<CliCommand>)
    requires Unknown(commandName, commands).MatchesFound?
    ensures var o := Unknown(commandName, commands);
      var needle := ToLower(commandName);
      o.command == commandName
      && o.total == |Matching(commands, needle)| && 0 < o.total
      && |o.printed| == (if MaxMatchesToPrint < o.total then MaxMatchesToPrint else o.total)
      && (forall i, j :: 0 <= i < j < |o.printed| ==> LessEq(o.printed[i].command, o.printed[j].command))
      && (forall k :: 0 <= k < |o.printed| ==>
            exists c :: c in commands && Contains(ToLower(c.name), needle) && o.printed[k] == RowOf(c))
  {
    var needle := ToLower(commandName);
    var shown := Shown(SortedMatches(commands, needle));
    var printed := Rows(shown);
    assert Unknown(commandName, commands) == MatchesFound(commandName, |SortedMatches(commands, needle)|, printed);
    ShownMatches(commands, needle);
    RowsKeepOrder(shown);
    forall k | 0 <= k < |printed|
      ensures exists c :: c in commands && Contains(ToLower(c.name), needle) && printed[k] == RowOf(c)
    {
      assert printed[k] == RowOf(shown[k]);
    }
  }

  /** The loops of `suggestCliCommand`: the exact-name check, the matches,
      and the rows shown. */
  method SuggestCliCommand(arguments: seq<string>, availableCommands: seq<CliCommand>) returns (r: SuggestOutcome)
    ensures r == Suggestion(arguments, availableCommands)
  {
    if 2 > |arguments| {
      return Proceed;
    }
    var commandName := TrimSpace(arguments[1]);
    var lowercaseCommandName := ToLower(commandName);
    if commandName == "" || HasPrefix(commandName, "-") || lowercaseCommandName == "help" || lowercaseCommandName == "h" {
      return Proceed;
    }
    var exact := HasExactName(availableCommands, commandName);
    if exact {
      return Proceed;
    }
    var matchingCommands := MatchingOf(availableCommands, lowercaseCommandName);
    matchingCommands := SortByName(matchingCommands);
    assert matchingCommands == SortedMatches(availableCommands, lowercaseCommandName);
    if |matchingCommands| == 0 {
      var listed := RowsOf(availableCommands);
      return CommandNotFound(commandName, listed);
    }
    var matchesToPrint := matchingCommands;
    if MaxMatchesToPrint < |matchingCommands| {
      matchesToPrint := matchingCommands[..MaxMatchesToPrint];
    }
    assert matchesToPrint == Shown(matchingCommands);
    var printed := RowsOf(matchesToPrint);
    r := MatchesFound(commandName, |matchingCommands|, printed);
  }

  /** The exact-name loop. */
  method HasExactName(commands: seq<CliCommand>, name: string) returns (exact: bool)
    ensures exact <==> exists j :: 0 <= j < |commands| && commands[j].name == name
  {
    exact := false;
    for k := 0 to |commands|
      invariant exact <==> exists j :: 0 <= j < k && commands[j].name == name
    {
      if commands[k].name == name {
        exact := true;
      }
    }
  }

  /** The matching loop: the commands whose lower-case name holds `needle`. */
  method MatchingOf(commands: seq<CliCommand>, needle: string) returns (matching: seq<CliCommand>)
    ensures matching == Matching(commands, needle)
  {
    matching := [];
    for k := 0 to |commands|
      invariant matching == Matching(commands[..k], needle)
    {
      assert commands[..k + 1][..k] == commands[..k];
      if Contains(ToLower(commands[k].name), needle) {
        matching := matching + [commands[k]];
      }
    }
    assert commands[..|commands|] == commands;
  }

  /** The row loop: trimmed descriptions, "-" for a blank one. */
  method RowsOf(commands: seq<CliCommand>) returns (rows: seq<Row>)
    ensures rows == Rows(commands)
  {
    rows := [];
    for k := 0 to |commands|
      invariant rows == Rows(commands)[..k]
    {
      var description := TrimSpace(commands[k].description);
      if description == "" {
        description := "-";
      }
      rows := rows + [Row(commands[k].name, description)];
    }
  }
}
