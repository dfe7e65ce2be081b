/** The runtime-mode flag of `application/cli.go`: `-mode`/`--mode` with the
    value in the next argument or after `=`, the choice between the explicit
    mode, "cli" when other arguments are present and the default, and the
    argument list with the mode flags taken out. The argument list is a
    parameter in place of `os.Args`. */
module RuntimeFlags {
  import opened Wrappers
  import opened Strings

  const ModeHttp := "http"
  const ModeCli := "cli"

  /** What `parseModeFlagValue` returns. */
  datatype ModeFlag = ModeFlag(value: string, matched: bool, consumeNext: bool)

  predicate IsBareModeFlag(argument: string) {
    argument == "-mode" || argument == "--mode"
  }

  predicate IsModeAssignment(argument: string) {
    HasPrefix(argument, "-mode=") || HasPrefix(argument, "--mode=")
  }

  /** `parseModeFlagValue`. */
  function ParseModeFlagValue(argument: string): (r: ModeFlag)
    ensures r.consumeNext ==> r.matched && r.value == ""
    ensures r.matched <==> IsBareModeFlag(argument) || IsModeAssignment(argument)
    ensures r.consumeNext <==> IsBareModeFlag(argument)
    ensures !r.matched ==> r.value == ""
    ensures Trimmed(r.value)
  {
    if argument == "-mode" || argument == "--mode" then ModeFlag("", true, true)
    else if HasPrefix(argument, "-mode=") then ModeFlag(TrimSpace(TrimPrefix(argument, "-mode=")), true, false)
    else if HasPrefix(argument, "--mode=") then ModeFlag(TrimSpace(TrimPrefix(argument, "--mode=")), true, false)
    else ModeFlag("", false, false)
  }

  /** The value after either `=` form is the trimmed rest of the argument,
      whatever it is. */
  lemma AssignmentValue(rest: string)
    ensures ParseModeFlagValue("-mode=" + rest) == ModeFlag(TrimSpace(rest), true, false)
    ensures ParseModeFlagValue("--mode=" + rest) == ModeFlag(TrimSpace(rest), true, false)
  {
    var single := "-mode=" + rest;
    var double := "--mode=" + rest;
    assert HasPrefix(single, "-mode=");
    assert HasPrefix(double, "--mode=");
    assert !HasPrefix(double, "-mode=") by {
      assert double[1] == '-';
    }
    assert single != "-mode" && single != "--mode" by {
      assert |single| >= 6;
      assert single[1] == 'm';
    }
    assert double != "-mode" && double != "--mode" by {
      assert |double| >= 7;
    }
    assert single[6..] == rest;
    assert double[7..] == rest;
  }

  // ---------------------------------------------------------------------------
  // Stripping the mode flags

  /** The arguments after the program name that are kept: blank ones go, a
      bare mode flag goes with the next non-blank argument, and an `=` form
      goes alone. The kept arguments are the original, untrimmed ones. */
  function StripFrom(arguments: seq<string>, skipNext: bool): seq<string>
    decreases |arguments|
  {
    if arguments == [] then []
    else
      var argument := TrimSpace(arguments[0]);
      if argument == "" then StripFrom(arguments[1..], skipNext)
      else if skipNext then StripFrom(arguments[1..], false)
      else if IsBareModeFlag(argument) then StripFrom(arguments[1..], true)
      else if IsModeAssignment(argument) then StripFrom(arguments[1..], false)
      else [arguments[0]] + StripFrom(arguments[1..], false)
  }

  /** `stripRuntimeFlagsFromOsArgs`, as a function of the argument list. */
  function Stripped(arguments: seq<string>): (r: seq<string>)
    ensures |r| <= |arguments|
    ensures r == [] <==> arguments == []
    ensures r != [] ==> r[0] == arguments[0]
  {
    if arguments == [] then []
    else
      StripFromShorter(arguments[1..], false);
      [arguments[0]] + StripFrom(arguments[1..], false)
  }

  lemma {:induction false} StripFromShorter(arguments: seq<string>, skipNext: bool)
    ensures |StripFrom(arguments, skipNext)| <= |arguments|
    decreases |arguments|
  {
    if arguments != [] {
      StripFromShorter(arguments[1..], false);
      StripFromShorter(arguments[1..], true);
    }
  }

  /** Every kept argument comes from the input, is not blank and is not a
      mode flag, and the kept ones keep their order. */
  lemma {:induction false} StripFromKeeps(arguments: seq<string>, skipNext: bool)
    ensures |StripFrom(arguments, skipNext)| <= |arguments|
    ensures forall k :: 0 <= k < |StripFrom(arguments, skipNext)| ==>
      var a := StripFrom(arguments, skipNext)[k];
      a in arguments && TrimSpace(a) != "" && !IsBareModeFlag(TrimSpace(a)) && !IsModeAssignment(TrimSpace(a))
    decreases |arguments|
  {
    if arguments != [] {
      StripFromKeeps(arguments[1..], false);
      StripFromKeeps(arguments[1..], true);
    }
  }

  /** An argument that is neither blank nor a mode flag, and not right after
      a bare mode flag, is kept. */
  lemma StripKeepsPlain(head: string, plain: string, rest: seq<string>)
    requires TrimSpace(plain) != "" && !IsBareModeFlag(TrimSpace(plain)) && !IsModeAssignment(TrimSpace(plain))
    ensures Stripped([head, plain] + rest) == [head, plain] + StripFrom(rest, false)
  {
    var arguments := [head, plain] + rest;
    assert arguments[0] == head && arguments[1..] == [plain] + rest;
    assert ([plain] + rest)[0] == plain && ([plain] + rest)[1..] == rest;
    assert StripFrom([plain] + rest, false) == [plain] + StripFrom(rest, false);
    assert Stripped(arguments) == [head] + StripFrom([plain] + rest, false);
  }

  /** The bare mode flags are their own trimmed form. */
  lemma BareFlagTrimmed(flag: string)
    requires IsBareModeFlag(flag)
    ensures TrimSpace(flag) == flag
  {
    assert flag[0] == '-' && flag[|flag| - 1] == 'e';
    TrimSpaceOfTrimmed(flag);
  }

  /** A bare mode flag takes the next non-blank argument with it, even one
      that looks like a flag. */
  lemma StripDropsModeValue(head: string, flag: string, value: string, rest: seq<string>)
    requires IsBareModeFlag(flag) && TrimSpace(value) != ""
    ensures Stripped([head, flag, value] + rest) == [head] + StripFrom(rest, false)
  {
    BareFlagTrimmed(flag);
    var afterFlag := [value] + rest;
    assert afterFlag[1..] == rest;
    assert StripFrom(afterFlag, true) == StripFrom(rest, false);
    var afterHead := [flag] + afterFlag;
    assert afterHead[1..] == afterFlag;
    assert TrimSpace(afterHead[0]) != "" && IsBareModeFlag(TrimSpace(afterHead[0]));
    assert StripFrom(afterHead, false) == StripFrom(afterFlag, true);
    assert ([head, flag, value] + rest)[1..] == afterHead;
  }

  /** The strip loop: the program name stays, then each argument is kept or
      dropped as `StripFrom` says. */
  method StripRuntimeFlagsFromOsArgs(originalArguments: seq<string>) returns (cleanedArguments: seq<string>)
    ensures cleanedArguments == Stripped(originalArguments)
  {
    if |originalArguments| == 0 {
      return originalArguments;
    }
    cleanedArguments := [originalArguments[0]];
    var skipNext := false;
    for index := 1 to |originalArguments|
      invariant cleanedArguments + StripFrom(originalArguments[index..], skipNext) == Stripped(originalArguments)
    {
      assert originalArguments[index..][1..] == originalArguments[index + 1..];
      var argument := TrimSpace(originalArguments[index]);
      if argument == "" {
      } else if skipNext {
        skipNext := false;
      } else if argument == "-mode" || argument == "--mode" {
        skipNext := true;
      } else if HasPrefix(argument, "-mode=") || HasPrefix(argument, "--mode=") {
      } else {
        cleanedArguments := cleanedArguments + [originalArguments[index]];
      }
    }
  }

  // ---------------------------------------------------------------------------
  // Arguments other than runtime flags

  /** `hasNonRuntimeFlagArguments`, stated through the strip: some argument
      after the program name would be kept. */
  predicate HasNonRuntimeFlagArgs(arguments: seq<string>) {
    2 <= |arguments| && StripFrom(arguments[1..], false) != []
  }

  /** The other arguments are present exactly when stripping leaves more than
      the program name. */
  lemma NonRuntimeIffStripKeeps(arguments: seq<string>)
    requires arguments != []
    ensures HasNonRuntimeFlagArgs(arguments) <==> |Stripped(arguments)| > 1
  {
  }

  /** Stripping from position `index` looks at that argument and goes on
      from the next one. */
  lemma StripStep(arguments: seq<string>, index: nat, skipNext: bool)
    requires index < |arguments|
    ensures var argument := TrimSpace(arguments[index]);
      StripFrom(arguments[index..], skipNext) ==
        if argument == "" then StripFrom(arguments[index + 1..], skipNext)
        else if skipNext then StripFrom(arguments[index + 1..], false)
        else if IsBareModeFlag(argument) then StripFrom(arguments[index + 1..], true)
        else if IsModeAssignment(argument) then StripFrom(arguments[index + 1..], false)
        else [arguments[index]] + StripFrom(arguments[index + 1..], false)
  {
    assert arguments[index..][1..] == arguments[index + 1..];
  }

  /** The scan of `hasNonRuntimeFlagArguments`, stopping at the first argument
      that is neither blank, nor a mode flag, nor a mode flag's value. */
  method HasNonRuntimeFlagArguments(arguments: seq<string>) returns (r: bool)
    ensures r == HasNonRuntimeFlagArgs(arguments)
  {
    if 2 > |arguments| {
      return false;
    }
    var skipNext := false;
    var index := 1;
    r := false;
    while index < |arguments| && !r
      invariant 1 <= index <= |arguments|
      invariant !r ==> (StripFrom(arguments[1..], false) != [] <==> StripFrom(arguments[index..], skipNext) != [])
      invariant r ==> StripFrom(arguments[1..], false) != []
      decreases |arguments| - index, if r then 0 else 1
    {
      StripStep(arguments, index, skipNext);
      var argument := TrimSpace(arguments[index]);
      if argument == "" {
        index := index + 1;
      } else if skipNext {
        skipNext := false;
        index := index + 1;
      } else if argument == "-mode" || argument == "--mode" {
        skipNext := true;
        index := index + 1;
      } else if HasPrefix(argument, "-mode=") || HasPrefix(argument, "--mode=") {
        index := index + 1;
      } else {
        r := true;
      }
    }
    if !r {
      assert arguments[index..] == [];
    }
  }

  // ---------------------------------------------------------------------------
  // ParseRuntimeFlags

  /** The mode named by the arguments from here on, starting from `parsed`:
      a bare flag takes the next argument when it is not blank and does not
      start with "-", an `=` form takes its non-blank value, and the last one
      given wins. */
  function ParsedFrom(arguments: seq<string>, parsed: string): string
    decreases |arguments|
  {
    if arguments == [] then parsed
    else
      var argument := TrimSpace(arguments[0]);
      var flag := ParseModeFlagValue(argument);
      if argument == "" || !flag.matched then ParsedFrom(arguments[1..], parsed)
      else if flag.consumeNext then
        if 1 < |arguments| && TrimSpace(arguments[1]) != "" && !HasPrefix(TrimSpace(arguments[1]), "-")
        then ParsedFrom(arguments[2..], TrimSpace(arguments[1]))
        else ParsedFrom(arguments[1..], parsed)
      else ParsedFrom(arguments[1..], if flag.value != "" then flag.value else parsed)
  }

  function Tail(arguments: seq<string>): seq<string> {
    if arguments == [] then [] else arguments[1..]
  }

  datatype ModeError = InvalidMode(mode: string)

  /** `ParseRuntimeFlags`: the explicit mode, else "cli" when other arguments
      are present, else the default; anything but "http" or "cli" is the
      error the source panics with. */
  function RuntimeMode(defaultMode: string, arguments: seq<string>): (r: Result<string, ModeError>)
    ensures r.Ok? ==> r.value == ModeHttp || r.value == ModeCli
    ensures r.Err? ==> r.error.mode != ModeHttp && r.error.mode != ModeCli
  {
    var parsed := ParsedFrom(Tail(arguments), "");
    var mode := if parsed != "" then parsed else if HasNonRuntimeFlagArgs(arguments) then ModeCli else defaultMode;
    if mode != ModeHttp && mode != ModeCli then Err(InvalidMode(mode)) else Ok(mode)
  }

  /** The parsed mode is blank only when no flag named one, so an explicit
      mode always decides. */
  lemma {:induction false} ParsedFromKeeps(arguments: seq<string>, parsed: string)
    ensures parsed != "" ==> ParsedFrom(arguments, parsed) != ""
    decreases |arguments|
  {
    if arguments != [] {
      var argument := TrimSpace(arguments[0]);
      var flag := ParseModeFlagValue(argument);
      ParsedFromKeeps(arguments[1..], parsed);
      if 1 < |arguments| {
        ParsedFromKeeps(arguments[2..], TrimSpace(arguments[1]));
      }
      if flag.value != "" {
        ParsedFromKeeps(arguments[1..], flag.value);
      }
    }
  }

  /** The outcomes: only "http" and "cli" are accepted; an explicit mode
      wins over everything; otherwise other arguments choose "cli"; with only
      the program name the default is used. */
  lemma RuntimeModeChoice(defaultMode: string, arguments: seq<string>)
    ensures RuntimeMode(defaultMode, arguments).Ok? ==>
      RuntimeMode(defaultMode, arguments).value == ModeHttp || RuntimeMode(defaultMode, arguments).value == ModeCli
    ensures var parsed := ParsedFrom(Tail(arguments), "");
      parsed != "" ==> RuntimeMode(defaultMode, arguments) == (if parsed == ModeHttp || parsed == ModeCli then Ok(parsed) else Err(InvalidMode(parsed)))
    ensures ParsedFrom(Tail(arguments), "") == "" && HasNonRuntimeFlagArgs(arguments) ==> RuntimeMode(defaultMode, arguments) == Ok(ModeCli)
    ensures |arguments| <= 1 ==>
      RuntimeMode(defaultMode, arguments) == (if defaultMode == ModeHttp || defaultMode == ModeCli then Ok(defaultMode) else Err(InvalidMode(defaultMode)))
  {
  }

  /** A bare mode flag followed by an argument that starts with "-" names no
      mode, yet the strip still drops that argument with the flag. */
  lemma ModeFlagBeforeFlag(head: string, flag: string, value: string)
    requires IsBareModeFlag(flag) && TrimSpace(value) != "" && HasPrefix(TrimSpace(value), "-")
    requires !IsBareModeFlag(TrimSpace(value)) && !IsModeAssignment(TrimSpace(value))
    ensures ParsedFrom(Tail([head, flag, value]), "") == ""
    ensures Stripped([head, flag, value]) == [head]
  {
    BareFlagTrimmed(flag);
    assert Tail([head, flag, value]) == [flag, value];
    assert [flag, value][1..] == [value];
    assert [value][1..] == [];
    assert !ParseModeFlagValue(TrimSpace(value)).matched;
    assert ParsedFrom([value], "") == "";
    assert ParseModeFlagValue(TrimSpace(flag)).consumeNext;
    assert ParsedFrom([flag, value], "") == ParsedFrom([value], "");
    StripDropsModeValue(head, flag, value, []);
    assert [head, flag, value] + [] == [head, flag, value];
  }

  /** The flag loop of `ParseRuntimeFlags`, then the choice of mode. */
  method ParseRuntimeFlags(defaultMode: string, arguments: seq<string>) returns (r: Result<string, ModeError>)
    ensures r == RuntimeMode(defaultMode, arguments)
  {
    var parsedMode := "";
    var index := 1;
    while index < |arguments|
      invariant 1 <= index
      invariant index <= |arguments| || |arguments| == 0
      invariant ParsedFrom(if index <= |arguments| then arguments[index..] else [], parsedMode) == ParsedFrom(Tail(arguments), "")
      decreases |arguments| - index
    {
      assert arguments[index..][1..] == arguments[index + 1..];
      var argument := TrimSpace(arguments[index]);
      var flag := ParseModeFlagValue(argument);
      if argument == "" || !flag.matched {
        index := index + 1;
      } else if flag.consumeNext {
        if index + 1 < |arguments| && TrimSpace(arguments[index + 1]) != "" && !HasPrefix(TrimSpace(arguments[index + 1]), "-") {
          assert arguments[index..][2..] == arguments[index + 2..];
          parsedMode := TrimSpace(arguments[index + 1]);
          index := index + 2;
        } else {
          index := index + 1;
        }
      } else {
        if flag.value != "" {
          parsedMode := flag.value;
        }
        index := index + 1;
      }
    }
    var hasOthers := HasNonRuntimeFlagArguments(arguments);
    var mode := defaultMode;
    if parsedMode != "" {
      mode := parsedMode;
    } else if hasOthers {
      mode := ModeCli;
    }
    if mode != ModeHttp && mode != ModeCli {
      return Err(InvalidMode(mode));
    }
    return Ok(mode);
  }
}
