/** Validation tags such as `required,max(value=10),regex(pattern=^[a,b]$)`.
    A tag is split into rules on the commas outside parentheses; each rule is a
    bare name, a `name=value` pair or a call `name(key=value, ...)`; a call's
    parameter list is split on the commas outside regular-expression character
    classes, repetition counts and quotes. Both splitters are character
    scanners: each is specified by a step function folded over the input, and
    the loop methods are proved to compute that fold. */
module ValidationRule {
  import opened Wrappers
  import opened Strings

  // ---------------------------------------------------------------------------
  // Splitting a tag on the commas outside parentheses

  /** The state of `splitByTopLevelComma`: the finished parts, the part being
      built, the parenthesis depth, and whether the previous character was a
      backslash. */
  datatype TopLevelState = TopLevelState(parts: seq<string>, current: string, parenDepth: nat, wasEscaped: bool)

  const TopLevelStart := TopLevelState([], [], 0, false)

  /** The finished parts followed by the part being built. */
  function TopLevelPieces(st: TopLevelState): seq<string> {
    st.parts + [st.current]
  }

  /** One character of `splitByTopLevelComma`: an escaped character, a
      backslash and the parentheses are copied; a comma at depth 0 ends the
      part; a `)` never takes the depth below 0. */
  function TopLevelStep(st: TopLevelState, c: char): TopLevelState {
    if st.wasEscaped then st.(current := st.current + [c], wasEscaped := false)
    else if c == '\\' then st.(current := st.current + [c], wasEscaped := true)
    else if c == '(' then st.(current := st.current + [c], parenDepth := st.parenDepth + 1)
    else if c == ')' then st.(current := st.current + [c], parenDepth := if 0 < st.parenDepth then st.parenDepth - 1 else 0)
    else if c == ',' && st.parenDepth == 0 then st.(parts := st.parts + [st.current], current := [])
    else st.(current := st.current + [c])
  }

  function TopLevelScan(st: TopLevelState, s: string): TopLevelState
    decreases |s|
  {
    if s == [] then st else TopLevelStep(TopLevelScan(st, s[..|s| - 1]), s[|s| - 1])
  }

  /** `splitByTopLevelComma` as a function. */
  function TopLevelParts(s: string): seq<string> {
    TopLevelPieces(TopLevelScan(TopLevelStart, s))
  }

  /** `splitByTopLevelComma`. */
  method SplitByTopLevelComma(valueString: string) returns (parts: seq<string>)
    ensures parts == TopLevelParts(valueString)
  {
    parts := [];
    var current := [];
    var parenDepth := 0;
    var wasEscaped := false;
    var i := 0;
    while i < |valueString|
      invariant 0 <= i <= |valueString|
      invariant TopLevelState(parts, current, parenDepth, wasEscaped) == TopLevelScan(TopLevelStart, valueString[..i])
    {
      var character := valueString[i];
      assert valueString[..i + 1][..i] == valueString[..i];
      i := i + 1;
      if wasEscaped {
        current := current + [character];
        wasEscaped := false;
        continue;
      }
      if character == '\\' {
        current := current + [character];
        wasEscaped := true;
        continue;
      }
      if character == '(' {
        parenDepth := parenDepth + 1;
        current := current + [character];
        continue;
      }
      if character == ')' {
        if 0 < parenDepth {
          parenDepth := parenDepth - 1;
        }
        current := current + [character];
        continue;
      }
      if character == ',' && parenDepth == 0 {
        parts := parts + [current];
        current := [];
        continue;
      }
      current := current + [character];
    }
    assert valueString[..i] == valueString;
    parts := parts + [current];
  }

  lemma TopLevelScanOne(st: TopLevelState, c: char)
    ensures TopLevelScan(st, [c]) == TopLevelStep(st, c)
  {
    assert [c][..0] == [];
  }

  lemma {:induction false} TopLevelScanAppend(st: TopLevelState, a: string, b: string)
    ensures TopLevelScan(st, a + b) == TopLevelScan(TopLevelScan(st, a), b)
    decreases |b|
  {
    if b == [] {
      assert a + b == a;
    } else {
      assert (a + b)[..|a + b| - 1] == a + b[..|b| - 1];
      TopLevelScanAppend(st, a, b[..|b| - 1]);
    }
  }

  lemma TopLevelStepJoin(st: TopLevelState, c: char)
    ensures Join(TopLevelPieces(TopLevelStep(st, c)), ",") == Join(TopLevelPieces(st), ",") + [c]
  {
    if !st.wasEscaped && c == ',' && st.parenDepth == 0 {
      JoinSnoc(TopLevelPieces(st), [], ",");
    } else if st.parts != [] {
      JoinSnoc(st.parts, st.current, ",");
      JoinSnoc(st.parts, st.current + [c], ",");
    }
  }

  lemma {:induction false} TopLevelScanJoin(st: TopLevelState, s: string)
    ensures Join(TopLevelPieces(TopLevelScan(st, s)), ",") == Join(TopLevelPieces(st), ",") + s
    decreases |s|
  {
    if s == [] {
      assert Join(TopLevelPieces(st), ",") + s == Join(TopLevelPieces(st), ",");
    } else {
      var init := s[..|s| - 1];
      TopLevelScanJoin(st, init);
      TopLevelStepJoin(TopLevelScan(st, init), s[|s| - 1]);
      assert init + [s[|s| - 1]] == s;
    }
  }

  /** The splitter loses and adds nothing: joining the parts with commas gives the input back. */
  lemma TopLevelPartsJoin(s: string)
    ensures Join(TopLevelParts(s), ",") == s
  {
    TopLevelScanJoin(TopLevelStart, s);
  }

  /** Characters that the scanner copies without any effect at depth `parenDepth`. */
  predicate TopLevelLiteral(s: string, parenDepth: nat) {
    forall k :: 0 <= k < |s| ==> s[k] != '\\' && s[k] != '(' && s[k] != ')' && (s[k] == ',' ==> parenDepth > 0)
  }

  lemma {:induction false} TopLevelScanLiteral(st: TopLevelState, s: string)
    requires !st.wasEscaped && TopLevelLiteral(s, st.parenDepth)
    ensures TopLevelScan(st, s) == st.(current := st.current + s)
    decreases |s|
  {
    if s == [] {
      assert st.current + s == st.current;
    } else {
      var init := s[..|s| - 1];
      assert forall k :: 0 <= k < |init| ==> init[k] == s[k];
      TopLevelScanLiteral(st, init);
      assert st.current + init + [s[|s| - 1]] == st.current + s;
    }
  }

  /** At depth 0, with no backslash and no parenthesis, no part holds a comma. */
  predicate CommaFree(pieces: seq<string>) {
    forall k :: 0 <= k < |pieces| ==> ',' !in pieces[k]
  }

  lemma {:induction false} TopLevelScanPlain(st: TopLevelState, s: string)
    requires st.parenDepth == 0 && !st.wasEscaped && CommaFree(TopLevelPieces(st))
    requires '\\' !in s && '(' !in s && ')' !in s
    ensures var r := TopLevelScan(st, s);
      r.parenDepth == 0 && !r.wasEscaped && CommaFree(TopLevelPieces(r))
    decreases |s|
  {
    if s != [] {
      var init := s[..|s| - 1];
      assert forall c :: c in init ==> c in s;
      TopLevelScanPlain(st, init);
      var m := TopLevelScan(st, init);
      var c := s[|s| - 1];
      var r := TopLevelStep(m, c);
      assert TopLevelPieces(m)[|m.parts|] == m.current;
      if c == ',' {
        assert TopLevelPieces(r) == TopLevelPieces(m) + [[]];
      } else {
        assert r.parts == m.parts && r.current == m.current + [c];
        assert forall k :: 0 <= k < |r.parts| ==> TopLevelPieces(r)[k] == TopLevelPieces(m)[k];
      }
    }
  }

  /** With no backslash and no parenthesis the splitter is `strings.Split` on commas. */
  lemma TopLevelPlain(s: string)
    requires '\\' !in s && '(' !in s && ')' !in s
    ensures TopLevelParts(s) == Split(s, ',')
  {
    TopLevelScanPlain(TopLevelStart, s);
    TopLevelPartsJoin(s);
    SplitJoin(TopLevelParts(s), ',');
  }

  /** A backslash makes the next character, even a comma or a parenthesis, plain text. */
  lemma TopLevelEscape(st: TopLevelState, c: char)
    requires !st.wasEscaped
    ensures TopLevelScan(st, ['\\', c]) == st.(current := st.current + ['\\', c])
  {
    TopLevelScanAppend(st, ['\\'], [c]);
    assert ['\\'] + [c] == ['\\', c];
    TopLevelScanOne(st, '\\');
    TopLevelScanOne(TopLevelStep(st, '\\'), c);
  }

  /** A name and an opening parenthesis: the depth becomes 1. */
  lemma TopLevelOpen(st: TopLevelState, name: string)
    requires st.parenDepth == 0 && !st.wasEscaped && TopLevelLiteral(name, 0)
    ensures TopLevelScan(st, name + "(") == st.(current := st.current + (name + "("), parenDepth := 1)
  {
    TopLevelScanLiteral(st, name);
    TopLevelScanAppend(st, name, "(");
    TopLevelScanOne(st.(current := st.current + name), '(');
    assert st.current + name + "(" == st.current + (name + "(");
  }

  /** The parameters and the closing parenthesis: the depth is back to 0. */
  lemma TopLevelClose(st: TopLevelState, inner: string)
    requires st.parenDepth == 1 && !st.wasEscaped && TopLevelLiteral(inner, 1)
    ensures TopLevelScan(st, inner + ")") == st.(current := st.current + (inner + ")"), parenDepth := 0)
  {
    TopLevelScanLiteral(st, inner);
    TopLevelScanAppend(st, inner, ")");
    TopLevelScanOne(st.(current := st.current + inner), ')');
    assert st.current + inner + ")" == st.current + (inner + ")");
  }

  /** A call `name(inner)` stays within the current part, whatever commas `inner` holds. */
  lemma TopLevelGroup(st: TopLevelState, name: string, inner: string)
    requires st.parenDepth == 0 && !st.wasEscaped
    requires TopLevelLiteral(name, 0) && TopLevelLiteral(inner, 1)
    ensures TopLevelScan(st, name + "(" + inner + ")") == st.(current := st.current + (name + "(" + inner + ")"))
  {
    var a := name + "(";
    var b := inner + ")";
    var s1 := st.(current := st.current + a, parenDepth := 1);
    assert TopLevelScan(st, a) == s1 by {
      TopLevelOpen(st, name);
    }
    assert TopLevelScan(s1, b) == s1.(current := s1.current + b, parenDepth := 0) by {
      TopLevelClose(s1, inner);
    }
    assert TopLevelScan(st, a + b) == TopLevelScan(s1, b) by {
      TopLevelScanAppend(st, a, b);
    }
    assert name + "(" + inner + ")" == a + b;
    assert st.current + a + b == st.current + (a + b);
  }

  /** Only commas at depth 0 split: `name(a,b)` is a single part. */
  lemma TopLevelCallIsOnePart(name: string, inner: string)
    requires TopLevelLiteral(name, 0) && TopLevelLiteral(inner, 1)
    ensures TopLevelParts(name + "(" + inner + ")") == [name + "(" + inner + ")"]
  {
    TopLevelGroup(TopLevelStart, name, inner);
    assert [] + (name + "(" + inner + ")") == name + "(" + inner + ")";
  }

  // ---------------------------------------------------------------------------
  // Splitting a parameter list on the commas outside regular-expression meta

  /** The state of `splitByCommaOutsideRegexMeta`. */
  datatype MetaState = MetaState(
    parts: seq<string>, current: string,
    squareDepth: nat, curlyDepth: nat,
    isInSingleQuote: bool, isInDoubleQuote: bool, wasEscaped: bool)

  const MetaStart := MetaState([], [], 0, 0, false, false, false)

  function MetaPieces(st: MetaState): seq<string> {
    st.parts + [st.current]
  }

  /** Inside quotes, brackets, braces and commas are copied as they are. */
  predicate Quoted(st: MetaState) {
    st.isInSingleQuote || st.isInDoubleQuote
  }

  /** One character of `splitByCommaOutsideRegexMeta`: a quote toggles its
      flag unless the other quote is open; outside quotes `[` `]` `{` `}`
      track the depths, and a comma at depth 0 ends the part. */
  function MetaStep(st: MetaState, c: char): MetaState {
    if st.wasEscaped then st.(current := st.current + [c], wasEscaped := false)
    else if c == '\\' then st.(current := st.current + [c], wasEscaped := true)
    else if c == '"' then
      st.(current := st.current + [c], isInDoubleQuote := if !st.isInSingleQuote then !st.isInDoubleQuote else st.isInDoubleQuote)
    else if c == '\'' then
      st.(current := st.current + [c], isInSingleQuote := if !st.isInDoubleQuote then !st.isInSingleQuote else st.isInSingleQuote)
    else if !Quoted(st) && c == '[' then st.(current := st.current + [c], squareDepth := st.squareDepth + 1)
    else if !Quoted(st) && c == ']' then
      st.(current := st.current + [c], squareDepth := if 0 < st.squareDepth then st.squareDepth - 1 else 0)
    else if !Quoted(st) && c == '{' then st.(current := st.current + [c], curlyDepth := st.curlyDepth + 1)
    else if !Quoted(st) && c == '}' then
      st.(current := st.current + [c], curlyDepth := if 0 < st.curlyDepth then st.curlyDepth - 1 else 0)
    else if !Quoted(st) && c == ',' && st.squareDepth == 0 && st.curlyDepth == 0 then
      st.(parts := st.parts + [st.current], current := [])
    else st.(current := st.current + [c])
  }

  function MetaScan(st: MetaState, s: string): MetaState
    decreases |s|
  {
    if s == [] then st else MetaStep(MetaScan(st, s[..|s| - 1]), s[|s| - 1])
  }

  /** `splitByCommaOutsideRegexMeta` as a function. */
  function MetaParts(s: string): seq<string> {
    MetaPieces(MetaScan(MetaStart, s))
  }

  /** `splitByCommaOutsideRegexMeta`. */
  method SplitByCommaOutsideRegexMeta(valueString: string) returns (parts: seq<string>)
    ensures parts == MetaParts(valueString)
  {
    parts := [];
    var current := [];
    var squareDepth := 0;
    var curlyDepth := 0;
    var isInSingleQuote := false;
    var isInDoubleQuote := false;
    var wasEscaped := false;
    var i := 0;
    while i < |valueString|
      invariant 0 <= i <= |valueString|
      invariant MetaState(parts, current, squareDepth, curlyDepth, isInSingleQuote, isInDoubleQuote, wasEscaped)
        == MetaScan(MetaStart, valueString[..i])
    {
      var character := valueString[i];
      assert valueString[..i + 1][..i] == valueString[..i];
      i := i + 1;
      if wasEscaped {
        current := current + [character];
        wasEscaped := false;
        continue;
      }
      if character == '\\' {
        current := current + [character];
        wasEscaped := true;
        continue;
      }
      if character == '"' {
        if !isInSingleQuote {
          isInDoubleQuote := !isInDoubleQuote;
        }
        current := current + [character];
        continue;
      }
      if character == '\'' {
        if !isInDoubleQuote {
          isInSingleQuote := !isInSingleQuote;
        }
        current := current + [character];
        continue;
      }
      if !isInSingleQuote && !isInDoubleQuote {
        if character == '[' {
          squareDepth := squareDepth + 1;
          current := current + [character];
          continue;
        }
        if character == ']' {
          if 0 < squareDepth {
            squareDepth := squareDepth - 1;
          }
          current := current + [character];
          continue;
        }
        if character == '{' {
          curlyDepth := curlyDepth + 1;
          current := current + [character];
          continue;
        }
        if character == '}' {
          if 0 < curlyDepth {
            curlyDepth := curlyDepth - 1;
          }
          current := current + [character];
          continue;
        }
        if character == ',' && squareDepth == 0 && curlyDepth == 0 {
          parts := parts + [current];
          current := [];
          continue;
        }
      }
      current := current + [character];
    }
    assert valueString[..i] == valueString;
    parts := parts + [current];
  }

  lemma MetaScanOne(st: MetaState, c: char)
    ensures MetaScan(st, [c]) == MetaStep(st, c)
  {
    assert [c][..0] == [];
  }

  lemma {:induction false} MetaScanAppend(st: MetaState, a: string, b: string)
    ensures MetaScan(st, a + b) == MetaScan(MetaScan(st, a), b)
    decreases |b|
  {
    if b == [] {
      assert a + b == a;
    } else {
      assert (a + b)[..|a + b| - 1] == a + b[..|b| - 1];
      MetaScanAppend(st, a, b[..|b| - 1]);
    }
  }

  /** The comma that ends a part is the only character that is not copied. */
  predicate MetaSplits(st: MetaState, c: char) {
    !st.wasEscaped && !Quoted(st) && c == ',' && st.squareDepth == 0 && st.curlyDepth == 0
  }

  lemma MetaStepShape(st: MetaState, c: char)
    ensures MetaSplits(st, c) ==> MetaPieces(MetaStep(st, c)) == MetaPieces(st) + [[]]
    ensures !MetaSplits(st, c) ==> MetaStep(st, c).parts == st.parts && MetaStep(st, c).current == st.current + [c]
  {
  }

  lemma MetaStepJoin(st: MetaState, c: char)
    ensures Join(MetaPieces(MetaStep(st, c)), ",") == Join(MetaPieces(st), ",") + [c]
  {
    MetaStepShape(st, c);
    if MetaSplits(st, c) {
      JoinSnoc(MetaPieces(st), [], ",");
    } else if st.parts != [] {
      JoinSnoc(st.parts, st.current, ",");
      JoinSnoc(st.parts, st.current + [c], ",");
    }
  }

  lemma {:induction false} MetaScanJoin(st: MetaState, s: string)
    ensures Join(MetaPieces(MetaScan(st, s)), ",") == Join(MetaPieces(st), ",") + s
    decreases |s|
  {
    if s == [] {
      assert Join(MetaPieces(st), ",") + s == Join(MetaPieces(st), ",");
    } else {
      var init := s[..|s| - 1];
      MetaScanJoin(st, init);
      MetaStepJoin(MetaScan(st, init), s[|s| - 1]);
      assert init + [s[|s| - 1]] == s;
    }
  }

  /** The splitter loses and adds nothing: joining the parts with commas gives the input back. */
  lemma MetaPartsJoin(s: string)
    ensures Join(MetaParts(s), ",") == s
  {
    MetaScanJoin(MetaStart, s);
  }

  /** The characters with a meaning to the scanner, apart from the comma. */
  predicate MetaChar(c: char) {
    c == '\\' || c == '"' || c == '\'' || c == '[' || c == ']' || c == '{' || c == '}'
  }

  /** A scanner state in which a comma ends the part. */
  predicate MetaOpen(st: MetaState) {
    !st.wasEscaped && !Quoted(st) && st.squareDepth == 0 && st.curlyDepth == 0
  }

  /** Characters copied without effect; commas only where `sheltered`. */
  predicate MetaLiteral(s: string, sheltered: bool) {
    forall k :: 0 <= k < |s| ==> !MetaChar(s[k]) && (s[k] == ',' ==> sheltered)
  }

  lemma {:induction false} MetaScanLiteral(st: MetaState, s: string)
    requires !st.wasEscaped && MetaLiteral(s, !MetaOpen(st))
    ensures MetaScan(st, s) == st.(current := st.current + s)
    decreases |s|
  {
    if s == [] {
      assert st.current + s == st.current;
    } else {
      var init := s[..|s| - 1];
      assert forall k :: 0 <= k < |init| ==> init[k] == s[k];
      MetaScanLiteral(st, init);
      assert st.current + init + [s[|s| - 1]] == st.current + s;
    }
  }

  lemma {:induction false} MetaScanPlain(st: MetaState, s: string)
    requires MetaOpen(st) && CommaFree(MetaPieces(st))
    requires forall k :: 0 <= k < |s| ==> !MetaChar(s[k])
    ensures var r := MetaScan(st, s); MetaOpen(r) && CommaFree(MetaPieces(r))
    decreases |s|
  {
    if s != [] {
      var init := s[..|s| - 1];
      assert forall k :: 0 <= k < |init| ==> init[k] == s[k];
      MetaScanPlain(st, init);
      var m := MetaScan(st, init);
      var c := s[|s| - 1];
      var r := MetaStep(m, c);
      MetaStepShape(m, c);
      assert MetaPieces(m)[|m.parts|] == m.current;
      if c != ',' {
        assert forall k :: 0 <= k < |r.parts| ==> MetaPieces(r)[k] == MetaPieces(m)[k];
      }
    }
  }

  /** With no backslash, quote, bracket or brace the splitter is `strings.Split` on commas. */
  lemma MetaPlain(s: string)
    requires forall k :: 0 <= k < |s| ==> !MetaChar(s[k])
    ensures MetaParts(s) == Split(s, ',')
  {
    MetaScanPlain(MetaStart, s);
    MetaPartsJoin(s);
    SplitJoin(MetaParts(s), ',');
  }

  /** The pairs of characters that shelter commas. */
  predicate Shelter(open: char, close: char) {
    (open == '[' && close == ']') || (open == '{' && close == '}')
    || (open == '\'' && close == '\'') || (open == '"' && close == '"')
  }

  /** Opening a shelter leaves the open state; closing it after any text returns to it. */
  lemma MetaShelterSteps(st: MetaState, open: char, x: string, close: char)
    requires MetaOpen(st) && Shelter(open, close)
    ensures var s1 := MetaStep(st, open);
      s1.current == st.current + [open] && !MetaOpen(s1) && !s1.wasEscaped
      && MetaStep(s1.(current := s1.current + x), close) == st.(current := st.current + [open] + x + [close])
  {
  }

  /** A character class, a repetition count or a quoted string keeps its commas in the current part. */
  lemma MetaGroup(st: MetaState, open: char, inner: string, close: char)
    requires MetaOpen(st) && Shelter(open, close) && MetaLiteral(inner, true)
    ensures MetaScan(st, [open] + inner + [close]) == st.(current := st.current + ([open] + inner + [close]))
  {
    var s1 := MetaStep(st, open);
    calc {
      MetaScan(st, [open] + inner + [close]);
    == { MetaScanSnoc(st, [open] + inner, close); }
      MetaStep(MetaScan(st, [open] + inner), close);
    == { MetaOpenThenLiteral(st, open, inner, close); }
      MetaStep(s1.(current := s1.current + inner), close);
    == { MetaShelterSteps(st, open, inner, close); }
      st.(current := st.current + [open] + inner + [close]);
    == { assert st.current + [open] + inner + [close] == st.current + ([open] + inner + [close]); }
      st.(current := st.current + ([open] + inner + [close]));
    }
  }

  /** The opening character of a shelter, then text copied as it is. */
  lemma MetaOpenThenLiteral(st: MetaState, open: char, inner: string, close: char)
    requires MetaOpen(st) && Shelter(open, close) && MetaLiteral(inner, true)
    ensures MetaScan(st, [open] + inner) == MetaStep(st, open).(current := MetaStep(st, open).current + inner)
  {
    MetaScanAppend(st, [open], inner);
    MetaScanOne(st, open);
    MetaShelterSteps(st, open, inner, close);
    MetaScanLiteral(MetaStep(st, open), inner);
  }

  lemma MetaScanSnoc(st: MetaState, s: string, c: char)
    ensures MetaScan(st, s + [c]) == MetaStep(MetaScan(st, s), c)
  {
    assert (s + [c])[..|s + [c]| - 1] == s;
  }

  /** `p[inner]q`, `p{inner}q` and quoted forms are a single parameter. */
  lemma MetaGroupIsOnePart(p: string, open: char, inner: string, close: char, q: string)
    requires Shelter(open, close) && MetaLiteral(p, false) && MetaLiteral(inner, true) && MetaLiteral(q, false)
    ensures MetaParts(p + [open] + inner + [close] + q) == [p + [open] + inner + [close] + q]
  {
    var g := [open] + inner + [close];
    var s1 := MetaStart.(current := p);
    var s2 := s1.(current := p + g);
    calc {
      MetaScan(MetaStart, p + [open] + inner + [close] + q);
    == { assert p + [open] + inner + [close] + q == p + g + q; }
      MetaScan(MetaStart, p + g + q);
    == { MetaScanAppend(MetaStart, p + g, q); }
      MetaScan(MetaScan(MetaStart, p + g), q);
    == { MetaScanAppend(MetaStart, p, g); }
      MetaScan(MetaScan(MetaScan(MetaStart, p), g), q);
    == { MetaScanLiteral(MetaStart, p); assert MetaStart.current + p == p; }
      MetaScan(MetaScan(s1, g), q);
    == { MetaGroup(s1, open, inner, close); }
      MetaScan(s2, q);
    == { MetaScanLiteral(s2, q); }
      MetaStart.(current := p + g + q);
    }
    assert p + g + q == p + [open] + inner + [close] + q;
    assert MetaPieces(MetaStart.(current := p + g + q)) == [p + g + q];
  }

  /** The test patterns `^[a,b]$` and `^a{1,2}$`: the comma stays in the pattern. */
  lemma RegexMetaKeepsCommas()
    ensures MetaParts("pattern=^[a,b]$") == ["pattern=^[a,b]$"]
    ensures MetaParts("pattern=^a{1,2}$") == ["pattern=^a{1,2}$"]
  {
    MetaGroupIsOnePart("pattern=^", '[', "a,b", ']', "$");
    assert "pattern=^" + ['['] + "a,b" + [']'] + "$" == "pattern=^[a,b]$";
    MetaGroupIsOnePart("pattern=^a", '{', "1,2", '}', "$");
    assert "pattern=^a" + ['{'] + "1,2" + ['}'] + "$" == "pattern=^a{1,2}$";
  }

  // ---------------------------------------------------------------------------
  // Parsing the parts of a tag

  /** A parsed validation rule. */
  datatype Rule = Rule(name: string, params: map<string, string>)

  /** "invalid validation tag syntax", with the offending trimmed part. */
  datatype TagError = InvalidSyntax(part: string)

  /** One parameter of a call: blank, malformed, or a key and a value. */
  datatype Param = Blank | Malformed | KeyValue(key: string, value: string)

  /** One `key=value` pair of a parameter list: trimmed, split at the first
      `=`, key and value trimmed; no `=` or an empty key is malformed. */
  function ParamOf(rawPair: string): (r: Param)
    ensures r.Blank? <==> TrimSpace(rawPair) == []
    ensures r.KeyValue? ==> r.key != [] && Trimmed(r.key) && Trimmed(r.value)
    ensures TrimSpace(rawPair) != [] && '=' !in TrimSpace(rawPair) ==> r.Malformed?
  {
    var pair := TrimSpace(rawPair);
    if pair == [] then Blank
    else
      var equalsIndex := IndexOf(pair, '=');
      if equalsIndex < 0 then Malformed
      else
        var key := TrimSpace(pair[..equalsIndex]);
        if key == [] then Malformed else KeyValue(key, TrimSpace(pair[equalsIndex + 1..]))
  }

  /** The pairs of a parameter list, each read on its own. */
  function Params(pairs: seq<string>): (r: seq<Param>)
    ensures |r| == |pairs|
    ensures forall j :: 0 <= j < |pairs| ==> r[j] == ParamOf(pairs[j])
    decreases |pairs|
  {
    if pairs == [] then [] else Params(pairs[..|pairs| - 1]) + [ParamOf(pairs[|pairs| - 1])]
  }

  /** The parameter loop over the pairs read: a malformed pair fails the part,
      a blank one is skipped, a key-value pair sets its key. */
  function Assemble(params: seq<Param>): Option<map<string, string>>
    decreases |params|
  {
    if params == [] then Some(map[])
    else
      match Assemble(params[..|params| - 1])
      case None => None
      case Some(found) => Apply(found, params[|params| - 1])
  }

  /** An assignment fails with the part itself, or yields a rule with a
      trimmed, non-blank name. */
  lemma AssignmentOutcome(part: string)
    requires '=' in part
    ensures ParseAssignment(part).Err? ==> ParseAssignment(part).error == InvalidSyntax(part)
    ensures ParseAssignment(part).Ok? ==>
      ParseAssignment(part).value.Some? && ParseAssignment(part).value.value.name != []
      && Trimmed(ParseAssignment(part).value.value.name)
  {
  }

  /** What one pair does to the parameters found so far. */
  function Apply(found: map<string, string>, param: Param): Option<map<string, string>> {
    match param
    case Blank => Some(found)
    case Malformed => None
    case KeyValue(key, value) => Some(found[key := value])
  }

  function ParseParams(pairs: seq<string>): Option<map<string, string>> {
    Assemble(Params(pairs))
  }

  /** The parameters between the parentheses of a call; none when blank. */
  function CallParams(inside: string): Option<map<string, string>> {
    var paramsString := TrimSpace(inside);
    if paramsString == [] then Some(map[]) else ParseParams(MetaParts(paramsString))
  }

  /** One part of a tag, as the body of the loop in `parseValidationTagInternal`
      treats it: `Ok(None)` when it is skipped. A part with a parenthesis is a
      call, one with `=` an assignment, any other a bare name. */
  function ParsePart(rawPart: string): (r: Result<Option<Rule>, TagError>)
    ensures r == Ok(None) <==> TrimSpace(rawPart) == []
    ensures r.Err? ==> r.error == InvalidSyntax(TrimSpace(rawPart))
    ensures r.Ok? && r.value.Some? ==> r.value.value.name != [] && Trimmed(r.value.value.name)
  {
    var part := TrimSpace(rawPart);
    if part == [] then Ok(None)
    else if 0 < CountChar(part, '(') || 0 < CountChar(part, ')') then
      CallOutcome(part);
      ParseCall(part)
    else if '=' in part then
      AssignmentOutcome(part);
      ParseAssignment(part)
    else
      var name := TrimSpace(part);
      if name == [] then Ok(None) else Ok(Some(Rule(name, map[])))
  }

  /** `name(key=value,...)`: exactly one parenthesis of each kind, the closing
      one last, a non-blank name and parameters that parse. */
  function ParseCall(part: string): Result<Option<Rule>, TagError> {
    var openCount := CountChar(part, '(');
    var closeCount := CountChar(part, ')');
    if openCount != 1 || closeCount != 1 then Err(InvalidSyntax(part))
    else CallBetween(part, IndexOf(part, '('), IndexOf(part, ')'))
  }

  /** The rest of `ParseCall`, once the parentheses are found at `openIndex`
      and `closeIndex` (-1 when missing). */
  function CallBetween(part: string, openIndex: int, closeIndex: int): Result<Option<Rule>, TagError>
    requires -1 <= openIndex < |part| && -1 <= closeIndex < |part|
  {
    if openIndex < 0 || closeIndex < 0 || closeIndex <= openIndex then Err(InvalidSyntax(part))
    else if closeIndex != |part| - 1 then Err(InvalidSyntax(part))
    else
      var name := TrimSpace(part[..openIndex]);
      if name == [] then Err(InvalidSyntax(part))
      else
        match CallParams(part[openIndex + 1..closeIndex])
        case None => Err(InvalidSyntax(part))
        case Some(params) => Ok(Some(Rule(name, params)))
  }

  /** A call fails with the part itself, or yields a rule with a trimmed,
      non-blank name. */
  lemma CallOutcome(part: string)
    ensures ParseCall(part).Err? ==> ParseCall(part).error == InvalidSyntax(part)
    ensures ParseCall(part).Ok? ==>
      ParseCall(part).value.Some? && ParseCall(part).value.value.name != [] && Trimmed(ParseCall(part).value.value.name)
  {
  }

  /** `name=value` split at the first `=`: the trimmed name must not be blank. */
  function ParseAssignment(part: string): Result<Option<Rule>, TagError>
    requires '=' in part
  {
    var equalsIndex := IndexOf(part, '=');
    var name := TrimSpace(part[..equalsIndex]);
    if name == [] then Err(InvalidSyntax(part))
    else Ok(Some(Rule(name, map["value" := TrimSpace(part[equalsIndex + 1..])])))
  }

  /** What the loop body does with one part. */
  type PartOutcome = Result<Option<Rule>, TagError>

  /** The parts of a tag, each read on its own. */
  function Outcomes(parts: seq<string>): (r: seq<PartOutcome>)
    ensures |r| == |parts|
    ensures forall j :: 0 <= j < |parts| ==> r[j] == ParsePart(parts[j])
    decreases |parts|
  {
    if parts == [] then [] else Outcomes(parts[..|parts| - 1]) + [ParsePart(parts[|parts| - 1])]
  }

  /** The loop of `parseValidationTagInternal` over the parts read: the first
      error stops it, skipped parts add nothing. */
  function Collect(outcomes: seq<PartOutcome>): Result<seq<Rule>, TagError>
    decreases |outcomes|
  {
    if outcomes == [] then Ok([])
    else
      match Collect(outcomes[..|outcomes| - 1])
      case Err(e) => Err(e)
      case Ok(rules) =>
        match outcomes[|outcomes| - 1]
        case Err(e) => Err(e)
        case Ok(None) => Ok(rules)
        case Ok(Some(rule)) => Ok(rules + [rule])
  }

  function ParseRules(parts: seq<string>): Result<seq<Rule>, TagError> {
    Collect(Outcomes(parts))
  }

  /** `parseValidationTag` as a function. */
  function ParseTag(tag: string): Result<seq<Rule>, TagError> {
    ParseRules(TopLevelParts(tag))
  }

  // ---------------------------------------------------------------------------
  // The parser's loops

  /** The parameter loop of `parseValidationTagInternal`. */
  method ParseParamPairs(paramPairs: seq<string>) returns (params: Option<map<string, string>>)
    ensures params == ParseParams(paramPairs)
  {
    ghost var ps := Params(paramPairs);
    params := Some(map[]);
    assert ps[..0] == [];
    var i := 0;
    while i < |paramPairs| && params.Some?
      invariant 0 <= i <= |paramPairs| == |ps|
      invariant params == Assemble(ps[..i])
    {
      AssembleSnoc(ps, i, params.value);
      assert ps[i] == ParamOf(paramPairs[i]);
      params := ReadPair(paramPairs[i], params.value);
      i := i + 1;
    }
    if params.None? {
      AssembleStaysNone(ps, i);
    } else {
      assert ps[..i] == ps;
    }
  }

  /** One pass of the parameter loop: a blank pair is skipped, a malformed one
      fails the part, a key-value pair sets its key. */
  method ReadPair(rawPair: string, found: map<string, string>) returns (next: Option<map<string, string>>)
    ensures next == Apply(found, ParamOf(rawPair))
  {
    var pair := TrimSpace(rawPair);
    next := Some(found);
    if pair != [] {
      var equalsIndex := IndexOf(pair, '=');
      if equalsIndex < 0 {
        next := None;
      } else {
        var key := TrimSpace(pair[..equalsIndex]);
        var value := TrimSpace(pair[equalsIndex + 1..]);
        next := if key == [] then None else Some(found[key := value]);
      }
    }
  }

  lemma AssembleSnoc(params: seq<Param>, i: int, found: map<string, string>)
    requires 0 <= i < |params| && Assemble(params[..i]) == Some(found)
    ensures Assemble(params[..i + 1]) == Apply(found, params[i])
  {
    assert params[..i + 1][..i] == params[..i];
  }

  /** Once the loop has failed, the whole list fails. */
  lemma {:induction false} AssembleStaysNone(params: seq<Param>, i: int)
    requires 0 <= i <= |params| && Assemble(params[..i]).None?
    ensures Assemble(params).None?
    decreases |params|
  {
    if i < |params| {
      var init := params[..|params| - 1];
      assert init[..i] == params[..i];
      AssembleStaysNone(init, i);
    } else {
      assert params[..i] == params;
    }
  }

  /** The body of `parseValidationTagInternal`'s loop for one part. */
  method ParseRulePart(rawPart: string) returns (r: Result<Option<Rule>, TagError>)
    ensures r == ParsePart(rawPart)
  {
    var part := TrimSpace(rawPart);
    if part == [] {
      return Ok(None);
    }
    var openCount := CountChar(part, '(');
    var closeCount := CountChar(part, ')');
    if 0 < openCount || 0 < closeCount {
      r := ParseCallPart(part);
      return;
    }
    if '=' in part {
      r := ParseAssignmentPart(part);
      return;
    }
    var name := TrimSpace(part);
    if name == [] {
      return Ok(None);
    }
    return Ok(Some(Rule(name, map[])));
  }

  /** The branch of the loop body for a part with `=` and no parenthesis. */
  method ParseAssignmentPart(part: string) returns (r: Result<Option<Rule>, TagError>)
    requires '=' in part
    ensures r == ParseAssignment(part)
  {
    var equalsIndex := IndexOf(part, '=');
    var name := TrimSpace(part[..equalsIndex]);
    var value := TrimSpace(part[equalsIndex + 1..]);
    r := if name == [] then Err(InvalidSyntax(part)) else Ok(Some(Rule(name, map["value" := value])));
  }

  /** The branch of the loop body for a part with a parenthesis. */
  method ParseCallPart(part: string) returns (r: Result<Option<Rule>, TagError>)
    ensures r == ParseCall(part)
  {
    var openCount := CountChar(part, '(');
    var closeCount := CountChar(part, ')');
    if openCount != 1 || closeCount != 1 {
      r := Err(InvalidSyntax(part));
    } else {
      var openIndex := IndexOf(part, '(');
      var closeIndex := IndexOf(part, ')');
      r := CallBetweenPart(part, openIndex, closeIndex);
    }
  }

  /** The checks on where the parentheses are, then the name and the parameters. */
  method CallBetweenPart(part: string, openIndex: int, closeIndex: int) returns (r: Result<Option<Rule>, TagError>)
    requires -1 <= openIndex < |part| && -1 <= closeIndex < |part|
    ensures r == CallBetween(part, openIndex, closeIndex)
  {
    if openIndex < 0 || closeIndex < 0 || closeIndex <= openIndex || closeIndex != |part| - 1 {
      r := Err(InvalidSyntax(part));
    } else {
      var name := TrimSpace(part[..openIndex]);
      if name == [] {
        r := Err(InvalidSyntax(part));
      } else {
        var params := CallPartParams(part[openIndex + 1..closeIndex]);
        r := if params.None? then Err(InvalidSyntax(part)) else Ok(Some(Rule(name, params.value)));
      }
    }
  }

  /** The parameters between the parentheses, as the loop over the pairs reads them. */
  method CallPartParams(inside: string) returns (params: Option<map<string, string>>)
    ensures params == CallParams(inside)
  {
    var paramsString := TrimSpace(inside);
    params := Some(map[]);
    if paramsString != [] {
      var paramPairs := SplitByCommaOutsideRegexMeta(paramsString);
      params := ParseParamPairs(paramPairs);
    }
  }

  /** `parseValidationTag`. */
  method ParseValidationTag(tag: string) returns (r: Result<seq<Rule>, TagError>)
    ensures r == ParseTag(tag)
  {
    var parts := SplitByTopLevelComma(tag);
    var rules: seq<Rule> := [];
    var i := 0;
    while i < |parts|
      invariant 0 <= i <= |parts|
      invariant Collect(Outcomes(parts)[..i]) == Ok(rules)
    {
      assert Outcomes(parts)[..i + 1][..i] == Outcomes(parts)[..i];
      var rule := ParseRulePart(parts[i]);
      i := i + 1;
      if rule.Err? {
        CollectStopsAtError(Outcomes(parts), i);
        return Err(rule.error);
      }
      if rule.value.Some? {
        rules := rules + [rule.value.value];
      }
    }
    assert Outcomes(parts)[..i] == Outcomes(parts);
    return Ok(rules);
  }

  lemma {:induction false} CollectStopsAtError(outcomes: seq<PartOutcome>, i: nat)
    requires 0 < i <= |outcomes| && Collect(outcomes[..i]).Err?
    ensures Collect(outcomes) == Collect(outcomes[..i])
    decreases |outcomes|
  {
    if i < |outcomes| {
      var init := outcomes[..|outcomes| - 1];
      assert init[..i] == outcomes[..i];
      CollectStopsAtError(init, i);
    } else {
      assert outcomes[..i] == outcomes;
    }
  }

  // ---------------------------------------------------------------------------
  // What the parameter loop computes

  /** Pair `j` is well formed and sets `key`. */
  predicate Defines(params: seq<Param>, j: int, key: string) {
    0 <= j < |params| && params[j].KeyValue? && params[j].key == key
  }

  /** Pair `j` is the last one that sets `key`. */
  predicate LastDefinition(params: seq<Param>, j: int, key: string) {
    Defines(params, j, key) && forall j2 :: j < j2 < |params| ==> !Defines(params, j2, key)
  }

  /** The parameter list fails exactly when one of its pairs is malformed. */
  lemma {:induction false} AssembleFails(params: seq<Param>)
    ensures Assemble(params).None? <==> exists j :: 0 <= j < |params| && params[j].Malformed?
    decreases |params|
  {
    if params != [] {
      var n := |params| - 1;
      var init := params[..n];
      AssembleFails(init);
      assert forall j :: 0 <= j < n ==> init[j] == params[j];
      if exists j :: 0 <= j < |params| && params[j].Malformed? {
        var j :| 0 <= j < |params| && params[j].Malformed?;
        if j < n {
          assert init[j].Malformed?;
        }
      }
    }
  }

  /** The keys of a parsed list are those that some pair sets. */
  lemma {:induction false} AssembleKeys(params: seq<Param>)
    requires Assemble(params).Some?
    ensures forall key :: key in Assemble(params).value <==> exists j :: Defines(params, j, key)
    decreases |params|
  {
    if params != [] {
      var n := |params| - 1;
      var init := params[..n];
      AssembleKeys(init);
      assert forall j :: 0 <= j < n ==> init[j] == params[j];
      var m := Assemble(params).value;
      var m0 := Assemble(init).value;
      forall key
        ensures key in m <==> exists j :: Defines(params, j, key)
      {
        if key in m0 {
          var j :| Defines(init, j, key);
          assert Defines(params, j, key);
        }
        if exists j :: Defines(params, j, key) {
          var j :| Defines(params, j, key);
          if j < n {
            assert Defines(init, j, key);
          }
        }
        if params[n].KeyValue? && params[n].key == key {
          assert Defines(params, n, key);
        }
      }
    }
  }

  /** A key a parsed list sets has the value of the last pair that sets it. */
  lemma {:induction false} AssembleLastWins(params: seq<Param>, j: int, key: string)
    requires Assemble(params).Some? && LastDefinition(params, j, key)
    ensures key in Assemble(params).value && Assemble(params).value[key] == params[j].value
    decreases |params|
  {
    var n := |params| - 1;
    var init := params[..n];
    if j < n {
      assert forall j2 :: 0 <= j2 < n ==> init[j2] == params[j2];
      assert !Defines(params, n, key);
      forall j2 | j < j2 < n
        ensures !Defines(init, j2, key)
      {
        assert !Defines(params, j2, key);
      }
      AssembleLastWins(init, j, key);
    }
  }

  // ---------------------------------------------------------------------------
  // What the tag loop computes

  /** The tag parses exactly when every part does. */
  lemma {:induction false} CollectOk(outcomes: seq<PartOutcome>)
    ensures Collect(outcomes).Ok? <==> forall j :: 0 <= j < |outcomes| ==> outcomes[j].Ok?
    decreases |outcomes|
  {
    if outcomes != [] {
      var n := |outcomes| - 1;
      var init := outcomes[..n];
      CollectOk(init);
      assert forall j :: 0 <= j < n ==> init[j] == outcomes[j];
    }
  }

  /** A tag that does not parse reports the error of its first bad part. */
  lemma {:induction false} CollectFirstError(outcomes: seq<PartOutcome>)
    requires Collect(outcomes).Err?
    ensures exists j :: (0 <= j < |outcomes| && outcomes[j] == Err(Collect(outcomes).error)
      && forall j2 :: 0 <= j2 < j ==> outcomes[j2].Ok?)
    decreases |outcomes|
  {
    var n := |outcomes| - 1;
    var init := outcomes[..n];
    assert forall j :: 0 <= j < n ==> init[j] == outcomes[j];
    if Collect(init).Err? {
      CollectFirstError(init);
      var j :| 0 <= j < |init| && init[j] == Err(Collect(init).error) && forall j2 :: 0 <= j2 < j ==> init[j2].Ok?;
      assert outcomes[j] == Err(Collect(outcomes).error);
    } else {
      CollectOk(init);
      assert outcomes[n] == Err(Collect(outcomes).error);
    }
  }

  /** Every rule of a parsed tag is the rule of one of its parts. */
  lemma {:induction false} CollectRules(outcomes: seq<PartOutcome>)
    requires Collect(outcomes).Ok?
    ensures |Collect(outcomes).value| <= |outcomes|
    ensures forall k :: 0 <= k < |Collect(outcomes).value| ==>
      exists j :: 0 <= j < |outcomes| && outcomes[j] == Ok(Some(Collect(outcomes).value[k]))
    decreases |outcomes|
  {
    if outcomes != [] {
      var n := |outcomes| - 1;
      var init := outcomes[..n];
      CollectRules(init);
      assert forall j :: 0 <= j < n ==> init[j] == outcomes[j];
      var rules := Collect(outcomes).value;
      var rules0 := Collect(init).value;
      forall k | 0 <= k < |rules|
        ensures exists j :: 0 <= j < |outcomes| && outcomes[j] == Ok(Some(rules[k]))
      {
        if k < |rules0| {
          assert rules[k] == rules0[k];
          var j :| 0 <= j < |init| && init[j] == Ok(Some(rules0[k]));
          assert outcomes[j] == Ok(Some(rules[k]));
        } else {
          assert outcomes[n] == Ok(Some(rules[k]));
        }
      }
    }
  }

  /** A blank part can be dropped from a tag without changing its rules. */
  lemma {:induction false} BlankPartIgnored(outcomes: seq<PartOutcome>, k: nat)
    requires k < |outcomes| && outcomes[k] == Ok(None)
    ensures Collect(outcomes[..k] + outcomes[k + 1..]) == Collect(outcomes)
    decreases |outcomes|
  {
    var n := |outcomes| - 1;
    var init := outcomes[..n];
    if k == n {
      assert outcomes[..k] + outcomes[k + 1..] == init;
    } else {
      var dropped := outcomes[..k] + outcomes[k + 1..];
      assert dropped[..|dropped| - 1] == init[..k] + init[k + 1..];
      assert dropped[|dropped| - 1] == outcomes[n];
      BlankPartIgnored(init, k);
    }
  }

  // ---------------------------------------------------------------------------
  // The three forms of a part

  /** `part` is `name(inside)` with no other parenthesis. */
  predicate CallShape(part: string, name: string, inside: string) {
    part == name + "(" + inside + ")"
    && '(' !in name && ')' !in name && '(' !in inside && ')' !in inside
  }

  /** A call is split at its parentheses: the trimmed name must not be empty
      and the parameters must parse. */
  lemma CalledPart(rawPart: string, name: string, inside: string)
    requires CallShape(TrimSpace(rawPart), name, inside)
    ensures ParsePart(rawPart) ==
      if TrimSpace(name) == [] then Err(InvalidSyntax(TrimSpace(rawPart)))
      else if CallParams(inside).None? then Err(InvalidSyntax(TrimSpace(rawPart)))
      else Ok(Some(Rule(TrimSpace(name), CallParams(inside).value)))
  {
    var part := TrimSpace(rawPart);
    CallShapeCounts(part, name, inside);
    CallShapeIndices(part, name, inside);
  }

  lemma CallShapeCounts(part: string, name: string, inside: string)
    requires CallShape(part, name, inside)
    ensures CountChar(part, '(') == 1 && CountChar(part, ')') == 1
  {
    var a := name + "(";
    var b := a + inside;
    assert part == b + ")";
    CountCharAppend(name, "(", '(');
    CountCharAppend(a, inside, '(');
    CountCharAppend(b, ")", '(');
    CountCharAppend(name, "(", ')');
    CountCharAppend(a, inside, ')');
    CountCharAppend(b, ")", ')');
  }

  lemma CallShapeIndices(part: string, name: string, inside: string)
    requires CallShape(part, name, inside)
    ensures IndexOf(part, '(') == |name| && IndexOf(part, ')') == |part| - 1
    ensures part[..|name|] == name && part[|name| + 1..|part| - 1] == inside
  {
    var b := name + "(" + inside;
    assert part[..|name|] == name;
    IndexOfFirst(part, '(', |name|);
    assert part[..|part| - 1] == b;
    IndexOfFirst(part, ')', |part| - 1);
    assert part[|name| + 1..|part| - 1] == inside;
  }

  /** A part with a parenthesis that parses has one parenthesis of each kind, the closing one last. */
  lemma ParenPartFacts(part: string)
    requires ParseCall(part).Ok?
    ensures CountChar(part, '(') == 1 && CountChar(part, ')') == 1
      && 0 <= IndexOf(part, '(') < IndexOf(part, ')') == |part| - 1
      && TrimSpace(part[..IndexOf(part, '(')]) != []
      && CallParams(part[IndexOf(part, '(') + 1..IndexOf(part, ')')]).Some?
  {
    assert CountChar(part, '(') == 1 && CountChar(part, ')') == 1;
    CallBetweenOk(part, IndexOf(part, '('), IndexOf(part, ')'));
  }

  lemma CallBetweenOk(part: string, openIndex: int, closeIndex: int)
    requires -1 <= openIndex < |part| && -1 <= closeIndex < |part|
    requires CallBetween(part, openIndex, closeIndex).Ok?
    ensures 0 <= openIndex < closeIndex == |part| - 1
    ensures TrimSpace(part[..openIndex]) != [] && CallParams(part[openIndex + 1..closeIndex]).Some?
  {
  }

  lemma SliceAround(s: string, i: int, j: int)
    requires 0 <= i < j == |s| - 1
    ensures s == s[..i] + [s[i]] + s[i + 1..j] + [s[j]]
  {
    assert s[..j] == s[..i] + [s[i]] + s[i + 1..j];
  }

  /** Such a part is `name(inside)`. */
  lemma CallShapeOf(part: string)
    requires CountChar(part, '(') == 1 && CountChar(part, ')') == 1
    requires 0 <= IndexOf(part, '(') < IndexOf(part, ')') == |part| - 1
    ensures CallShape(part, part[..IndexOf(part, '(')], part[IndexOf(part, '(') + 1..|part| - 1])
  {
    var openIndex := IndexOf(part, '(');
    var closeIndex := IndexOf(part, ')');
    var name := part[..openIndex];
    var inside := part[openIndex + 1..closeIndex];
    SliceAround(part, openIndex, closeIndex);
    CountCharAppend(name, "(", '(');
    CountCharAppend(name + "(", inside, '(');
    CountCharAppend(name + "(" + inside, ")", '(');
  }

  /** A part with a parenthesis that parses is a call with a non-blank name and parameters that parse. */
  lemma CallSyntaxOk(rawPart: string)
    requires '(' in TrimSpace(rawPart) || ')' in TrimSpace(rawPart)
    requires ParsePart(rawPart).Ok?
    ensures exists name, inside :: CallShape(TrimSpace(rawPart), name, inside) && TrimSpace(name) != [] && CallParams(inside).Some?
  {
    var part := TrimSpace(rawPart);
    assert ParsePart(rawPart) == ParseCall(part);
    ParenPartFacts(part);
    CallShapeOf(part);
    var name := part[..IndexOf(part, '(')];
    var inside := part[IndexOf(part, '(') + 1..|part| - 1];
    assert CallShape(part, name, inside) && TrimSpace(name) != [] && CallParams(inside).Some?;
  }

  /** A part with a parenthesis parses exactly when it is `name(inside)` with a
      non-blank name, one parenthesis of each kind, the closing one last, and
      parameters that parse. */
  lemma CallSyntax(rawPart: string)
    requires '(' in TrimSpace(rawPart) || ')' in TrimSpace(rawPart)
    ensures ParsePart(rawPart).Ok? <==>
      exists name, inside :: CallShape(TrimSpace(rawPart), name, inside) && TrimSpace(name) != [] && CallParams(inside).Some?
  {
    var part := TrimSpace(rawPart);
    if ParsePart(rawPart).Ok? {
      CallSyntaxOk(rawPart);
    }
    if exists name, inside :: CallShape(part, name, inside) && TrimSpace(name) != [] && CallParams(inside).Some? {
      var name, inside :| CallShape(part, name, inside) && TrimSpace(name) != [] && CallParams(inside).Some?;
      CalledPart(rawPart, name, inside);
    }
  }

  /** A bare name is a rule without parameters. */
  lemma BarePart(rawPart: string)
    requires TrimSpace(rawPart) != []
    requires '(' !in TrimSpace(rawPart) && ')' !in TrimSpace(rawPart) && '=' !in TrimSpace(rawPart)
    ensures ParsePart(rawPart) == Ok(Some(Rule(TrimSpace(rawPart), map[])))
  {
    TrimSpaceOfTrimmed(TrimSpace(rawPart));
  }

  /** `name=value` without parentheses sets the parameter `value`; only the
      first `=` splits, and the trimmed name must not be empty. */
  lemma AssignedPart(rawPart: string, name: string, value: string)
    requires TrimSpace(rawPart) == name + "=" + value && '=' !in name
    requires '(' !in name && ')' !in name && '(' !in value && ')' !in value
    ensures ParsePart(rawPart) ==
      if TrimSpace(name) == [] then Err(InvalidSyntax(TrimSpace(rawPart)))
      else Ok(Some(Rule(TrimSpace(name), map["value" := TrimSpace(value)])))
  {
    var part := TrimSpace(rawPart);
    assert '(' !in part && ')' !in part && '=' in part;
    assert ParsePart(rawPart) == ParseAssignment(part);
    AssignmentAt(part, name, value);
  }

  lemma AssignmentAt(part: string, name: string, value: string)
    requires part == name + "=" + value && '=' !in name
    ensures ParseAssignment(part) ==
      if TrimSpace(name) == [] then Err(InvalidSyntax(part))
      else Ok(Some(Rule(TrimSpace(name), map["value" := TrimSpace(value)])))
  {
    assert part[..|name|] == name;
    assert part[|name| + 1..] == value;
    IndexOfFirst(part, '=', |name|);
  }


  /** A parameter is split at its first `=`; the trimmed key must not be empty. */
  lemma PairAt(rawPair: string, key: string, value: string)
    requires TrimSpace(rawPair) == key + "=" + value && '=' !in key
    ensures ParamOf(rawPair) == if TrimSpace(key) == [] then Malformed else KeyValue(TrimSpace(key), TrimSpace(value))
  {
    var pair := TrimSpace(rawPair);
    assert pair[..|key|] == key;
    assert pair[|key| + 1..] == value;
    IndexOfFirst(pair, '=', |key|);
  }

  // ---------------------------------------------------------------------------
  // Writing a tag and reading it back

  /** A rule as written in a tag: `name`, `name=value` or `name(key=value,...)`. */
  datatype Written = Bare(name: string) | Assigned(name: string, value: string) | Called(name: string, params: seq<(string, string)>)

  /** A character with no meaning to either splitter or to the parser. */
  predicate PlainChar(c: char) {
    !MetaChar(c) && c != '(' && c != ')' && c != ',' && c != '='
  }

  predicate Plain(s: string) {
    forall k :: 0 <= k < |s| ==> PlainChar(s[k])
  }

  lemma PlainHas(s: string, c: char)
    requires Plain(s) && c in s
    ensures PlainChar(c)
  {
    var k :| 0 <= k < |s| && s[k] == c;
  }

  /** A name or a key: plain, not blank and not padded. */
  predicate Word(s: string) {
    s != [] && Trimmed(s) && Plain(s)
  }

  /** A value: plain and not padded, possibly empty. */
  predicate Text(s: string) {
    Trimmed(s) && Plain(s)
  }

  predicate WellWritten(w: Written) {
    match w
    case Bare(name) => Word(name)
    case Assigned(name, value) => Word(name) && Text(value)
    case Called(name, params) => Word(name) && forall k :: 0 <= k < |params| ==> Word(params[k].0) && Text(params[k].1)
  }

  predicate WellWrittenParams(params: seq<(string, string)>) {
    forall k :: 0 <= k < |params| ==> Word(params[k].0) && Text(params[k].1)
  }

  function FormatParam(p: (string, string)): string {
    p.0 + "=" + p.1
  }

  function FormatParams(params: seq<(string, string)>): seq<string> {
    seq(|params|, k requires 0 <= k < |params| => FormatParam(params[k]))
  }

  function Format(w: Written): string {
    match w
    case Bare(name) => name
    case Assigned(name, value) => name + "=" + value
    case Called(name, params) => name + "(" + Join(FormatParams(params), ",") + ")"
  }

  function Formats(ws: seq<Written>): seq<string> {
    seq(|ws|, k requires 0 <= k < |ws| => Format(ws[k]))
  }

  /** The parameters a list of pairs sets, a later key overriding an earlier one. */
  function ParamsMap(params: seq<(string, string)>): map<string, string>
    decreases |params|
  {
    if params == [] then map[]
    else ParamsMap(params[..|params| - 1])[params[|params| - 1].0 := params[|params| - 1].1]
  }

  /** The rule a written rule stands for. */
  function Meaning(w: Written): Rule {
    match w
    case Bare(name) => Rule(name, map[])
    case Assigned(name, value) => Rule(name, map["value" := value])
    case Called(name, params) => Rule(name, ParamsMap(params))
  }

  function Meanings(ws: seq<Written>): seq<Rule> {
    seq(|ws|, k requires 0 <= k < |ws| => Meaning(ws[k]))
  }

  lemma TrimmedAssignment(a: string, b: string)
    requires a != [] && !IsSpace(a[0]) && Trimmed(b)
    ensures Trimmed(a + "=" + b)
  {
    var s := a + "=" + b;
    assert s[0] == a[0];
    if b != [] {
      assert s[|s| - 1] == b[|b| - 1];
    }
  }

  /** A formatted pair reads back as its key and value. */
  lemma ParamFormatted(p: (string, string))
    requires Word(p.0) && Text(p.1)
    ensures ParamOf(FormatParam(p)) == KeyValue(p.0, p.1)
  {
    TrimmedAssignment(p.0, p.1);
    TrimSpaceOfTrimmed(FormatParam(p));
    if '=' in p.0 {
      PlainHas(p.0, '=');
    }
    PairAt(FormatParam(p), p.0, p.1);
    TrimSpaceOfTrimmed(p.0);
    TrimSpaceOfTrimmed(p.1);
  }

  lemma {:induction false} AssembleKeyValues(read: seq<Param>, params: seq<(string, string)>)
    requires |read| == |params|
    requires forall k :: 0 <= k < |params| ==> read[k] == KeyValue(params[k].0, params[k].1)
    ensures Assemble(read) == Some(ParamsMap(params))
    decreases |params|
  {
    if params != [] {
      var n := |params| - 1;
      assert forall k :: 0 <= k < n ==> read[..n][k] == read[k];
      AssembleKeyValues(read[..n], params[..n]);
    }
  }

  /** Every character of a formatted parameter list is plain, `=` or `,`. */
  lemma InnerChars(params: seq<(string, string)>)
    requires WellWrittenParams(params)
    ensures forall c :: c in Join(FormatParams(params), ",") ==> c == ',' || c == '=' || PlainChar(c)
  {
    var pieces := FormatParams(params);
    forall c | c in Join(pieces, ",")
      ensures c == ',' || c == '=' || PlainChar(c)
    {
      JoinChars(pieces, ",", c);
      if c !in "," {
        var k :| 0 <= k < |pieces| && c in pieces[k];
        assert pieces[k] == params[k].0 + "=" + params[k].1;
        if c in params[k].0 {
          PlainHas(params[k].0, c);
        } else if c in params[k].1 {
          PlainHas(params[k].1, c);
        }
      }
    }
  }

  lemma InnerTrimmed(params: seq<(string, string)>)
    requires params != [] && WellWrittenParams(params)
    ensures Trimmed(Join(FormatParams(params), ","))
  {
    var pieces := FormatParams(params);
    var inner := Join(pieces, ",");
    JoinStarts(pieces, ",");
    assert pieces[0] == params[0].0 + "=" + params[0].1;
    assert inner[0] == pieces[0][0] == params[0].0[0];
    JoinEnds(pieces, ",");
    var n := |params| - 1;
    var last := pieces[n];
    TrimmedAssignment(params[n].0, params[n].1);
    assert inner[|inner| - 1] == last[|last| - 1];
  }

  /** The parameters of a formatted call read back as the pairs, later keys winning. */
  lemma CallParamsFormatted(params: seq<(string, string)>)
    requires WellWrittenParams(params)
    ensures CallParams(Join(FormatParams(params), ",")) == Some(ParamsMap(params))
  {
    var pieces := FormatParams(params);
    var inner := Join(pieces, ",");
    if params == [] {
      assert pieces == [];
    } else {
      InnerTrimmed(params);
      TrimSpaceOfTrimmed(inner);
      FormattedPiecesSplit(params);
      FormattedPiecesRead(params);
    }
  }

  /** The list splitter cuts a formatted parameter list back into its pairs. */
  lemma FormattedPiecesSplit(params: seq<(string, string)>)
    requires params != [] && WellWrittenParams(params)
    ensures MetaParts(Join(FormatParams(params), ",")) == FormatParams(params)
  {
    var pieces := FormatParams(params);
    var inner := Join(pieces, ",");
    InnerChars(params);
    assert forall k :: 0 <= k < |inner| ==> inner[k] in inner;
    MetaPlain(inner);
    FormattedPiecesCommaFree(params);
    SplitJoin(pieces, ',');
  }

  lemma FormattedPiecesCommaFree(params: seq<(string, string)>)
    requires WellWrittenParams(params)
    ensures forall k :: 0 <= k < |params| ==> ',' !in FormatParams(params)[k]
  {
    forall k | 0 <= k < |params|
      ensures ',' !in FormatParams(params)[k]
    {
      if ',' in params[k].0 {
        PlainHas(params[k].0, ',');
      }
      if ',' in params[k].1 {
        PlainHas(params[k].1, ',');
      }
    }
  }

  /** Each formatted pair reads back as itself, so the loop builds the map of the pairs. */
  lemma FormattedPiecesRead(params: seq<(string, string)>)
    requires WellWrittenParams(params)
    ensures Assemble(Params(FormatParams(params))) == Some(ParamsMap(params))
  {
    var pieces := FormatParams(params);
    forall k | 0 <= k < |params|
      ensures Params(pieces)[k] == KeyValue(params[k].0, params[k].1)
    {
      ParamFormatted(params[k]);
    }
    AssembleKeyValues(Params(pieces), params);
  }

  lemma {:induction false} ParenFree(s: string)
    requires Plain(s)
    ensures '(' !in s && ')' !in s && '=' !in s && ',' !in s && '\\' !in s
  {
    if '(' in s {
      PlainHas(s, '(');
    }
    if ')' in s {
      PlainHas(s, ')');
    }
    if '=' in s {
      PlainHas(s, '=');
    }
    if ',' in s {
      PlainHas(s, ',');
    }
    if '\\' in s {
      PlainHas(s, '\\');
    }
  }

  /** A well-written rule reads back as the rule it stands for. */
  lemma PartFormatted(w: Written)
    requires WellWritten(w)
    ensures ParsePart(Format(w)) == Ok(Some(Meaning(w)))
  {
    var part := Format(w);
    TrimSpaceOfTrimmed(w.name);
    ParenFree(w.name);
    match w
    case Bare(name) =>
      BarePart(part);
    case Assigned(name, value) =>
      TrimmedAssignment(name, value);
      TrimSpaceOfTrimmed(part);
      ParenFree(value);
      AssignedPart(part, name, value);
      TrimSpaceOfTrimmed(value);
    case Called(name, params) =>
      var inner := Join(FormatParams(params), ",");
      assert part[0] == name[0] && part[|part| - 1] == ')';
      TrimSpaceOfTrimmed(part);
      InnerChars(params);
      assert CallShape(part, name, inner);
      CalledPart(part, name, inner);
      CallParamsFormatted(params);
  }

  /** A piece the top-level splitter copies whole: plain text, or `head(inner)`
      whose opening parenthesis is at `cut`. */
  predicate TopLevelChunk(p: string, cut: nat) {
    if cut == |p| then TopLevelLiteral(p, 0)
    else
      (cut < |p| - 1 && p[cut] == '(' && p[|p| - 1] == ')'
       && TopLevelLiteral(p[..cut], 0) && TopLevelLiteral(p[cut + 1..|p| - 1], 1))
  }

  lemma ChunkScan(st: TopLevelState, p: string, cut: nat)
    requires st.parenDepth == 0 && !st.wasEscaped && TopLevelChunk(p, cut)
    ensures TopLevelScan(st, p) == st.(current := st.current + p)
  {
    if cut == |p| {
      TopLevelScanLiteral(st, p);
    } else {
      SliceAround(p, cut, |p| - 1);
      TopLevelGroup(st, p[..cut], p[cut + 1..|p| - 1]);
    }
  }

  /** Where the opening parenthesis of a formatted rule is. */
  function FormatCut(w: Written): nat {
    match w
    case Bare(name) => |name|
    case Assigned(name, value) => |name| + 1 + |value|
    case Called(name, _) => |name|
  }

  lemma FormatChunk(w: Written)
    requires WellWritten(w)
    ensures TopLevelChunk(Format(w), FormatCut(w))
  {
    ParenFree(w.name);
    match w
    case Bare(name) =>
    case Assigned(name, value) =>
      ParenFree(value);
      AssignedChunk(name, value);
    case Called(name, params) =>
      InnerChars(params);
      CalledChunk(name, Join(FormatParams(params), ","));
  }

  lemma AssignedChunk(name: string, value: string)
    requires '(' !in name && ')' !in name && ',' !in name && '\\' !in name
    requires '(' !in value && ')' !in value && ',' !in value && '\\' !in value
    ensures TopLevelLiteral(name + "=" + value, 0)
  {
    var text := name + "=" + value;
    forall k | 0 <= k < |text|
      ensures text[k] != '\\' && text[k] != '(' && text[k] != ')' && text[k] != ','
    {
      assert text[k] in name || text[k] == '=' || text[k] in value;
    }
  }

  lemma CalledChunk(name: string, inner: string)
    requires '(' !in name && ')' !in name && ',' !in name && '\\' !in name
    requires forall c :: c in inner ==> c == ',' || c == '=' || PlainChar(c)
    ensures TopLevelChunk(name + "(" + inner + ")", |name|)
  {
    assert forall k :: 0 <= k < |inner| ==> inner[k] in inner;
    var p := name + "(" + inner + ")";
    assert p[..|name|] == name;
    assert p[|name| + 1..|p| - 1] == inner;
  }

  /** A chunk and then a comma close one part. */
  lemma ChunkComma(st: TopLevelState, first: string, cut: nat, rest: string)
    requires st.parenDepth == 0 && !st.wasEscaped && TopLevelChunk(first, cut)
    ensures TopLevelScan(st, first + [','] + rest)
         == TopLevelScan(TopLevelState(st.parts + [st.current + first], [], 0, false), rest)
  {
    ChunkScan(st, first, cut);
    TopLevelScanAppend(st, first + [','], rest);
    TopLevelScanAppend(st, first, [',']);
    TopLevelScanOne(st.(current := st.current + first), ',');
  }

  lemma JoinFirst(pieces: seq<string>)
    requires |pieces| > 1
    ensures Join(pieces, ",") == pieces[0] + [','] + Join(pieces[1..], ",")
  {
  }

  /** Scanning chunks joined with commas gives the chunks back. */
  lemma {:induction false} JoinChunks(st: TopLevelState, pieces: seq<string>, cuts: seq<nat>)
    requires st.parenDepth == 0 && !st.wasEscaped && |pieces| >= 1 && |cuts| == |pieces|
    requires forall k :: 0 <= k < |pieces| ==> TopLevelChunk(pieces[k], cuts[k])
    ensures var r := TopLevelScan(st, Join(pieces, ","));
      r.parenDepth == 0 && !r.wasEscaped
      && TopLevelPieces(r) == st.parts + [st.current + pieces[0]] + pieces[1..]
    decreases |pieces|
  {
    if |pieces| == 1 {
      ChunkScan(st, pieces[0], cuts[0]);
    } else {
      var rest := pieces[1..];
      JoinFirst(pieces);
      ChunkComma(st, pieces[0], cuts[0], Join(rest, ","));
      var s2 := TopLevelState(st.parts + [st.current + pieces[0]], [], 0, false);
      forall k | 0 <= k < |rest|
        ensures TopLevelChunk(rest[k], cuts[1..][k])
      {
        assert rest[k] == pieces[k + 1] && cuts[1..][k] == cuts[k + 1];
      }
      JoinChunks(s2, rest, cuts[1..]);
      assert [] + rest[0] == pieces[1];
      assert [pieces[1]] + pieces[2..] == rest;
    }
  }

  /** Well-written rules joined with commas split into their formats. */
  lemma TopLevelPartsFormats(ws: seq<Written>)
    requires |ws| >= 1 && forall k :: 0 <= k < |ws| ==> WellWritten(ws[k])
    ensures TopLevelParts(Join(Formats(ws), ",")) == Formats(ws)
  {
    var formats := Formats(ws);
    var cuts := seq(|ws|, k requires 0 <= k < |ws| => FormatCut(ws[k]));
    forall k | 0 <= k < |formats|
      ensures TopLevelChunk(formats[k], cuts[k])
    {
      FormatChunk(ws[k]);
    }
    JoinChunks(TopLevelStart, formats, cuts);
    assert [] + formats[0] == formats[0];
    assert [formats[0]] + formats[1..] == formats;
  }

  lemma {:induction false} CollectAllRules(outcomes: seq<PartOutcome>, rules: seq<Rule>)
    requires |outcomes| == |rules|
    requires forall k :: 0 <= k < |rules| ==> outcomes[k] == Ok(Some(rules[k]))
    ensures Collect(outcomes) == Ok(rules)
    decreases |rules|
  {
    if rules != [] {
      var n := |rules| - 1;
      assert forall k :: 0 <= k < n ==> outcomes[..n][k] == outcomes[k];
      CollectAllRules(outcomes[..n], rules[..n]);
      assert rules[..n] + [rules[n]] == rules;
    }
  }

  /** An empty tag has no rules. */
  lemma EmptyTag()
    ensures ParseTag([]) == Ok([])
  {
    assert TopLevelParts([]) == [[]];
    assert Outcomes([[]]) == [ParsePart([])];
  }

  /** Round trip: rules written in a tag, joined with commas, parse back to the
      rules they stand for. */
  lemma ParseTagFormatted(ws: seq<Written>)
    requires forall k :: 0 <= k < |ws| ==> WellWritten(ws[k])
    ensures ParseTag(Join(Formats(ws), ",")) == Ok(Meanings(ws))
  {
    if ws == [] {
      assert Join(Formats(ws), ",") == [];
      EmptyTag();
    } else {
      var formats := Formats(ws);
      TopLevelPartsFormats(ws);
      var outcomes := Outcomes(formats);
      forall k | 0 <= k < |ws|
        ensures outcomes[k] == Ok(Some(Meanings(ws)[k]))
      {
        PartFormatted(ws[k]);
      }
      CollectAllRules(outcomes, Meanings(ws));
    }
  }

  // ---------------------------------------------------------------------------
  // The regular-expression tags of the validator's tests

  /** A tag that is a single part parses as that part. */
  lemma SinglePartTag(tag: string, rule: Rule)
    requires TopLevelParts(tag) == [tag] && ParsePart(tag) == Ok(Some(rule))
    ensures ParseTag(tag) == Ok([rule])
  {
    var outcomes := Outcomes([tag]);
    assert outcomes[0] == ParsePart([tag][0]);
    CollectAllRules(outcomes, [rule]);
  }

  /** Call parameters that the regex-aware splitter keeps as one pair. */
  lemma OnePairParams(inner: string, key: string, value: string)
    requires inner == key + "=" + value && '=' !in key
    requires key != [] && Trimmed(key) && Trimmed(value) && Trimmed(inner)
    requires MetaParts(inner) == [inner]
    ensures CallParams(inner) == Some(map[key := value])
  {
    TrimSpaceOfTrimmed(inner);
    assert CallParams(inner) == Assemble(Params([inner]));
    PairAt(inner, key, value);
    TrimSpaceOfTrimmed(key);
    TrimSpaceOfTrimmed(value);
    OneParam(inner, KeyValue(key, value));
  }

  lemma OneParam(pair: string, p: Param)
    requires ParamOf(pair) == p && p.KeyValue?
    ensures Assemble(Params([pair])) == Some(map[p.key := p.value])
  {
    var params := Params([pair]);
    assert params[0] == ParamOf([pair][0]);
    assert params == [p];
    assert params[..0] == [];
  }

  /** A tag `name(key=value)` whose value keeps its commas inside regex
      brackets is one rule with one parameter. */
  predicate OneCallTagShape(name: string, key: string, value: string) {
    TopLevelLiteral(name, 0) && name != [] && Trimmed(name)
    && TopLevelLiteral(key + "=" + value, 1) && '=' !in key
    && key != [] && Trimmed(key) && Trimmed(value) && Trimmed(key + "=" + value)
    && MetaParts(key + "=" + value) == [key + "=" + value]
  }

  lemma OneCallTag(name: string, key: string, value: string)
    requires OneCallTagShape(name, key, value)
    ensures ParseTag(name + "(" + key + "=" + value + ")") == Ok([Rule(name, map[key := value])])
  {
    var inner := key + "=" + value;
    var tag := name + "(" + inner + ")";
    assert key + "=" + value + ")" == inner + ")";
    assert name + "(" + key + "=" + value + ")" == tag;
    TopLevelCallIsOnePart(name, inner);
    assert tag[0] == name[0] && tag[|tag| - 1] == ')';
    TrimSpaceOfTrimmed(tag);
    assert forall k :: 0 <= k < |name| ==> name[k] != '(' && name[k] != ')';
    assert forall k :: 0 <= k < |inner| ==> inner[k] != '(' && inner[k] != ')';
    assert CallShape(tag, name, inner);
    CalledPart(tag, name, inner);
    TrimSpaceOfTrimmed(name);
    OnePairParams(inner, key, value);
    SinglePartTag(tag, Rule(name, map[key := value]));
  }

  lemma RegexBracketShape()
    ensures OneCallTagShape("regex", "pattern", "^[a,b]$")
  {
    RegexMetaKeepsCommas();
    assert "pattern" + "=" + "^[a,b]$" == "pattern=^[a,b]$";
  }

  lemma RegexBraceShape()
    ensures OneCallTagShape("regex", "pattern", "^a{1,2}$")
  {
    RegexMetaKeepsCommas();
    assert "pattern" + "=" + "^a{1,2}$" == "pattern=^a{1,2}$";
  }

  /** `regex(pattern=^[a,b]$)` is one rule whose pattern keeps its comma. */
  lemma RegexTagBracket()
    ensures ParseTag("regex(pattern=^[a,b]$)") == Ok([Rule("regex", map["pattern" := "^[a,b]$"])])
  {
    RegexBracketShape();
    OneCallTag("regex", "pattern", "^[a,b]$");
    assert "regex" + "(" + "pattern" + "=" + "^[a,b]$" + ")" == "regex(pattern=^[a,b]$)";
  }

  /** `regex(pattern=^a{1,2}$)` is one rule whose pattern keeps its comma. */
  lemma RegexTagBrace()
    ensures ParseTag("regex(pattern=^a{1,2}$)") == Ok([Rule("regex", map["pattern" := "^a{1,2}$"])])
  {
    RegexBraceShape();
    OneCallTag("regex", "pattern", "^a{1,2}$");
    assert "regex" + "(" + "pattern" + "=" + "^a{1,2}$" + ")" == "regex(pattern=^a{1,2}$)";
  }
}
