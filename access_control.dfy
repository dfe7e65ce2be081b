/** Access-control rules and the rule a request path selects: exact rules
    first, then the longest matching prefix, then the first matching regular
    expression, then the empty-prefix fallback. A regular expression is the
    matching function `regexMatch(pattern, path)`; whether a pattern compiles
    is the predicate `regexValid`. */
module AccessControl {
  import opened Wrappers
  import opened Strings
  import opened RouterUtility

  datatype Rule = Rule(
    pathPrefix: string,
    regexPattern: string,
    attributes: seq<string>,
    isExact: bool,
    isRegex: bool,
    isSegmentPrefix: bool)

  /** The panics of the rule constructors. */
  datatype RuleError = EmptyExactPath | EmptyRegexPattern | InvalidRegexPattern(pattern: string)

  // ---------------------------------------------------------------------------
  // Constructors

  /** `normalizePathPrefix`: trimmed, with one trailing "/" removed except for the root. */
  function NormalizePathPrefix(pathPrefix: string): (r: string)
    ensures r == [] <==> TrimSpace(pathPrefix) == []
    ensures TrimSpace(pathPrefix) == "/" ==> r == "/"
    ensures TrimSpace(pathPrefix) != "/" && HasSuffix(TrimSpace(pathPrefix), "/") ==> r + "/" == TrimSpace(pathPrefix)
    ensures !HasSuffix(TrimSpace(pathPrefix), "/") ==> r == TrimSpace(pathPrefix)
  {
    var normalizedPrefix := TrimSpace(pathPrefix);
    if normalizedPrefix == [] then []
    else if normalizedPrefix == "/" then "/"
    else TrimSuffix(normalizedPrefix, "/")
  }

  /** The attributes trimmed, the empty ones dropped, in order. */
  function NormalizeAttributes(attributes: seq<string>): (r: seq<string>)
    ensures |r| <= |attributes|
    ensures forall k :: 0 <= k < |r| ==> r[k] != [] && Trimmed(r[k])
    decreases |attributes|
  {
    if attributes == [] then []
    else
      var rest := NormalizeAttributes(attributes[1..]);
      var normalizedAttribute := TrimSpace(attributes[0]);
      if normalizedAttribute == [] then rest else [normalizedAttribute] + rest
  }

  predicate KeptAttribute(attributes: seq<string>, x: string) {
    exists k :: 0 <= k < |attributes| && TrimSpace(attributes[k]) == x
  }

  /** An attribute survives exactly when some given attribute trims to it and it is not blank. */
  lemma {:induction false} NormalizeAttributesKeeps(attributes: seq<string>, x: string)
    ensures x in NormalizeAttributes(attributes) <==> x != [] && KeptAttribute(attributes, x)
    decreases |attributes|
  {
    if attributes != [] {
      NormalizeAttributesKeeps(attributes[1..], x);
      if KeptAttribute(attributes[1..], x) {
        var k :| 0 <= k < |attributes[1..]| && TrimSpace(attributes[1..][k]) == x;
        assert TrimSpace(attributes[k + 1]) == x;
      }
      if KeptAttribute(attributes, x) {
        var k :| 0 <= k < |attributes| && TrimSpace(attributes[k]) == x;
        if k > 0 {
          assert TrimSpace(attributes[1..][k - 1]) == x;
        }
      }
    }
  }

  /** `NewAccessControlRule`: a plain prefix rule. */
  function PrefixRule(pathPrefix: string, attributes: seq<string>): (r: Rule)
    ensures !r.isExact && !r.isRegex && !r.isSegmentPrefix
    ensures r.pathPrefix == NormalizePathPrefix(pathPrefix) && r.attributes == NormalizeAttributes(attributes)
  {
    Rule(NormalizePathPrefix(pathPrefix), [], NormalizeAttributes(attributes), false, false, false)
  }

  /** The path of an exact rule: trimmed, with one trailing "/" removed except for the root. */
  function NormalizeExactPath(path: string): string {
    var normalizedPath := TrimSpace(path);
    if normalizedPath != "/" then TrimSuffix(normalizedPath, "/") else normalizedPath
  }

  /** `NewAccessControlExactRule`: a blank path panics. */
  function ExactRule(path: string, attributes: seq<string>): (r: Result<Rule, RuleError>)
    ensures r.Err? <==> TrimSpace(path) == []
    ensures r.Ok? ==> r.value.isExact && !r.value.isRegex && r.value.pathPrefix == NormalizeExactPath(path)
    ensures r.Ok? ==> r.value.attributes == NormalizeAttributes(attributes)
  {
    var normalizedPath := TrimSpace(path);
    if normalizedPath == [] then Err(EmptyExactPath)
    else
      var rule := PrefixRule([], attributes);
      Ok(rule.(pathPrefix := NormalizeExactPath(path), isExact := true))
  }

  /** `NewAccessControlRegexRule`: a blank or invalid pattern panics. */
  function RegexRule(pattern: string, attributes: seq<string>, regexValid: string -> bool): (r: Result<Rule, RuleError>)
    ensures r.Ok? <==> TrimSpace(pattern) != [] && regexValid(TrimSpace(pattern))
    ensures r.Ok? ==> r.value.isRegex && !r.value.isExact && r.value.regexPattern == TrimSpace(pattern)
    ensures r.Ok? ==> r.value.attributes == NormalizeAttributes(attributes)
    ensures TrimSpace(pattern) == [] ==> r == Err(EmptyRegexPattern)
    ensures TrimSpace(pattern) != [] && !regexValid(TrimSpace(pattern)) ==> r == Err(InvalidRegexPattern(TrimSpace(pattern)))
  {
    var normalizedPattern := TrimSpace(pattern);
    if normalizedPattern == [] then Err(EmptyRegexPattern)
    else if !regexValid(normalizedPattern) then Err(InvalidRegexPattern(normalizedPattern))
    else
      var rule := PrefixRule([], attributes);
      Ok(rule.(regexPattern := normalizedPattern, isRegex := true))
  }

  /** `NewAccessControlRuleWithSegmentPrefix`: a prefix that matches only whole segments. */
  function SegmentPrefixRule(pathPrefix: string, attributes: seq<string>): (r: Rule)
    ensures !r.isExact && !r.isRegex && r.isSegmentPrefix
    ensures r.attributes == NormalizeAttributes(attributes)
    ensures var n := NormalizePathPrefix(pathPrefix);
      if n != "/" && HasSuffix(n, "/") then r.pathPrefix + "/" == n else r.pathPrefix == n
  {
    var normalizedPrefix := NormalizePathPrefix(pathPrefix);
    var trimmedPrefix := if normalizedPrefix != "/" && HasSuffix(normalizedPrefix, "/") then TrimSuffix(normalizedPrefix, "/") else normalizedPrefix;
    Rule(trimmedPrefix, [], NormalizeAttributes(attributes), false, false, true)
  }

  /** The path a rule's constructor can produce for an exact rule. */
  predicate Constructed(rule: Rule) {
    rule.isExact ==> TrimSpace(rule.pathPrefix) != []
  }

  datatype AccessControl = AccessControl(rules: seq<Rule>)

  /** One rule rebuilt by the constructor its flags name; a regex rule is kept. */
  function Rebuilt(rule: Rule): (r: Result<Rule, RuleError>)
    ensures r.Ok? ==> r.value.isExact == rule.isExact && r.value.isRegex == rule.isRegex
    ensures Constructed(rule) ==> r.Ok?
  {
    if rule.isRegex then Ok(rule)
    else if rule.isExact then ExactRule(rule.pathPrefix, rule.attributes)
    else if rule.isSegmentPrefix then Ok(SegmentPrefixRule(rule.pathPrefix, rule.attributes))
    else Ok(PrefixRule(rule.pathPrefix, rule.attributes))
  }

  /** `NewAccessControl`: every rule is rebuilt by its own constructor. */
  function NewAccessControl(rules: seq<Rule>): (r: Result<AccessControl, RuleError>)
    ensures r.Ok? ==> |r.value.rules| == |rules|
    ensures r.Ok? ==> forall k :: 0 <= k < |rules| ==>
      r.value.rules[k].isExact == rules[k].isExact && r.value.rules[k].isRegex == rules[k].isRegex
    ensures (forall k :: 0 <= k < |rules| ==> Constructed(rules[k])) ==> r.Ok?
    ensures r.Ok? ==> forall k :: 0 <= k < |rules| ==> Rebuilt(rules[k]).Ok? && r.value.rules[k] == Rebuilt(rules[k]).value
    ensures r.Err? <==> exists k :: 0 <= k < |rules| && Rebuilt(rules[k]).Err?
    ensures r.Err? ==>
              exists k :: 0 <= k < |rules| && Rebuilt(rules[k]) == Err(r.error)
                            && forall j :: 0 <= j < k ==> Rebuilt(rules[j]).Ok?
    decreases |rules|
  {
    if rules == [] then Ok(AccessControl([]))
    else
      match Rebuilt(rules[0])
      case Err(e) => Err(e)
      case Ok(first) =>
        match NewAccessControl(rules[1..])
        case Err(e) => Err(e)
        case Ok(rest) => Ok(AccessControl([first] + rest.rules))
  }

  /** `Rules`: the rules; a value, so the caller's copy cannot change them. */
  function Rules(accessControl: AccessControl): (r: seq<Rule>)
    ensures |r| == |accessControl.rules| && forall k :: 0 <= k < |r| ==> r[k] == accessControl.rules[k]
  {
    accessControl.rules
  }

  // ---------------------------------------------------------------------------
  // Match

  /** The request path as `Match` compares it: trimmed, "/" when blank, one
      trailing "/" removed except for the root. */
  function NormalizeMatchPath(path: string): (r: string)
    ensures r != []
    ensures TrimSpace(path) == [] ==> r == "/"
  {
    var normalizedPath := if TrimSpace(path) == [] then "/" else TrimSpace(path);
    if normalizedPath != "/" then TrimSuffix(normalizedPath, "/") else normalizedPath
  }

  predicate ExactHit(rule: Rule, path: string) {
    rule.isExact && path == rule.pathPrefix
  }

  /** A non-empty prefix rule that covers the path. */
  predicate PrefixHit(rule: Rule, path: string) {
    !rule.isRegex && !rule.isExact && rule.pathPrefix != []
    && HasPrefix(path, rule.pathPrefix)
    && (!rule.isSegmentPrefix || rule.pathPrefix == "/"
        || |path| == |rule.pathPrefix|
        || (|rule.pathPrefix| < |path| && path[|rule.pathPrefix|] == '/'))
  }

  predicate RegexHit(rule: Rule, path: string, regexMatch: RegexMatcher) {
    rule.isRegex && regexMatch(rule.regexPattern, path)
  }

  predicate IsFallback(rule: Rule) {
    !rule.isRegex && !rule.isExact && rule.pathPrefix == []
  }

  /** The first index whose rule satisfies `hit`, or -1. */
  function First(rules: seq<Rule>, hit: Rule -> bool): (r: int)
    ensures -1 <= r < |rules|
    ensures r >= 0 ==> hit(rules[r]) && forall j :: 0 <= j < r ==> !hit(rules[j])
    ensures r == -1 ==> forall j :: 0 <= j < |rules| ==> !hit(rules[j])
    decreases |rules|
  {
    if rules == [] then -1
    else if hit(rules[0]) then 0
    else
      var rest := First(rules[1..], hit);
      assert forall j :: 1 <= j < |rules| ==> rules[j] == rules[1..][j - 1];
      if rest == -1 then -1 else rest + 1
  }

  /** The prefix loop over the first `k` rules: the best index and its prefix length. */
  function PrefixScan(rules: seq<Rule>, path: string, k: nat): (r: (int, int))
    requires k <= |rules|
    ensures -1 <= r.0 < k
    ensures r.0 >= 0 ==> PrefixHit(rules[r.0], path) && r.1 == |rules[r.0].pathPrefix|
    ensures r.0 == -1 <==> r.1 == -1
  {
    if k == 0 then (-1, -1)
    else
      var (bestIndex, bestPrefixLength) := PrefixScan(rules, path, k - 1);
      var rule := rules[k - 1];
      if PrefixHit(rule, path) && bestPrefixLength < |rule.pathPrefix| then (k - 1, |rule.pathPrefix|)
      else (bestIndex, bestPrefixLength)
  }

  /** `Match` as a function of the rules and the path. */
  function Decide(rules: seq<Rule>, path: string, regexMatch: RegexMatcher): (seq<string>, bool) {
    var normalizedPath := NormalizeMatchPath(path);
    var exact := First(rules, rule => ExactHit(rule, normalizedPath));
    if exact >= 0 then (rules[exact].attributes, true)
    else
      var best := PrefixScan(rules, normalizedPath, |rules|).0;
      if best >= 0 then (rules[best].attributes, true)
      else
        var regex := First(rules, rule => RegexHit(rule, normalizedPath, regexMatch));
        if regex >= 0 then (rules[regex].attributes, true)
        else
          var fallback := First(rules, IsFallback);
          if fallback >= 0 then (rules[fallback].attributes, true)
          else ([], false)
  }

  /** The prefix loop picks a covering rule of the greatest prefix length and,
      among those, the first; it picks none only when no rule covers the path. */
  lemma {:induction false} PrefixScanBest(rules: seq<Rule>, path: string, k: nat)
    requires k <= |rules|
    ensures var best := PrefixScan(rules, path, k).0;
      (best == -1 <==> forall j :: 0 <= j < k ==> !PrefixHit(rules[j], path))
      && (best >= 0 ==> forall j | 0 <= j < k && PrefixHit(rules[j], path) ::
            |rules[j].pathPrefix| < |rules[best].pathPrefix|
            || (|rules[j].pathPrefix| == |rules[best].pathPrefix| && best <= j))
  {
    if k > 0 {
      PrefixScanBest(rules, path, k - 1);
    }
  }

  /** `Match`: the exact loop, the prefix loop with the fallback, then the regex loop. */
  method Match(accessControl: AccessControl, path: string, regexMatch: RegexMatcher)
    returns (attributes: seq<string>, matched: bool)
    ensures (attributes, matched) == Decide(accessControl.rules, path, regexMatch)
  {
    var rules := accessControl.rules;
    var normalizedPath := TrimSpace(path);
    if normalizedPath == [] {
      normalizedPath := "/";
    }
    if normalizedPath != "/" {
      normalizedPath := TrimSuffix(normalizedPath, "/");
    }
    assert normalizedPath == NormalizeMatchPath(path);
    var exact := FirstExact(rules, normalizedPath);
    if exact >= 0 {
      return rules[exact].attributes, true;
    }
    var bestIndex, fallbackIndex := ScanPrefixes(rules, normalizedPath);
    if bestIndex != -1 {
      return rules[bestIndex].attributes, true;
    }
    var regex := FirstRegex(rules, normalizedPath, regexMatch);
    if regex >= 0 {
      return rules[regex].attributes, true;
    }
    if fallbackIndex != -1 {
      return rules[fallbackIndex].attributes, true;
    }
    return [], false;
  }

  method FirstExact(rules: seq<Rule>, normalizedPath: string) returns (r: int)
    ensures r == First(rules, rule => ExactHit(rule, normalizedPath))
  {
    var index := 0;
    while index < |rules|
      invariant 0 <= index <= |rules|
      invariant forall j :: 0 <= j < index ==> !ExactHit(rules[j], normalizedPath)
    {
      if rules[index].isExact && normalizedPath == rules[index].pathPrefix {
        FirstIsFirst(rules, rule => ExactHit(rule, normalizedPath), index);
        return index;
      }
      index := index + 1;
    }
    FirstIsFirst(rules, rule => ExactHit(rule, normalizedPath), -1);
    return -1;
  }

  method FirstRegex(rules: seq<Rule>, normalizedPath: string, regexMatch: RegexMatcher) returns (r: int)
    ensures r == First(rules, rule => RegexHit(rule, normalizedPath, regexMatch))
  {
    var index := 0;
    while index < |rules|
      invariant 0 <= index <= |rules|
      invariant forall j :: 0 <= j < index ==> !RegexHit(rules[j], normalizedPath, regexMatch)
    {
      if rules[index].isRegex && regexMatch(rules[index].regexPattern, normalizedPath) {
        FirstIsFirst(rules, rule => RegexHit(rule, normalizedPath, regexMatch), index);
        return index;
      }
      index := index + 1;
    }
    FirstIsFirst(rules, rule => RegexHit(rule, normalizedPath, regexMatch), -1);
    return -1;
  }

  /** `First` is the only index with its two properties. */
  lemma FirstIsFirst(rules: seq<Rule>, hit: Rule -> bool, r: int)
    requires -1 <= r < |rules|
    requires r >= 0 ==> hit(rules[r]) && forall j :: 0 <= j < r ==> !hit(rules[j])
    requires r == -1 ==> forall j :: 0 <= j < |rules| ==> !hit(rules[j])
    ensures First(rules, hit) == r
  {
    var f := First(rules, hit);
    if f >= 0 && r >= 0 {
      assert !(f < r) && !(r < f);
    }
  }

  /** The second loop: the longest covering prefix and the first fallback. */
  method ScanPrefixes(rules: seq<Rule>, normalizedPath: string) returns (bestIndex: int, fallbackIndex: int)
    ensures bestIndex == PrefixScan(rules, normalizedPath, |rules|).0
    ensures fallbackIndex == First(rules, IsFallback)
  {
    bestIndex := -1;
    var bestPrefixLength := -1;
    fallbackIndex := -1;
    var index := 0;
    while index < |rules|
      invariant 0 <= index <= |rules|
      invariant (bestIndex, bestPrefixLength) == PrefixScan(rules, normalizedPath, index)
      invariant -1 <= fallbackIndex < index
      invariant fallbackIndex >= 0 ==> IsFallback(rules[fallbackIndex]) && forall j :: 0 <= j < fallbackIndex ==> !IsFallback(rules[j])
      invariant fallbackIndex == -1 ==> forall j :: 0 <= j < index ==> !IsFallback(rules[j])
    {
      var rule := rules[index];
      if !rule.isRegex && !rule.isExact {
        if rule.pathPrefix == [] {
          if fallbackIndex == -1 {
            fallbackIndex := index;
          }
        } else {
          var isPrefixMatch := false;
          if HasPrefix(normalizedPath, rule.pathPrefix) {
            if !rule.isSegmentPrefix {
              isPrefixMatch := true;
            } else if rule.pathPrefix == "/" {
              isPrefixMatch := true;
            } else {
              var prefixLength := |rule.pathPrefix|;
              if |normalizedPath| == prefixLength {
                isPrefixMatch := true;
              } else if prefixLength < |normalizedPath| && normalizedPath[prefixLength] == '/' {
                isPrefixMatch := true;
              }
            }
          }
          if isPrefixMatch {
            var currentLength := |rule.pathPrefix|;
            if bestPrefixLength < currentLength {
              bestPrefixLength := currentLength;
              bestIndex := index;
            }
          }
        }
      }
      index := index + 1;
    }
    FirstIsFirst(rules, IsFallback, fallbackIndex);
  }

  // ---------------------------------------------------------------------------
  // Properties

  /** An exact rule for the normalized path, the first such, decides. */
  lemma ExactRuleWins(rules: seq<Rule>, path: string, regexMatch: RegexMatcher, i: nat)
    requires i < |rules| && ExactHit(rules[i], NormalizeMatchPath(path))
    requires forall j :: 0 <= j < i ==> !ExactHit(rules[j], NormalizeMatchPath(path))
    ensures Decide(rules, path, regexMatch) == (rules[i].attributes, true)
  {
    FirstIsFirst(rules, rule => ExactHit(rule, NormalizeMatchPath(path)), i);
  }

  /** Without an exact rule, the covering prefix of the greatest length decides,
      the first one on a tie. */
  lemma LongestPrefixWins(rules: seq<Rule>, path: string, regexMatch: RegexMatcher, i: nat)
    requires forall j :: 0 <= j < |rules| ==> !ExactHit(rules[j], NormalizeMatchPath(path))
    requires i < |rules| && PrefixHit(rules[i], NormalizeMatchPath(path))
    requires forall j | 0 <= j < |rules| && PrefixHit(rules[j], NormalizeMatchPath(path)) ::
      |rules[j].pathPrefix| < |rules[i].pathPrefix| || (|rules[j].pathPrefix| == |rules[i].pathPrefix| && i <= j)
    ensures Decide(rules, path, regexMatch) == (rules[i].attributes, true)
  {
    var p := NormalizeMatchPath(path);
    FirstIsFirst(rules, rule => ExactHit(rule, p), -1);
    PrefixScanBest(rules, p, |rules|);
    var best := PrefixScan(rules, p, |rules|).0;
    assert best == i by {
      assert best >= 0;
      assert !(best < i) && !(i < best);
    }
  }

  /** Without an exact or a covering prefix rule, the first matching regular
      expression decides. */
  lemma FirstRegexWins(rules: seq<Rule>, path: string, regexMatch: RegexMatcher, i: nat)
    requires forall j :: 0 <= j < |rules| ==> !ExactHit(rules[j], NormalizeMatchPath(path)) && !PrefixHit(rules[j], NormalizeMatchPath(path))
    requires i < |rules| && RegexHit(rules[i], NormalizeMatchPath(path), regexMatch)
    requires forall j :: 0 <= j < i ==> !RegexHit(rules[j], NormalizeMatchPath(path), regexMatch)
    ensures Decide(rules, path, regexMatch) == (rules[i].attributes, true)
  {
    var p := NormalizeMatchPath(path);
    FirstIsFirst(rules, rule => ExactHit(rule, p), -1);
    PrefixScanBest(rules, p, |rules|);
    FirstIsFirst(rules, rule => RegexHit(rule, p, regexMatch), i);
  }

  /** The empty-prefix fallback comes last; with no rule at all the result is ([], false). */
  lemma FallbackComesLast(rules: seq<Rule>, path: string, regexMatch: RegexMatcher)
    requires forall j :: 0 <= j < |rules| ==>
      !ExactHit(rules[j], NormalizeMatchPath(path)) && !PrefixHit(rules[j], NormalizeMatchPath(path))
      && !RegexHit(rules[j], NormalizeMatchPath(path), regexMatch)
    ensures var fallback := First(rules, IsFallback);
      Decide(rules, path, regexMatch) == if fallback >= 0 then (rules[fallback].attributes, true) else ([], false)
  {
    var p := NormalizeMatchPath(path);
    FirstIsFirst(rules, rule => ExactHit(rule, p), -1);
    PrefixScanBest(rules, p, |rules|);
    FirstIsFirst(rules, rule => RegexHit(rule, p, regexMatch), -1);
  }

  /** A segment prefix other than the root covers the path only as a whole
      path or at a "/" boundary. */
  lemma SegmentPrefixBoundary(rule: Rule, path: string)
    requires rule.isSegmentPrefix && !rule.isRegex && !rule.isExact && rule.pathPrefix != [] && rule.pathPrefix != "/"
    ensures PrefixHit(rule, path) <==> path == rule.pathPrefix || HasPrefix(path, rule.pathPrefix + "/")
  {
    if HasPrefix(path, rule.pathPrefix + "/") {
      assert path[..|rule.pathPrefix|] == (rule.pathPrefix + "/")[..|rule.pathPrefix|];
    }
    if PrefixHit(rule, path) && path != rule.pathPrefix {
      assert path[..|rule.pathPrefix| + 1] == rule.pathPrefix + "/";
    }
  }

  /** Every rule a constructor builds is accepted by `NewAccessControl`. */
  lemma ConstructorsBuildAcceptedRules(path: string, attributes: seq<string>, regexValid: string -> bool)
    ensures Constructed(PrefixRule(path, attributes)) && Constructed(SegmentPrefixRule(path, attributes))
    ensures ExactRule(path, attributes).Ok? ==> Constructed(ExactRule(path, attributes).value)
    ensures RegexRule(path, attributes, regexValid).Ok? ==> Constructed(RegexRule(path, attributes, regexValid).value)
  {
    if ExactRule(path, attributes).Ok? {
      ExactPathKeepsContent(path);
    }
  }

  /** An exact rule's path still has content after normalization. */
  lemma ExactPathKeepsContent(path: string)
    requires TrimSpace(path) != []
    ensures TrimSpace(NormalizeExactPath(path)) != []
  {
    var t := TrimSpace(path);
    var n := NormalizeExactPath(path);
    if t != "/" && HasSuffix(t, "/") {
      assert n + "/" == t;
      assert n != [] by {
        assert n == [] ==> [] + "/" == t;
      }
      assert n[0] == t[0];
    } else {
      TrimSpaceOfTrimmed(t);
    }
  }
}
