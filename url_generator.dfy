/** URL generation from a named route's pattern (`GeneratePath`) and the query
    string filter of `GenerateUrl`. Patterns are split with the version 1
    `RouterUtility.SplitPath` in place of version 2's `splitPath`; a regular expression is the matching function
    `regexMatch(requirement, value)`; `url.Values.Encode` is the function `encode`. */
module UrlGenerator {
  import opened Wrappers
  import opened Strings
  import opened RouterUtility

  /** What URL generation reads from a route definition. */
  datatype RouteDefinition = RouteDefinition(pattern: string, defaults: map<string, string>, requirements: map<string, string>)

  datatype UrlError =
    | RouteNotFound(routeName: string)
    | ParameterMissing(parameterName: string)
    | RequirementFailed(parameterName: string, value: string)
    | UnnamedWildcard(pattern: string)
    | WildcardMissing(parameterName: string)
    | WildcardHasSlash(parameterName: string, value: string)
    | WildcardRequirementFailed(parameterName: string, value: string)

  /** A parameter's value: the given one, else the route's default. */
  function ValueFor(parameters: map<string, string>, defaults: map<string, string>, name: string): (r: Option<string>)
    ensures name in parameters ==> r == Some(parameters[name])
    ensures name !in parameters && name in defaults ==> r == Some(defaults[name])
    ensures r.None? <==> name !in parameters && name !in defaults
  {
    if name in parameters then Some(parameters[name])
    else if name in defaults then Some(defaults[name])
    else None
  }

  /** The pieces of `s`, in order, without the empty ones. */
  function NonEmpty(pieces: seq<string>): (r: seq<string>)
    ensures forall k :: 0 <= k < |r| ==> r[k] != [] && r[k] in pieces
    ensures (forall k :: 0 <= k < |pieces| ==> pieces[k] != []) ==> r == pieces
    decreases |pieces|
  {
    if pieces == [] then []
    else
      var last := pieces[|pieces| - 1];
      var earlier := pieces[..|pieces| - 1];
      var r := NonEmpty(earlier) + (if last == [] then [] else [last]);
      assert forall k :: 0 <= k < |earlier| ==> earlier[k] in pieces;
      assert pieces == earlier + [last];
      r
  }

  /** The path segments a catch-all value contributes: trimmed of "/", split
      on "/", empty segments dropped. */
  function CatchAllSegments(value: string): (r: seq<string>)
    ensures forall k :: 0 <= k < |r| ==> r[k] != [] && '/' !in r[k]
  {
    var trimmed := TrimChar(value, '/');
    if trimmed == [] then [] else NonEmpty(Split(trimmed, '/'))
  }

  /** What one pattern part (after the leading one) contributes to the path. */
  function Contribution(
    part: string, isLast: bool, pattern: string, parameters: map<string, string>,
    route: RouteDefinition, regexMatch: RegexMatcher): (r: Result<seq<string>, UrlError>)
    ensures IsStaticSegment(part) ==> r == Ok([part])
    ensures IsParamSegment(part) ==>
      (match ValueFor(parameters, route.defaults, ParamName(part))
       case None => r == if IsOptionalParam(part) then Ok([]) else Err(ParameterMissing(ParamName(part)))
       case Some(v) => r == if MeetsRequirement(route.requirements, regexMatch, ParamName(part), v)
                            then Ok([v]) else Err(RequirementFailed(ParamName(part), v)))
    ensures IsWildcardSegment(part) && !IsCatchAll(part, isLast) ==>
      var name := WildcardName(part);
      var value := ValueFor(parameters, route.defaults, name);
      r == if name == [] then Err(UnnamedWildcard(pattern))
           else if value.None? then Err(WildcardMissing(name))
           else if '/' in value.value then Err(WildcardHasSlash(name, value.value))
           else if !MeetsRequirement(route.requirements, regexMatch, name, value.value) then Err(WildcardRequirementFailed(name, value.value))
           else Ok([value.value])
    ensures IsCatchAll(part, isLast) ==>
      var name := WildcardName(part);
      r == Ok(if name == [] then [] else (match ValueFor(parameters, route.defaults, name)
                                           case None => []
                                           case Some(v) => CatchAllSegments(v)))
  {
    if HasPrefix(part, ":") then ParamContribution(part, parameters, route, regexMatch)
    else if HasPrefix(part, "*") then WildcardContribution(part, isLast, pattern, parameters, route, regexMatch)
    else Ok([part])
  }

  /** A ":name" or ":name?" part: the value, none for a missing optional one, or an error. */
  function ParamContribution(part: string, parameters: map<string, string>, route: RouteDefinition, regexMatch: RegexMatcher): Result<seq<string>, UrlError> {
    var raw := TrimPrefix(part, ":");
    var isOptional := HasSuffix(raw, "?");
    var name := if isOptional then TrimSuffix(raw, "?") else raw;
    match ValueFor(parameters, route.defaults, name)
    case None => if isOptional then Ok([]) else Err(ParameterMissing(name))
    case Some(value) =>
      if name in route.requirements && !regexMatch(route.requirements[name], value) then Err(RequirementFailed(name, value))
      else Ok([value])
  }

  /** A "*name" or "*name..." part: one segment, or the segments of a catch-all value. */
  function WildcardContribution(
    part: string, isLast: bool, pattern: string, parameters: map<string, string>,
    route: RouteDefinition, regexMatch: RegexMatcher): Result<seq<string>, UrlError>
  {
    var raw := TrimPrefix(part, "*");
    var isCatchAll := HasSuffix(raw, "...") || isLast;
    var name := if HasSuffix(raw, "...") then TrimSuffix(raw, "...") else raw;
    var value := if name != [] then ValueFor(parameters, route.defaults, name) else None;
    if !isCatchAll then
      if name == [] then Err(UnnamedWildcard(pattern))
      else if value.None? then Err(WildcardMissing(name))
      else if '/' in value.value then Err(WildcardHasSlash(name, value.value))
      else if name in route.requirements && !regexMatch(route.requirements[name], value.value) then
        Err(WildcardRequirementFailed(name, value.value))
      else Ok([value.value])
    else
      var given := if name == [] && value.None? then Some([]) else value;
      Ok(if given.Some? then CatchAllSegments(given.value) else [])
  }

  /** The loop over the pattern parts from index `k` on, with `acc` already built. */
  function Finish(
    parts: seq<string>, k: nat, acc: seq<string>, pattern: string, parameters: map<string, string>,
    route: RouteDefinition, regexMatch: RegexMatcher): Result<seq<string>, UrlError>
    decreases |parts| - k
  {
    if k >= |parts| then Ok(acc)
    else
      match Contribution(parts[k], k == |parts| - 1, pattern, parameters, route, regexMatch)
      case Err(e) => Err(e)
      case Ok(c) => Finish(parts, k + 1, acc + c, pattern, parameters, route, regexMatch)
  }

  /** The path spelled by the result parts. */
  function PathOf(resultParts: seq<string>): (r: string)
    ensures r != [] && r[0] == '/'
    ensures resultParts != [] ==> r == Join([[]] + resultParts, "/")
    ensures r == "/" <==> resultParts == [] || resultParts == [[]]
  {
    if |resultParts| == 0 then "/" else "/" + Join(resultParts, "/")
  }

  /** `GeneratePath` as a function of the route table, the name and the parameters. */
  function Generate(
    routes: map<string, RouteDefinition>, routeName: string, parameters: map<string, string>,
    regexMatch: RegexMatcher): (r: Result<string, UrlError>)
    ensures r == Err(RouteNotFound(routeName)) <==> routeName !in routes
    ensures r.Ok? ==> r.value != [] && r.value[0] == '/'
  {
    if routeName !in routes then Err(RouteNotFound(routeName))
    else
      var route := routes[routeName];
      var result := Finish(SplitPath(route.pattern), 1, [], route.pattern, parameters, route, regexMatch);
      FinishNeverNotFound(SplitPath(route.pattern), 1, [], route.pattern, parameters, route, regexMatch);
      match result
      case Err(e) => Err(e)
      case Ok(resultParts) => Ok(PathOf(resultParts))
  }

  lemma {:induction false} FinishNeverNotFound(
    parts: seq<string>, k: nat, acc: seq<string>, pattern: string, parameters: map<string, string>,
    route: RouteDefinition, regexMatch: RegexMatcher)
    ensures !Finish(parts, k, acc, pattern, parameters, route, regexMatch).Err?
         || !Finish(parts, k, acc, pattern, parameters, route, regexMatch).error.RouteNotFound?
    decreases |parts| - k
  {
    if k < |parts| {
      var c := Contribution(parts[k], k == |parts| - 1, pattern, parameters, route, regexMatch);
      if c.Ok? {
        FinishNeverNotFound(parts, k + 1, acc + c.value, pattern, parameters, route, regexMatch);
      }
    }
  }

  /** `GeneratePath`: walks the pattern parts, appending each part's values. */
  method GeneratePath(
    routes: map<string, RouteDefinition>, routeName: string, parameters: map<string, string>,
    regexMatch: RegexMatcher) returns (r: Result<string, UrlError>)
    ensures r == Generate(routes, routeName, parameters, regexMatch)
  {
    if routeName !in routes {
      r := Err(RouteNotFound(routeName));
    } else {
      var route := routes[routeName];
      var resultParts := ResultParts(SplitPath(route.pattern), route.pattern, parameters, route, regexMatch);
      r := if resultParts.Err? then Err(resultParts.error) else Ok(PathOf(resultParts.value));
    }
  }

  /** The loop over the pattern parts after the leading empty one: the parts
      of the path, or the first error. */
  method ResultParts(
    patternParts: seq<string>, pattern: string, parameters: map<string, string>,
    route: RouteDefinition, regexMatch: RegexMatcher) returns (r: Result<seq<string>, UrlError>)
    ensures r == Finish(patternParts, 1, [], pattern, parameters, route, regexMatch)
  {
    var resultParts: seq<string> := [];
    var index := 1;
    while index < |patternParts|
      invariant 1 <= index && (index <= |patternParts| || index == 1)
      invariant Finish(patternParts, index, resultParts, pattern, parameters, route, regexMatch)
             == Finish(patternParts, 1, [], pattern, parameters, route, regexMatch)
    {
      var part := patternParts[index];
      var contribution := PartValues(part, index == |patternParts| - 1, pattern, parameters, route, regexMatch);
      if contribution.Err? {
        return Err(contribution.error);
      }
      resultParts := resultParts + contribution.value;
      index := index + 1;
    }
    return Ok(resultParts);
  }

  /** The body of the loop over the pattern parts. */
  method PartValues(
    part: string, isLast: bool, pattern: string, parameters: map<string, string>,
    route: RouteDefinition, regexMatch: RegexMatcher) returns (r: Result<seq<string>, UrlError>)
    ensures r == Contribution(part, isLast, pattern, parameters, route, regexMatch)
  {
    if HasPrefix(part, ":") {
      r := ParamValues(part, parameters, route, regexMatch);
    } else if HasPrefix(part, "*") {
      r := WildcardValues(part, isLast, pattern, parameters, route, regexMatch);
    } else {
      r := Ok([part]);
    }
  }

  /** The ":" branch of the loop body. */
  method ParamValues(part: string, parameters: map<string, string>, route: RouteDefinition, regexMatch: RegexMatcher)
    returns (r: Result<seq<string>, UrlError>)
    ensures r == ParamContribution(part, parameters, route, regexMatch)
  {
    var paramName := TrimPrefix(part, ":");
    var isOptional := false;
    if HasSuffix(paramName, "?") {
      isOptional := true;
      paramName := TrimSuffix(paramName, "?");
    }
    var value := ValueFor(parameters, route.defaults, paramName);
    if value.None? {
      if isOptional {
        return Ok([]);
      }
      return Err(ParameterMissing(paramName));
    }
    if paramName in route.requirements && !regexMatch(route.requirements[paramName], value.value) {
      return Err(RequirementFailed(paramName, value.value));
    }
    return Ok([value.value]);
  }

  /** The "*" branch of the loop body. */
  method WildcardValues(
    part: string, isLast: bool, pattern: string, parameters: map<string, string>,
    route: RouteDefinition, regexMatch: RegexMatcher) returns (r: Result<seq<string>, UrlError>)
    ensures r == WildcardContribution(part, isLast, pattern, parameters, route, regexMatch)
  {
    var wildcardName := TrimPrefix(part, "*");
    var isCatchAll := false;
    if HasSuffix(wildcardName, "...") {
      isCatchAll := true;
      wildcardName := TrimSuffix(wildcardName, "...");
    }
    if isLast {
      isCatchAll := true;
    }
    var value: Option<string> := None;
    if wildcardName != [] {
      value := ValueFor(parameters, route.defaults, wildcardName);
    }
    if !isCatchAll {
      if wildcardName == [] {
        return Err(UnnamedWildcard(pattern));
      }
      if value.None? {
        return Err(WildcardMissing(wildcardName));
      }
      if '/' in value.value {
        return Err(WildcardHasSlash(wildcardName, value.value));
      }
      if wildcardName in route.requirements && !regexMatch(route.requirements[wildcardName], value.value) {
        return Err(WildcardRequirementFailed(wildcardName, value.value));
      }
      return Ok([value.value]);
    }
    if wildcardName == [] && value.None? {
      value := Some([]);
    }
    if value.Some? {
      var segmentsOut := CatchAllValues(value.value);
      return Ok(segmentsOut);
    }
    return Ok([]);
  }

  /** The catch-all branch: trims the value and appends its non-empty segments. */
  method CatchAllValues(value: string) returns (segmentsOut: seq<string>)
    ensures segmentsOut == CatchAllSegments(value)
  {
    segmentsOut := [];
    var trimmed := TrimChar(value, '/');
    if trimmed != [] {
      var segments := Split(trimmed, '/');
      var j := 0;
      while j < |segments|
        invariant 0 <= j <= |segments|
        invariant segmentsOut == NonEmpty(segments[..j])
      {
        NonEmptySnoc(segments, j);
        if segments[j] != [] {
          segmentsOut := segmentsOut + [segments[j]];
        }
        j := j + 1;
      }
      assert segments[..j] == segments;
    }
  }

  lemma NonEmptySnoc(pieces: seq<string>, j: nat)
    requires j < |pieces|
    ensures NonEmpty(pieces[..j + 1]) == NonEmpty(pieces[..j]) + (if pieces[j] == [] then [] else [pieces[j]])
  {
    assert pieces[..j + 1][..j] == pieces[..j];
  }

  // ---------------------------------------------------------------------------
  // Properties

  /** A pattern of static parts generates the parts themselves. */
  lemma {:induction false} StaticPartsGenerateThemselves(
    parts: seq<string>, k: nat, acc: seq<string>, pattern: string, parameters: map<string, string>,
    route: RouteDefinition, regexMatch: RegexMatcher)
    requires k <= |parts| && AllStatic(parts[k..])
    ensures Finish(parts, k, acc, pattern, parameters, route, regexMatch) == Ok(acc + parts[k..])
    decreases |parts| - k
  {
    if k < |parts| {
      assert parts[k..][0] == parts[k];
      assert IsStaticSegment(parts[k]);
      assert Contribution(parts[k], k == |parts| - 1, pattern, parameters, route, regexMatch) == Ok([parts[k]]);
      assert parts[k + 1..] == parts[k..][1..];
      StaticPartsGenerateThemselves(parts, k + 1, acc + [parts[k]], pattern, parameters, route, regexMatch);
      assert acc + [parts[k]] + parts[k + 1..] == acc + parts[k..];
    } else {
      assert acc + parts[k..] == acc;
    }
  }

  /** A catch-all value already in canonical form (no leading, trailing or
      doubled "/") generates its own segments, which join back to it. */
  lemma CatchAllCanonical(value: string)
    requires value != [] && value[0] != '/' && value[|value| - 1] != '/'
    requires forall k :: 0 <= k < |Split(value, '/')| ==> Split(value, '/')[k] != []
    ensures CatchAllSegments(value) == Split(value, '/')
    ensures Join(CatchAllSegments(value), "/") == value
  {
    var right := TrimRightChar(value, '/');
    assert right == value;
    var both := TrimLeftChar(right, '/');
    assert both == value;
    assert TrimChar(value, '/') == value;
    JoinSplit(value, '/');
  }

  /** The path built from non-empty, slash-free parts splits back into those
      parts with the router's `splitPath`. */
  lemma GeneratedPathSplitsBack(resultParts: seq<string>)
    requires resultParts != []
    requires forall k :: 0 <= k < |resultParts| ==> resultParts[k] != [] && '/' !in resultParts[k]
    requires !IsSpace(resultParts[|resultParts| - 1][|resultParts[|resultParts| - 1]| - 1])
    ensures SplitPath(PathOf(resultParts)) == [[]] + resultParts
  {
    var pieces := [[]] + resultParts;
    var path := PathOf(resultParts);
    assert path == Join(pieces, "/");
    JoinLastChar(pieces);
    assert path[|path| - 1] == resultParts[|resultParts| - 1][|resultParts[|resultParts| - 1]| - 1];
    assert Trimmed(path);
    TrimSpaceOfTrimmed(path);
    assert HasPrefix(path, "/");
    if 1 < |path| {
      var stripped := TrimRightChar(path, '/');
      assert stripped == path;
    }
    SplitJoin(pieces, '/');
  }

  /** The last character of a join is the last character of its last, non-empty piece. */
  lemma {:induction false} JoinLastChar(pieces: seq<string>)
    requires |pieces| >= 1 && pieces[|pieces| - 1] != []
    ensures var j := Join(pieces, "/"); j != [] && j[|j| - 1] == pieces[|pieces| - 1][|pieces[|pieces| - 1]| - 1]
  {
    if |pieces| > 1 {
      JoinLastChar(pieces[1..]);
      assert pieces[1..][|pieces[1..]| - 1] == pieces[|pieces| - 1];
    }
  }

  /** A route with only static segments generates its own parts, and the path
      splits back into the route's parts with the router's `splitPath`. */
  lemma StaticRouteRoundTrip(
    routes: map<string, RouteDefinition>, routeName: string, parameters: map<string, string>,
    regexMatch: RegexMatcher, parts: seq<string>)
    requires routeName in routes && parts == SplitPath(routes[routeName].pattern)
    requires |parts| >= 2 && AllStatic(parts[1..])
    requires forall k :: 1 <= k < |parts| ==> parts[k] != []
    requires !IsSpace(parts[|parts| - 1][|parts[|parts| - 1]| - 1])
    ensures Generate(routes, routeName, parameters, regexMatch) == Ok(PathOf(parts[1..]))
    ensures SplitPath(PathOf(parts[1..])) == parts
  {
    StaticRouteGenerates(routes, routeName, parameters, regexMatch, parts);
    PartsSplitBack(parts);
  }

  lemma PartsSplitBack(parts: seq<string>)
    requires |parts| >= 2 && parts[0] == []
    requires forall k :: 0 <= k < |parts| ==> '/' !in parts[k]
    requires forall k :: 1 <= k < |parts| ==> parts[k] != []
    requires !IsSpace(parts[|parts| - 1][|parts[|parts| - 1]| - 1])
    ensures SplitPath(PathOf(parts[1..])) == parts
  {
    var rest := parts[1..];
    assert forall k | 0 <= k < |rest| :: rest[k] == parts[k + 1];
    GeneratedPathSplitsBack(rest);
    assert parts == [parts[0]] + rest;
  }

  lemma StaticRouteGenerates(
    routes: map<string, RouteDefinition>, routeName: string, parameters: map<string, string>,
    regexMatch: RegexMatcher, parts: seq<string>)
    requires routeName in routes && parts == SplitPath(routes[routeName].pattern)
    requires |parts| >= 1 && AllStatic(parts[1..])
    ensures Generate(routes, routeName, parameters, regexMatch) == Ok(PathOf(parts[1..]))
  {
    var route := routes[routeName];
    StaticPartsGenerateThemselves(parts, 1, [], route.pattern, parameters, route, regexMatch);
    assert [] + parts[1..] == parts[1..];
  }

  // The documented example: the value "/a//b/c/" for the catch-all of the
  // pattern "/download/*path..." gives the segments of "/download/a/b/c".
  lemma CatchAllExample()
    ensures CatchAllSegments("/a//b/c/") == ["a", "b", "c"]
  {
    TrimExample();
    SplitExample();
    NonEmptyExample();
  }

  lemma TrimExample()
    ensures TrimChar("/a//b/c/", '/') == "a//b/c"
  {
    TrimLeftExample();
    TrimRightExample();
  }

  lemma TrimLeftExample()
    ensures TrimLeftChar("/a//b/c/", '/') == "a//b/c/"
  {
    assert "/a//b/c/"[1..] == "a//b/c/";
  }

  lemma TrimRightExample()
    ensures TrimRightChar("a//b/c/", '/') == "a//b/c"
  {
    assert "a//b/c/"[..6] == "a//b/c";
  }

  lemma SplitExample()
    ensures Split("a//b/c", '/') == ["a", "", "b", "c"]
  {
    SplitNoSeparator("c", '/');
    SplitPrefix("b", "c", '/');
    assert "b" + "/" + "c" == "b/c";
    SplitPrefix("", "b/c", '/');
    assert "" + "/" + "b/c" == "/b/c";
    SplitPrefix("a", "/b/c", '/');
    assert "a" + "/" + "/b/c" == "a//b/c";
  }

  lemma NonEmptyExample()
    ensures NonEmpty(["a", "", "b", "c"]) == ["a", "b", "c"]
  {
    var pieces: seq<string> := ["a", "", "b", "c"];
    assert pieces[..3] == ["a", "", "b"] && pieces[..3][..2] == ["a", ""] && pieces[..3][..2][..1] == ["a"];
    assert NonEmpty(["a"]) == ["a"];
    assert NonEmpty(["a", ""]) == ["a"];
    assert NonEmpty(["a", "", "b"]) == ["a", "b"];
  }

  // ---------------------------------------------------------------------------
  // GenerateUrl

  /** The query parameters that reach the encoder: all but the empty key. */
  function QueryValues(queryParams: map<string, string>): (r: map<string, string>)
    ensures [] !in r
    ensures forall k :: k in r <==> k in queryParams && k != []
    ensures forall k | k in r :: r[k] == queryParams[k]
  {
    map k | k in queryParams && k != [] :: queryParams[k]
  }

  /** `GenerateUrl`: the generated path, then "?" and the encoded query when it is not empty. */
  function Url(path: string, queryString: string): (r: string)
    ensures queryString == [] ==> r == path
    ensures queryString != [] ==> r == path + "?" + queryString
  {
    if queryString == [] then path else path + "?" + queryString
  }

  method GenerateUrl(
    routes: map<string, RouteDefinition>, routeName: string, params: map<string, string>,
    queryParams: map<string, string>, regexMatch: RegexMatcher, encode: map<string, string> -> string)
    returns (r: Result<string, UrlError>)
    ensures var path := Generate(routes, routeName, params, regexMatch);
      r == if path.Err? then Err(path.error) else Ok(Url(path.value, encode(QueryValues(queryParams))))
  {
    var pathValue := GeneratePath(routes, routeName, params, regexMatch);
    if pathValue.Err? {
      r := Err(pathValue.error);
    } else {
      var queryValues := FilterQuery(queryParams);
      var queryString := encode(queryValues);
      r := Ok(Url(pathValue.value, queryString));
    }
  }

  /** The loop of `GenerateUrl` that drops the empty key from the query parameters. */
  method FilterQuery(queryParams: map<string, string>) returns (queryValues: map<string, string>)
    ensures queryValues == QueryValues(queryParams)
  {
    queryValues := map[];
    var remaining := queryParams.Keys;
    while remaining != {}
      invariant remaining <= queryParams.Keys
      invariant forall k :: k in queryValues <==> k in queryParams && k != [] && k !in remaining
      invariant forall k | k in queryValues :: queryValues[k] == queryParams[k]
      decreases |remaining|
    {
      var key :| key in remaining;
      remaining := remaining - {key};
      if key != [] {
        queryValues := queryValues[key := queryParams[key]];
      }
    }
  }
}
