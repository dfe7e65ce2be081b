/** Routing helpers: path splitting, the host/scheme/method filters, path
    matching against a route pattern, middleware wrapping and scheme detection.
    Regular expressions are given as a matching function over the anchored source
    text of the requirement; the handlers and middlewares are symbolic. */
module RouterUtility {
  import opened Wrappers
  import opened Strings

  const RouteAttributeName := "_route"
  const RouteAttributePattern := "_pattern"
  const RouteAttributeMethods := "_methods"
  const RouteAttributeHost := "_host"
  const RouteAttributeSchemes := "_schemes"
  const RouteAttributeLocales := "_locales"
  const RouteAttributeLocale := "_locale"

  /** A handler: a base handler, or a middleware applied to an inner handler. */
  datatype Handler = Base(id: nat) | Wrapped(middleware: nat, inner: Handler)

  /** The dynamic values stored in a route's attribute map. */
  datatype Attribute = AttrString(text: string) | AttrStrings(list: seq<string>) | AttrOther(id: nat)

  /** A registered route. Requirements hold the anchored source of each regex. */
  datatype Route = Route(
    name: string,
    pattern: string,
    parts: seq<string>,
    handler: Handler,
    methods: seq<string>,
    host: string,
    schemes: seq<string>,
    requirements: map<string, string>,
    defaults: map<string, string>,
    locales: seq<string>,
    priority: int,
    attributes: map<string, Attribute>)

  /** Full-string matching of an anchored regex source against a value. */
  type RegexMatcher = (string, string) -> bool

  // ---------------------------------------------------------------------------
  // splitPath

  /** `splitPath`: trims, adds a leading "/", drops trailing "/" except for the
      root, then splits on "/". */
  function SplitPath(value: string): (r: seq<string>)
    ensures |r| >= 1 && r[0] == []
    ensures forall k :: 0 <= k < |r| ==> '/' !in r[k]
    ensures r == [[]] <==> AllSpace(value)
    ensures r[|r| - 1] == [] ==> |r| <= 2
  {
    var trimmed := TrimSpace(value);
    if trimmed == [] then [[]]
    else
      var slashed := if HasPrefix(trimmed, "/") then trimmed else "/" + trimmed;
      var stripped := if 1 < |slashed| then (if TrimRightChar(slashed, '/') == [] then "/" else TrimRightChar(slashed, '/')) else slashed;
      assert stripped[0] == '/';
      SplitLeadingSlash(stripped);
      SplitLastNonEmpty(stripped);
      Split(stripped, '/')
  }

  /** Joining the pieces again gives the normalised path: the trimmed value
      with a "/" put in front when it has none and its trailing slashes
      removed, the root "/" excepted; a blank value gives "". */
  lemma SplitPathJoins(value: string)
    ensures AllSpace(value) ==> Join(SplitPath(value), "/") == ""
    ensures !AllSpace(value) ==>
      var t := TrimSpace(value);
      var slashed := if HasPrefix(t, "/") then t else "/" + t;
      var j := Join(SplitPath(value), "/");
      && j != [] && j[0] == '/' && (j == "/" || j[|j| - 1] != '/')
      && j <= slashed && (forall k :: |j| <= k < |slashed| ==> slashed[k] == '/')
  {
    var t := TrimSpace(value);
    if t != [] {
      var slashed := if HasPrefix(t, "/") then t else "/" + t;
      var stripped := if 1 < |slashed| then (if TrimRightChar(slashed, '/') == [] then "/" else TrimRightChar(slashed, '/')) else slashed;
      assert SplitPath(value) == Split(stripped, '/');
      JoinSplit(stripped, '/');
      if 1 < |slashed| && TrimRightChar(slashed, '/') == [] {
        assert slashed[0] == '/';
      }
    }
  }

  lemma SplitLeadingSlash(s: string)
    requires s != [] && s[0] == '/'
    ensures |Split(s, '/')| >= 2 && Split(s, '/')[0] == []
  {
    assert Split(s, '/') == [[]] + Split(s[1..], '/');
  }

  /** Splitting a string whose last character is not the separator leaves a
      non-empty last piece; only "/" itself ends in an empty piece. */
  lemma SplitLastNonEmpty(s: string)
    requires s != [] && s[0] == '/'
    requires s == "/" || s[|s| - 1] != '/'
    ensures var r := Split(s, '/'); r[|r| - 1] == [] ==> |r| <= 2
  {
    if s != "/" {
      SplitLastPiece(s, '/');
    }
  }

  lemma {:induction false} SplitLastPiece(s: string, c: char)
    requires s != [] && s[|s| - 1] != c
    ensures var r := Split(s, c); r[|r| - 1] != []
  {
    if |s| > 1 {
      SplitLastPiece(s[1..], c);
      var rest := Split(s[1..], c);
      if s[0] != c {
        if |rest| == 1 {
          assert ([[s[0]] + rest[0]] + rest[1..])[0] == [s[0]] + rest[0];
        }
      }
    }
  }

  // ---------------------------------------------------------------------------
  // The host, scheme and method filters

  /** `matchesMethod`: an empty list allows every method. */
  function MatchesMethod(methods: seq<string>, verb: string): (r: bool)
    ensures r <==> |methods| == 0 || verb in methods
  {
    |methods| == 0 || ListContains(methods, verb)
  }

  function ListContains(list: seq<string>, value: string): (r: bool)
    ensures r <==> value in list
  {
    if list == [] then false
    else if list[0] == value then true
    else ListContains(list[1..], value)
  }

  /** `matchesHost`: an empty expected host allows every host. */
  function MatchesHost(expectedHost: string, actualHost: string): (r: bool)
    ensures r <==> expectedHost == [] || expectedHost == actualHost
  {
    if expectedHost == [] then true else expectedHost == actualHost
  }

  /** `matchesScheme`: an empty list allows every scheme; comparison ignores case. */
  function MatchesScheme(schemes: seq<string>, scheme: string): (r: bool)
    ensures r <==> |schemes| == 0 || exists k :: 0 <= k < |schemes| && EqualFold(schemes[k], scheme)
  {
    |schemes| == 0 || AnyEqualFold(schemes, scheme)
  }

  function AnyEqualFold(list: seq<string>, value: string): (r: bool)
    ensures r <==> exists k :: 0 <= k < |list| && EqualFold(list[k], value)
  {
    if list == [] then false
    else if EqualFold(list[0], value) then true
    else
      var rest := AnyEqualFold(list[1..], value);
      assert rest ==> exists k :: 0 <= k < |list| && EqualFold(list[k], value) by {
        if rest {
          var k :| 0 <= k < |list[1..]| && EqualFold(list[1..][k], value);
          assert list[k + 1] == list[1..][k];
        }
      }
      assert (exists k :: 0 <= k < |list| && EqualFold(list[k], value)) ==> rest by {
        if exists k :: 0 <= k < |list| && EqualFold(list[k], value) {
          var k :| 0 <= k < |list| && EqualFold(list[k], value);
          assert k != 0;
          assert list[1..][k - 1] == list[k];
        }
      }
      rest
  }

  // ---------------------------------------------------------------------------
  // matchPath

  /** Pattern segment kinds. */
  predicate IsWildcardSegment(part: string) {
    HasPrefix(part, "*")
  }

  predicate IsParamSegment(part: string) {
    HasPrefix(part, ":")
  }

  predicate IsOptionalParam(part: string) {
    IsParamSegment(part) && HasSuffix(TrimPrefix(part, ":"), "?")
  }

  predicate IsStaticSegment(part: string) {
    !IsWildcardSegment(part) && !IsParamSegment(part)
  }

  /** The name of a ":name" or ":name?" segment. */
  function ParamName(part: string): string {
    TrimSuffix(TrimPrefix(part, ":"), "?")
  }

  /** The name of a "*name" or "*name..." segment. */
  function WildcardName(part: string): string {
    TrimSuffix(TrimPrefix(part, "*"), "...")
  }

  /** A wildcard segment that captures the rest of the path: one spelled
      "*name..." or the pattern's last segment. */
  predicate IsCatchAll(part: string, isLast: bool) {
    IsWildcardSegment(part) && (HasSuffix(TrimPrefix(part, "*"), "...") || isLast)
  }

  /** The requirement a captured value must meet, if its name has one. */
  predicate MeetsRequirement(requirements: map<string, string>, regexMatch: RegexMatcher, name: string, value: string) {
    name !in requirements || regexMatch(requirements[name], value)
  }

  /** Records a captured catch-all value. A name equal to `_locale` also sets the
      `_locale` parameter, which is the same key. */
  function CaptureCatchAll(params: map<string, string>, name: string, rest: string): (r: map<string, string>)
    ensures r == params[name := rest]
  {
    var p := params[name := rest];
    if name == RouteAttributeLocale then p[RouteAttributeLocale := rest] else p
  }

  /** The catch-all capture as the code writes it: a catch-all named `_route`
      also copies its value into `_locale`. */
  function CaptureCatchAllAsWritten(params: map<string, string>, name: string, rest: string): (r: map<string, string>)
    ensures name in r && r[name] == rest
    ensures name == RouteAttributeName ==> RouteAttributeLocale in r && r[RouteAttributeLocale] == rest
    ensures name != RouteAttributeName ==> r == CaptureCatchAll(params, name, rest)
  {
    var p := params[name := rest];
    if name == RouteAttributeName then p[RouteAttributeLocale := rest] else p
  }

  /** A catch-all named `_route` leaks its value into the `_locale` parameter,
      which the router's locale filter then reads. */
  lemma CatchAllNamedRouteSetsLocale()
    ensures RouteAttributeLocale in CaptureCatchAllAsWritten(map[], "_route", "x")
    ensures CaptureCatchAllAsWritten(map[], "_route", "x")[RouteAttributeLocale] == "x"
    ensures RouteAttributeLocale !in CaptureCatchAll(map[], "_route", "x")
  {
  }

  /** The meaning of `matchPath`, on the remaining pattern and path segments. */
  function MatchSegments(
    pattern: seq<string>, path: seq<string>, requirements: map<string, string>,
    regexMatch: RegexMatcher, params: map<string, string>): Option<map<string, string>>
    decreases |pattern|
  {
    if pattern == [] then
      if path == [] then Some(params) else None
    else
      var part := pattern[0];
      var isLast := |pattern| == 1;
      if IsWildcardSegment(part) then
        var name := WildcardName(part);
        if IsCatchAll(part, isLast) then
          var rest := if |path| > 0 then Join(path, "/") else [];
          Some(if name != [] then CaptureCatchAll(params, name, rest) else params)
        else if path == [] then None
        else if name != [] && !MeetsRequirement(requirements, regexMatch, name, path[0]) then None
        else
          MatchSegments(pattern[1..], path[1..], requirements, regexMatch,
            if name != [] then params[name := path[0]] else params)
      else if path == [] then
        if IsOptionalParam(part) then MatchSegments(pattern[1..], path, requirements, regexMatch, params)
        else None
      else if IsParamSegment(part) then
        var name := ParamName(part);
        if !MeetsRequirement(requirements, regexMatch, name, path[0]) then None
        else MatchSegments(pattern[1..], path[1..], requirements, regexMatch, params[name := path[0]])
      else if part != path[0] then None
      else MatchSegments(pattern[1..], path[1..], requirements, regexMatch, params)
  }

  /** A match keeps every parameter captured before it, and the empty
      pattern matches the empty path only. */
  lemma {:induction false} MatchSegmentsKeepsParams(
    pattern: seq<string>, path: seq<string>, requirements: map<string, string>,
    regexMatch: RegexMatcher, params: map<string, string>)
    ensures var r := MatchSegments(pattern, path, requirements, regexMatch, params);
      r.Some? ==> params.Keys <= r.value.Keys
    ensures pattern == [] ==> (MatchSegments(pattern, path, requirements, regexMatch, params).Some? <==> path == [])
    decreases |pattern|
  {
    if pattern != [] {
      var part := pattern[0];
      if IsWildcardSegment(part) {
        var name := WildcardName(part);
        if !IsCatchAll(part, |pattern| == 1) && path != [] {
          MatchSegmentsKeepsParams(pattern[1..], path[1..], requirements, regexMatch,
            if name != [] then params[name := path[0]] else params);
        }
      } else if path == [] {
        MatchSegmentsKeepsParams(pattern[1..], path, requirements, regexMatch, params);
      } else if IsParamSegment(part) {
        MatchSegmentsKeepsParams(pattern[1..], path[1..], requirements, regexMatch, params[ParamName(part) := path[0]]);
      } else {
        MatchSegmentsKeepsParams(pattern[1..], path[1..], requirements, regexMatch, params);
      }
    }
  }

  /** `matchPath`: walks the pattern and the path together. */
  method MatchPath(route: Route, pathSegments: seq<string>, regexMatch: RegexMatcher)
    returns (params: Option<map<string, string>>)
    ensures params == MatchSegments(route.parts, pathSegments, route.requirements, regexMatch, map[])
  {
    var patternSegments := route.parts;
    var current: map<string, string> := map[];
    var pathIndex := 0;
    var patternIndex := 0;
    while patternIndex < |patternSegments|
      invariant 0 <= patternIndex <= |patternSegments| && 0 <= pathIndex <= |pathSegments|
      invariant MatchSegments(route.parts, pathSegments, route.requirements, regexMatch, map[])
        == MatchSegments(patternSegments[patternIndex..], pathSegments[pathIndex..], route.requirements, regexMatch, current)
      decreases |patternSegments| - patternIndex
    {
      var routePart := patternSegments[patternIndex];
      var isLastPattern := patternIndex == |patternSegments| - 1;
      assert patternSegments[patternIndex..][0] == routePart;
      assert patternSegments[patternIndex..][1..] == patternSegments[patternIndex + 1..];
      if HasPrefix(routePart, "*") {
        var wildcardName := TrimPrefix(routePart, "*");
        var isCatchAll := false;
        if HasSuffix(wildcardName, "...") {
          isCatchAll := true;
          wildcardName := TrimSuffix(wildcardName, "...");
        }
        if isLastPattern {
          isCatchAll := true;
        }
        if isCatchAll {
          var rest := [];
          if |pathSegments| > pathIndex {
            rest := Join(pathSegments[pathIndex..], "/");
          }
          if wildcardName != [] {
            current := CaptureCatchAll(current, wildcardName, rest);
          }
          return Some(current);
        }
        if pathIndex >= |pathSegments| {
          return None;
        }
        var pathPart := pathSegments[pathIndex];
        assert pathSegments[pathIndex..][0] == pathPart;
        assert pathSegments[pathIndex..][1..] == pathSegments[pathIndex + 1..];
        if wildcardName != [] {
          if wildcardName in route.requirements && !regexMatch(route.requirements[wildcardName], pathPart) {
            return None;
          }
          current := current[wildcardName := pathPart];
        }
        pathIndex := pathIndex + 1;
        patternIndex := patternIndex + 1;
        continue;
      }
      if pathIndex >= |pathSegments| {
        if HasPrefix(routePart, ":") {
          var paramName := TrimPrefix(routePart, ":");
          if HasSuffix(paramName, "?") {
            patternIndex := patternIndex + 1;
            continue;
          }
        }
        return None;
      }
      var pathPart := pathSegments[pathIndex];
      assert pathSegments[pathIndex..][0] == pathPart;
      assert pathSegments[pathIndex..][1..] == pathSegments[pathIndex + 1..];
      if HasPrefix(routePart, ":") {
        var paramName := TrimPrefix(routePart, ":");
        if HasSuffix(paramName, "?") {
          paramName := TrimSuffix(paramName, "?");
        }
        if paramName in route.requirements && !regexMatch(route.requirements[paramName], pathPart) {
          return None;
        }
        current := current[paramName := pathPart];
        pathIndex := pathIndex + 1;
        patternIndex := patternIndex + 1;
        continue;
      }
      if routePart != pathPart {
        return None;
      }
      pathIndex := pathIndex + 1;
      patternIndex := patternIndex + 1;
    }
    if pathIndex != |pathSegments| {
      return None;
    }
    return Some(current);
  }

  predicate AllStatic(parts: seq<string>) {
    forall k :: 0 <= k < |parts| ==> IsStaticSegment(parts[k])
  }

  /** A pattern of static segments matches exactly the equal path, capturing nothing. */
  lemma {:induction false} StaticPatternMatchesEqualPath(
    pattern: seq<string>, path: seq<string>, requirements: map<string, string>,
    regexMatch: RegexMatcher, params: map<string, string>)
    requires AllStatic(pattern)
    ensures MatchSegments(pattern, path, requirements, regexMatch, params)
      == if pattern == path then Some(params) else None
  {
    if pattern != [] && path != [] {
      StaticPatternMatchesEqualPath(pattern[1..], path[1..], requirements, regexMatch, params);
      if pattern[0] == path[0] && pattern[1..] == path[1..] {
        assert pattern == [pattern[0]] + pattern[1..] && path == [path[0]] + path[1..];
      }
    }
  }

  /** Static segments in front of the rest of a pattern consume the same segments
      of the path. */
  lemma {:induction false} StaticPrefixConsumed(
    prefix: seq<string>, pattern: seq<string>, path: seq<string>,
    requirements: map<string, string>, regexMatch: RegexMatcher, params: map<string, string>)
    requires AllStatic(prefix)
    ensures MatchSegments(prefix + pattern, prefix + path, requirements, regexMatch, params)
      == MatchSegments(pattern, path, requirements, regexMatch, params)
  {
    if prefix != [] {
      assert (prefix + pattern)[0] == prefix[0] && (prefix + path)[0] == prefix[0];
      assert (prefix + pattern)[1..] == prefix[1..] + pattern;
      assert (prefix + path)[1..] == prefix[1..] + path;
      assert IsStaticSegment(prefix[0]);
      assert AllStatic(prefix[1..]) by {
        forall k | 0 <= k < |prefix[1..]| ensures IsStaticSegment(prefix[1..][k]) {
          assert prefix[1..][k] == prefix[k + 1];
        }
      }
      StaticPrefixConsumed(prefix[1..], pattern, path, requirements, regexMatch, params);
    } else {
      assert prefix + pattern == pattern && prefix + path == path;
    }
  }

  /** A parameter segment after static segments captures exactly one path segment. */
  lemma ParamCapturesOneSegment(
    prefix: seq<string>, name: string, value: string,
    requirements: map<string, string>, regexMatch: RegexMatcher)
    requires AllStatic(prefix) && name !in requirements
    requires !HasSuffix(name, "?")
    ensures MatchSegments(prefix + [":" + name], prefix + [value], requirements, regexMatch, map[])
      == Some(map[name := value])
  {
    StaticPrefixConsumed(prefix, [":" + name], [value], requirements, regexMatch, map[]);
    assert TrimPrefix(":" + name, ":") == name;
  }

  /** A trailing optional parameter may be absent. */
  lemma OptionalParamMayBeAbsent(
    prefix: seq<string>, name: string, requirements: map<string, string>, regexMatch: RegexMatcher)
    requires AllStatic(prefix)
    ensures MatchSegments(prefix + [":" + name + "?"], prefix, requirements, regexMatch, map[]) == Some(map[])
  {
    StaticPrefixConsumed(prefix, [":" + name + "?"], [], requirements, regexMatch, map[]);
    assert prefix + [] == prefix;
    var part := ":" + name + "?";
    assert TrimPrefix(part, ":") == name + "?";
    assert HasSuffix(name + "?", "?");
  }

  /** A catch-all after static segments captures the remaining path joined by "/". */
  lemma CatchAllCapturesRest(
    prefix: seq<string>, name: string, rest: seq<string>,
    requirements: map<string, string>, regexMatch: RegexMatcher)
    requires AllStatic(prefix) && name != [] && rest != []
    ensures MatchSegments(prefix + ["*" + name + "..."], prefix + rest, requirements, regexMatch, map[])
      == Some(map[name := Join(rest, "/")])
  {
    StaticPrefixConsumed(prefix, ["*" + name + "..."], rest, requirements, regexMatch, map[]);
    var part := "*" + name + "...";
    assert TrimPrefix(part, "*") == name + "...";
    assert HasSuffix(name + "...", "...");
    assert TrimSuffix(name + "...", "...") == name;
  }

  /** A match leaves no path segment unconsumed: a longer path after a fully
      static pattern does not match. */
  lemma ExtraSegmentsDoNotMatch(
    pattern: seq<string>, extra: seq<string>, requirements: map<string, string>, regexMatch: RegexMatcher)
    requires AllStatic(pattern) && extra != []
    ensures MatchSegments(pattern, pattern + extra, requirements, regexMatch, map[]) == None
  {
    StaticPatternMatchesEqualPath(pattern, pattern + extra, requirements, regexMatch, map[]);
    assert |pattern + extra| > |pattern|;
  }

  // ---------------------------------------------------------------------------
  // wrapWithMiddlewares

  /** The handler with the middlewares applied, the first one outermost. */
  function Nest(middlewares: seq<nat>, handler: Handler): Handler {
    if middlewares == [] then handler else Wrapped(middlewares[0], Nest(middlewares[1..], handler))
  }

  /** The middlewares of a handler, from the outside in. */
  function Layers(handler: Handler): seq<nat> {
    match handler
    case Base(_) => []
    case Wrapped(m, inner) => [m] + Layers(inner)
  }

  /** Wrapping a base handler layers the middlewares in list order. */
  lemma {:induction false} NestLayers(middlewares: seq<nat>, id: nat)
    ensures Layers(Nest(middlewares, Base(id))) == middlewares
  {
    if middlewares != [] {
      NestLayers(middlewares[1..], id);
      assert [middlewares[0]] + middlewares[1..] == middlewares;
    }
  }

  /** `wrapWithMiddlewares`: applies the middlewares from the last to the first. */
  method WrapWithMiddlewares(handler: Handler, middlewares: seq<nat>) returns (wrapped: Handler)
    ensures wrapped == Nest(middlewares, handler)
  {
    wrapped := handler;
    var index := |middlewares| - 1;
    while 0 <= index
      invariant -1 <= index < |middlewares|
      invariant wrapped == Nest(middlewares[index + 1..], handler)
    {
      assert middlewares[index..][1..] == middlewares[index + 1..];
      wrapped := Wrapped(middlewares[index], wrapped);
      index := index - 1;
    }
  }

  // ---------------------------------------------------------------------------
  // detectSchemeWithForwardedHeadersPolicy

  /** The parts of a request the scheme detection reads; `None` is a nil request. */
  datatype SchemeRequest = SchemeRequest(tls: bool, forwardedProto: string, fromTrustedProxy: bool)

  datatype ForwardedHeadersPolicy = ForwardedHeadersPolicy(trustForwardedHeaders: bool, trustedProxyList: seq<string>)

  /** `detectSchemeWithForwardedHeadersPolicy`. Whether the remote address is a
      trusted proxy is decided by `isRequestFromTrustedProxy`, given here as
      the request's `fromTrustedProxy`. */
  function DetectScheme(request: Option<SchemeRequest>, policy: ForwardedHeadersPolicy): (r: string)
    ensures request.Some? && request.value.tls ==> r == "https"
    ensures (request.None? || (!request.value.tls && (!policy.trustForwardedHeaders || |policy.trustedProxyList| == 0
                                || !request.value.fromTrustedProxy || request.value.forwardedProto == [])))
            ==> r == "http"
    ensures (request.Some? && !request.value.tls && policy.trustForwardedHeaders && |policy.trustedProxyList| > 0
             && request.value.fromTrustedProxy && request.value.forwardedProto != [])
            ==> r == ToLower(request.value.forwardedProto)
    ensures r != "http" && r != "https" ==> r == ToLower(request.value.forwardedProto)
  {
    if request.None? then "http"
    else if request.value.tls then "https"
    else if !policy.trustForwardedHeaders then "http"
    else if |policy.trustedProxyList| == 0 then "http"
    else if !request.value.fromTrustedProxy then "http"
    else if request.value.forwardedProto != [] then ToLower(request.value.forwardedProto)
    else "http"
  }

  /** The forwarded protocol is used only when every trust condition holds. */
  lemma DetectSchemeUsesForwardedProtoOnlyWhenTrusted(request: SchemeRequest, policy: ForwardedHeadersPolicy)
    ensures DetectScheme(Some(request), policy) == ToLower(request.forwardedProto) <==>
      (!request.tls && policy.trustForwardedHeaders && |policy.trustedProxyList| > 0
        && request.fromTrustedProxy && request.forwardedProto != [])
      || (request.tls && ToLower(request.forwardedProto) == "https")
      || (!request.tls && ToLower(request.forwardedProto) == "http")
  {
    if request.forwardedProto == [] {
      assert ToLower(request.forwardedProto) == [];
    }
  }
}
