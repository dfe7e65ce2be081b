/** The router: a registry of routes plus a segment tree that indexes them, and
    request matching that picks the best accepted candidate. The tree's nodes live
    in an arena (`nodes`), a node's children are indices into it, and the root is
    `nodes[0]` once it exists. */
module Router {
  import opened Wrappers
  import opened Strings
  import opened RouterUtility

  /** `routeTreeNode`. */
  datatype Node = Node(
    segment: string,
    staticChildren: map<string, nat>,
    paramChild: Option<nat>,
    wildcardSegmentChild: Option<nat>,
    wildcardCatchAllChild: Option<nat>,
    routeIndices: seq<nat>)

  function EmptyNode(segment: string): Node {
    Node(segment, map[], None, None, None, [])
  }

  /** Every child index points into the arena. */
  ghost predicate NodeLinksIn(node: Node, size: nat) {
    (forall k | k in node.staticChildren :: node.staticChildren[k] < size)
    && (node.paramChild.Some? ==> node.paramChild.value < size)
    && (node.wildcardSegmentChild.Some? ==> node.wildcardSegmentChild.value < size)
    && (node.wildcardCatchAllChild.Some? ==> node.wildcardCatchAllChild.value < size)
  }

  ghost predicate ValidNodes(nodes: seq<Node>) {
    forall n | 0 <= n < |nodes| :: NodeLinksIn(nodes[n], |nodes|)
  }

  // ---------------------------------------------------------------------------
  // Growth of the tree: nodes are only added, links only set, indices only appended.

  ghost predicate NodeExtends(a: Node, b: Node) {
    a.segment == b.segment
    && (forall k | k in a.staticChildren :: k in b.staticChildren && b.staticChildren[k] == a.staticChildren[k])
    && (a.paramChild.Some? ==> b.paramChild == a.paramChild)
    && (a.wildcardSegmentChild.Some? ==> b.wildcardSegmentChild == a.wildcardSegmentChild)
    && (a.wildcardCatchAllChild.Some? ==> b.wildcardCatchAllChild == a.wildcardCatchAllChild)
    && a.routeIndices <= b.routeIndices
  }

  ghost predicate Extends(a: seq<Node>, b: seq<Node>) {
    |a| <= |b| && forall n | 0 <= n < |a| :: NodeExtends(a[n], b[n])
  }

  lemma IndexKept(a: Node, b: Node, routeIndex: nat)
    requires NodeExtends(a, b) && routeIndex in a.routeIndices
    ensures routeIndex in b.routeIndices
  {
    var k :| 0 <= k < |a.routeIndices| && a.routeIndices[k] == routeIndex;
    assert b.routeIndices[k] == routeIndex;
  }

  /** Every route index of `b` was already at that node in `a`, or is `routeIndex`. */
  ghost predicate OnlyAdds(a: seq<Node>, b: seq<Node>, routeIndex: nat) {
    forall n, y | 0 <= n < |b| && y in b[n].routeIndices :: y == routeIndex || (n < |a| && y in a[n].routeIndices)
  }

  /** `b` holds no route index that `a` did not hold at the same node. */
  ghost predicate NoneAdded(a: seq<Node>, b: seq<Node>) {
    forall n, y | 0 <= n < |b| && y in b[n].routeIndices :: n < |a| && y in a[n].routeIndices
  }

  lemma OnlyAddsTransitive(a: seq<Node>, b: seq<Node>, c: seq<Node>, routeIndex: nat)
    requires OnlyAdds(a, b, routeIndex) && OnlyAdds(b, c, routeIndex)
    ensures OnlyAdds(a, c, routeIndex)
  {
  }

  lemma ExtendsTransitive(a: seq<Node>, b: seq<Node>, c: seq<Node>)
    requires Extends(a, b) && Extends(b, c)
    ensures Extends(a, c)
  {
    forall n | 0 <= n < |a| ensures NodeExtends(a[n], c[n]) {
      assert NodeExtends(a[n], b[n]) && NodeExtends(b[n], c[n]);
    }
  }

  // ---------------------------------------------------------------------------
  // collectCandidates

  /** The route indices at a node and in its catch-all child. */
  function EndIndices(nodes: seq<Node>, node: Node): seq<nat> {
    if node.wildcardCatchAllChild.Some? && node.wildcardCatchAllChild.value < |nodes|
    then nodes[node.wildcardCatchAllChild.value].routeIndices
    else []
  }

  /** `collectCandidates`: the candidate route indices for the remaining path
      segments, starting at node `n`. */
  function Collect(nodes: seq<Node>, n: nat, segments: seq<string>): seq<nat>
    decreases |segments|
  {
    if n >= |nodes| then []
    else
      var node := nodes[n];
      if segments == [] then node.routeIndices + EndIndices(nodes, node)
      else
        var segment := segments[0];
        (if segment in node.staticChildren then Collect(nodes, node.staticChildren[segment], segments[1..]) else [])
        + (if node.paramChild.Some? then Collect(nodes, node.paramChild.value, segments[1..]) else [])
        + (if node.wildcardSegmentChild.Some? then Collect(nodes, node.wildcardSegmentChild.value, segments[1..]) else [])
        + EndIndices(nodes, node)
  }

  /** Growing the tree never loses a candidate. */
  lemma {:induction false} CollectMonotone(a: seq<Node>, b: seq<Node>, n: nat, segments: seq<string>, x: nat)
    requires Extends(a, b)
    requires x in Collect(a, n, segments)
    ensures x in Collect(b, n, segments)
    decreases |segments|
  {
    var node := a[n];
    assert NodeExtends(node, b[n]);
    if segments == [] {
      if x !in node.routeIndices {
        assert x in EndIndices(a, node);
        var c := node.wildcardCatchAllChild.value;
        assert NodeExtends(a[c], b[c]);
      }
    } else {
      var segment := segments[0];
      var rest := segments[1..];
      if segment in node.staticChildren && x in Collect(a, node.staticChildren[segment], rest) {
        CollectMonotone(a, b, node.staticChildren[segment], rest, x);
      } else if node.paramChild.Some? && x in Collect(a, node.paramChild.value, rest) {
        CollectMonotone(a, b, node.paramChild.value, rest, x);
      } else if node.wildcardSegmentChild.Some? && x in Collect(a, node.wildcardSegmentChild.value, rest) {
        CollectMonotone(a, b, node.wildcardSegmentChild.value, rest, x);
      } else {
        assert x in EndIndices(a, node);
        var c := node.wildcardCatchAllChild.value;
        assert NodeExtends(a[c], b[c]);
      }
    }
  }

  // ---------------------------------------------------------------------------
  // Structural matching: a path fits a pattern when matchPath would accept it
  // with every requirement met.

  ghost predicate Fits(pattern: seq<string>, path: seq<string>)
    decreases |pattern|
  {
    if pattern == [] then path == []
    else if IsWildcardSegment(pattern[0]) then
      IsCatchAll(pattern[0], |pattern| == 1) || (path != [] && Fits(pattern[1..], path[1..]))
    else if path == [] then IsOptionalParam(pattern[0]) && Fits(pattern[1..], path)
    else if IsParamSegment(pattern[0]) then Fits(pattern[1..], path[1..])
    else pattern[0] == path[0] && Fits(pattern[1..], path[1..])
  }

  /** A successful match implies that the path fits the pattern. */
  lemma {:induction false} MatchFits(
    pattern: seq<string>, path: seq<string>, requirements: map<string, string>,
    regexMatch: RegexMatcher, params: map<string, string>)
    requires MatchSegments(pattern, path, requirements, regexMatch, params).Some?
    ensures Fits(pattern, path)
    decreases |pattern|
  {
    if pattern != [] {
      var part := pattern[0];
      if IsWildcardSegment(part) {
        var name := WildcardName(part);
        if !IsCatchAll(part, |pattern| == 1) {
          MatchFits(pattern[1..], path[1..], requirements, regexMatch, if name != [] then params[name := path[0]] else params);
        }
      } else if path == [] {
        MatchFits(pattern[1..], path, requirements, regexMatch, params);
      } else if IsParamSegment(part) {
        MatchFits(pattern[1..], path[1..], requirements, regexMatch, params[ParamName(part) := path[0]]);
      } else {
        MatchFits(pattern[1..], path[1..], requirements, regexMatch, params);
      }
    }
  }

  // ---------------------------------------------------------------------------
  // routeMayEndHere

  /** `routeMayEndHere`: whether a route may end before the remaining segments. */
  method RouteMayEndHere(remainingSegments: seq<string>) returns (r: bool)
    ensures r == Fits(remainingSegments, [])
  {
    if |remainingSegments| == 0 {
      return true;
    }
    var index := 0;
    while index < |remainingSegments|
      invariant 0 <= index <= |remainingSegments|
      invariant Fits(remainingSegments, []) == Fits(remainingSegments[index..], [])
    {
      var segment := remainingSegments[index];
      assert remainingSegments[index..][0] == segment;
      assert remainingSegments[index..][1..] == remainingSegments[index + 1..];
      if HasPrefix(segment, ":") {
        var paramName := TrimPrefix(segment, ":");
        if HasSuffix(paramName, "?") {
          index := index + 1;
          continue;
        }
        return false;
      }
      if HasPrefix(segment, "*") {
        var wildcardName := TrimPrefix(segment, "*");
        if HasSuffix(wildcardName, "...") {
          return true;
        }
        if index == |remainingSegments| - 1 {
          return true;
        }
        return false;
      }
      return false;
    }
    return true;
  }

  /** A route may end before the remaining segments exactly when they are
      optional parameters, possibly followed by one wildcard that captures the rest. */
  lemma {:induction false} MayEndHereShape(remaining: seq<string>)
    ensures Fits(remaining, []) <==>
      exists k :: 0 <= k <= |remaining| && OptionalRun(remaining, k)
        && (k == |remaining| || IsCatchAll(remaining[k], k == |remaining| - 1))
    decreases |remaining|
  {
    if remaining != [] {
      MayEndHereShape(remaining[1..]);
      if Fits(remaining, []) && !IsWildcardSegment(remaining[0]) {
        var k :| 0 <= k <= |remaining[1..]| && OptionalRun(remaining[1..], k)
          && (k == |remaining[1..]| || IsCatchAll(remaining[1..][k], k == |remaining[1..]| - 1));
        assert OptionalRun(remaining, k + 1);
      }
      if !Fits(remaining, []) {
        forall k | 0 <= k <= |remaining| && OptionalRun(remaining, k)
          ensures !(k == |remaining| || IsCatchAll(remaining[k], k == |remaining| - 1))
        {
          if k > 0 {
            assert OptionalRun(remaining[1..], k - 1);
            assert remaining[1..][k - 1..] == remaining[k..];
          }
        }
      }
    } else {
      assert OptionalRun(remaining, 0);
    }
  }

  /** The first `k` segments are optional parameters. */
  ghost predicate OptionalRun(segments: seq<string>, k: nat)
    requires k <= |segments|
  {
    forall m :: 0 <= m < k ==> IsOptionalParam(segments[m])
  }

  // ---------------------------------------------------------------------------
  // registerRouteInTree

  /** The kind of child that registration descends to for a segment that is
      not a catch-all. */
  function SegmentKind(segment: string): ChildKind {
    if IsParamSegment(segment) then ParamKind
    else if IsWildcardSegment(segment) then WildcardSegmentKind
    else StaticKind(segment)
  }

  function Link(node: Node, segment: string): Option<nat> {
    ChildOf(node, SegmentKind(segment))
  }

  lemma LinkMonotone(a: Node, b: Node, segment: string)
    requires NodeExtends(a, b) && Link(a, segment).Some?
    ensures Link(b, segment) == Link(a, segment)
  {
  }

  /** Appends a route index to a node. */
  function AppendIndex(nodes: seq<Node>, n: nat, routeIndex: nat): (r: seq<Node>)
    requires n < |nodes| && ValidNodes(nodes)
    ensures |r| == |nodes| && ValidNodes(r) && Extends(nodes, r) && OnlyAdds(nodes, r, routeIndex)
    ensures routeIndex in r[n].routeIndices
  {
    var node := nodes[n];
    var r := nodes[n := node.(routeIndices := node.routeIndices + [routeIndex])];
    assert forall m | 0 <= m < |r| :: NodeLinksIn(r[m], |r|) by {
      forall m | 0 <= m < |r| ensures NodeLinksIn(r[m], |r|) {
        assert NodeLinksIn(nodes[m], |nodes|);
      }
    }
    r
  }

  /** Adds a fresh node and links it from node `n` as the child for `kind`. */
  function AttachChild(nodes: seq<Node>, n: nat, kind: ChildKind, segment: string): (r: seq<Node>)
    requires n < |nodes| && ValidNodes(nodes) && ChildOf(nodes[n], kind).None?
    ensures |r| == |nodes| + 1 && ValidNodes(r) && Extends(nodes, r)
    ensures ChildOf(r[n], kind) == Some(|nodes|)
    ensures forall routeIndex: nat :: OnlyAdds(nodes, r, routeIndex)
  {
    var node := nodes[n];
    var child := |nodes|;
    var linked := match kind
      case StaticKind(key) => node.(staticChildren := node.staticChildren[key := child])
      case ParamKind => node.(paramChild := Some(child))
      case WildcardSegmentKind => node.(wildcardSegmentChild := Some(child))
      case CatchAllKind => node.(wildcardCatchAllChild := Some(child));
    var r := (nodes + [EmptyNode(segment)])[n := linked];
    assert forall m | 0 <= m < |r| :: NodeLinksIn(r[m], |r|) by {
      forall m | 0 <= m < |r| ensures NodeLinksIn(r[m], |r|) {
        if m < |nodes| { assert NodeLinksIn(nodes[m], |nodes|); }
      }
    }
    r
  }

  /** The four kinds of child a node has. */
  datatype ChildKind = StaticKind(key: string) | ParamKind | WildcardSegmentKind | CatchAllKind

  function ChildOf(node: Node, kind: ChildKind): Option<nat> {
    match kind
    case StaticKind(key) => if key in node.staticChildren then Some(node.staticChildren[key]) else None
    case ParamKind => node.paramChild
    case WildcardSegmentKind => node.wildcardSegmentChild
    case CatchAllKind => node.wildcardCatchAllChild
  }

  /** What registration has established along the nodes `trail` it walked for the
      first `k` segments of `pattern`. */
  ghost predicate TrailFacts(nodes: seq<Node>, trail: seq<nat>, pattern: seq<string>, routeIndex: nat, k: nat)
  {
    k <= |pattern| && |trail| == k + 1
    && (forall m | 0 <= m <= k :: trail[m] < |nodes|)
    && (forall m | 0 <= m < k :: !IsCatchAll(pattern[m], m == |pattern| - 1))
    && (forall m | 0 <= m < k :: Link(nodes[trail[m]], pattern[m]) == Some(trail[m + 1]))
    && (forall m | 0 <= m < k :: IsOptionalParam(pattern[m]) && Fits(pattern[m..], []) ==> routeIndex in nodes[trail[m]].routeIndices)
  }

  /** Registration has finished: the route is recorded at the node the whole
      pattern leads to, or in the catch-all child where a catch-all stopped it. */
  ghost predicate TrailDone(nodes: seq<Node>, trail: seq<nat>, pattern: seq<string>, routeIndex: nat, k: nat)
  {
    TrailFacts(nodes, trail, pattern, routeIndex, k)
    && if k == |pattern| then routeIndex in nodes[trail[k]].routeIndices
       else
         IsCatchAll(pattern[k], k == |pattern| - 1)
         && nodes[trail[k]].wildcardCatchAllChild.Some?
         && nodes[trail[k]].wildcardCatchAllChild.value < |nodes|
         && routeIndex in nodes[nodes[trail[k]].wildcardCatchAllChild.value].routeIndices
  }

  lemma TrailFactsMonotone(a: seq<Node>, b: seq<Node>, trail: seq<nat>, pattern: seq<string>, routeIndex: nat, k: nat)
    requires TrailFacts(a, trail, pattern, routeIndex, k) && Extends(a, b)
    ensures TrailFacts(b, trail, pattern, routeIndex, k)
  {
    forall m | 0 <= m < k ensures Link(b[trail[m]], pattern[m]) == Some(trail[m + 1]) {
      assert Link(a[trail[m]], pattern[m]) == Some(trail[m + 1]);
      assert NodeExtends(a[trail[m]], b[trail[m]]);
      LinkMonotone(a[trail[m]], b[trail[m]], pattern[m]);
    }
    forall m | 0 <= m < k && IsOptionalParam(pattern[m]) && Fits(pattern[m..], [])
      ensures routeIndex in b[trail[m]].routeIndices
    {
      assert NodeExtends(a[trail[m]], b[trail[m]]);
    }
  }

  /** Every path that fits the rest of the pattern from step `k` on reaches the
      route from the node registration walked to at step `k`. */
  lemma {:induction false} TrailCollects(
    nodes: seq<Node>, trail: seq<nat>, pattern: seq<string>, routeIndex: nat, done: nat, k: nat, path: seq<string>)
    requires TrailDone(nodes, trail, pattern, routeIndex, done)
    requires k <= done && Fits(pattern[k..], path)
    ensures routeIndex in Collect(nodes, trail[k], path)
    decreases done - k, |path|
  {
    var node := nodes[trail[k]];
    if k == done {
      if k == |pattern| {
        assert pattern[k..] == [];
      }
    } else {
      var segment := pattern[k];
      assert pattern[k..][0] == segment;
      assert pattern[k..][1..] == pattern[k + 1..];
      assert Link(node, segment) == Some(trail[k + 1]);
      if IsWildcardSegment(segment) {
        assert !IsCatchAll(segment, k == |pattern| - 1);
        TrailCollects(nodes, trail, pattern, routeIndex, done, k + 1, path[1..]);
      } else if path == [] {
        assert routeIndex in node.routeIndices;
      } else if IsParamSegment(segment) {
        TrailCollects(nodes, trail, pattern, routeIndex, done, k + 1, path[1..]);
      } else {
        assert segment == path[0];
        TrailCollects(nodes, trail, pattern, routeIndex, done, k + 1, path[1..]);
      }
    }
  }

  /** One registration step that descended to `child` keeps the trail facts;
      `recorded` is the tree after the optional-parameter check. */
  lemma StepFacts(
    origin: seq<Node>, before: seq<Node>, recorded: seq<Node>, after: seq<Node>,
    trail: seq<nat>, pattern: seq<string>, routeIndex: nat, k: nat, child: nat)
    requires Extends(origin, before) && Extends(before, recorded) && Extends(recorded, after)
    requires TrailFacts(before, trail, pattern, routeIndex, k) && k < |pattern|
    requires !IsCatchAll(pattern[k], k == |pattern| - 1)
    requires Link(after[trail[k]], pattern[k]) == Some(child) && child < |after|
    requires IsOptionalParam(pattern[k]) && Fits(pattern[k..], []) ==> routeIndex in recorded[trail[k]].routeIndices
    requires k == |pattern| - 1 ==> routeIndex in after[child].routeIndices
    ensures Extends(origin, after)
    ensures TrailFacts(after, trail + [child], pattern, routeIndex, k + 1)
    ensures k + 1 == |pattern| ==> TrailDone(after, trail + [child], pattern, routeIndex, k + 1)
  {
    ExtendsTransitive(before, recorded, after);
    ExtendsTransitive(origin, before, after);
    TrailFactsMonotone(before, after, trail, pattern, routeIndex, k);
    if IsOptionalParam(pattern[k]) && Fits(pattern[k..], []) {
      IndexKept(recorded[trail[k]], after[trail[k]], routeIndex);
    }
    var t := trail + [child];
    assert forall m | 0 <= m <= k :: t[m] == trail[m];
  }

  /** Recording the route in a catch-all child finishes registration. */
  lemma CatchAllFacts(
    origin: seq<Node>, before: seq<Node>, after: seq<Node>,
    trail: seq<nat>, pattern: seq<string>, routeIndex: nat, k: nat)
    requires Extends(origin, before) && Extends(before, after)
    requires TrailFacts(before, trail, pattern, routeIndex, k) && k < |pattern|
    requires IsCatchAll(pattern[k], k == |pattern| - 1)
    requires after[trail[k]].wildcardCatchAllChild.Some?
    requires after[trail[k]].wildcardCatchAllChild.value < |after|
    requires routeIndex in after[after[trail[k]].wildcardCatchAllChild.value].routeIndices
    ensures Extends(origin, after)
    ensures TrailDone(after, trail, pattern, routeIndex, k)
  {
    ExtendsTransitive(origin, before, after);
    TrailFactsMonotone(before, after, trail, pattern, routeIndex, k);
  }

  lemma TrailCollectsAll(nodes: seq<Node>, trail: seq<nat>, pattern: seq<string>, routeIndex: nat, done: nat)
    requires TrailDone(nodes, trail, pattern, routeIndex, done) && trail[0] == 0
    ensures forall path :: Fits(pattern, path) ==> routeIndex in Collect(nodes, 0, path)
  {
    forall path | Fits(pattern, path) ensures routeIndex in Collect(nodes, 0, path) {
      assert pattern[0..] == pattern;
      TrailCollects(nodes, trail, pattern, routeIndex, done, 0, path);
    }
  }

  /** A candidate comes from some node of the tree. */
  lemma {:induction false} CollectFromNodes(nodes: seq<Node>, n: nat, segments: seq<string>, x: nat)
    requires x in Collect(nodes, n, segments)
    ensures exists m :: 0 <= m < |nodes| && x in nodes[m].routeIndices
    decreases |segments|
  {
    var node := nodes[n];
    if segments == [] {
      if x !in node.routeIndices {
        assert x in nodes[node.wildcardCatchAllChild.value].routeIndices;
      }
    } else {
      var segment := segments[0];
      var rest := segments[1..];
      if segment in node.staticChildren && x in Collect(nodes, node.staticChildren[segment], rest) {
        CollectFromNodes(nodes, node.staticChildren[segment], rest, x);
      } else if node.paramChild.Some? && x in Collect(nodes, node.paramChild.value, rest) {
        CollectFromNodes(nodes, node.paramChild.value, rest, x);
      } else if node.wildcardSegmentChild.Some? && x in Collect(nodes, node.wildcardSegmentChild.value, rest) {
        CollectFromNodes(nodes, node.wildcardSegmentChild.value, rest, x);
      } else {
        assert x in nodes[node.wildcardCatchAllChild.value].routeIndices;
      }
    }
  }

  // ---------------------------------------------------------------------------
  // addRoute

  /** `RouteOptions`. */
  datatype RouteOptions = RouteOptions(
    name: string,
    methods: seq<string>,
    host: string,
    schemes: seq<string>,
    requirements: map<string, string>,
    defaults: map<string, string>,
    locales: seq<string>,
    priority: int,
    attributes: map<string, Attribute>)

  const NoOptions := RouteOptions([], [], [], [], map[], map[], [], 0, map[])

  /** The panics of route registration. */
  datatype RouteError =
    | NilHandler(pattern: string)
    | InvalidRequirement(parameterName: string, regex: string)
    | DuplicateRouteName(routeName: string)

  /** A requirement anchored at both ends. */
  function Anchor(value: string): (r: string)
    ensures HasPrefix(r, "^") && HasSuffix(r, "$")
    ensures HasPrefix(value, "^") && HasSuffix(value, "$") ==> r == value
  {
    var started := if HasPrefix(value, "^") then value else "^" + value;
    if HasSuffix(started, "$") then started else started + "$"
  }

  lemma AnchorIdempotent(value: string)
    ensures Anchor(Anchor(value)) == Anchor(value)
  {
  }

  /** The requirements that registration compiles: non-empty names and values. */
  predicate HasRequirement(requirements: map<string, string>, key: string) {
    key in requirements && key != [] && requirements[key] != []
  }

  /** A requirement whose anchored regex does not compile. */
  predicate BadRequirement(requirements: map<string, string>, regexValid: string -> bool, key: string) {
    HasRequirement(requirements, key) && !regexValid(Anchor(requirements[key]))
  }

  function CompiledRequirements(requirements: map<string, string>): (r: map<string, string>)
    ensures forall k :: k in r <==> HasRequirement(requirements, k)
    ensures forall k | k in r :: k in requirements && r[k] == Anchor(requirements[k])
  {
    map k | k in requirements && HasRequirement(requirements, k) :: Anchor(requirements[k])
  }

  /** The entries of a map whose key is not empty. */
  function NonEmptyKeys<V>(m: map<string, V>): (r: map<string, V>)
    ensures forall k :: k in r <==> k in m && k != []
    ensures forall k | k in r :: r[k] == m[k]
  {
    map k | k in m && k != [] :: m[k]
  }

  /** The attribute keys registration sets itself. */
  predicate IsReservedAttribute(key: string) {
    key == RouteAttributeName || key == RouteAttributePattern || key == RouteAttributeMethods
    || key == RouteAttributeHost || key == RouteAttributeSchemes || key == RouteAttributeLocales
  }

  /** The attributes of a registered route: the caller's, without an empty key,
      overlaid with the route's name, pattern, methods, host, schemes and locales. */
  function RouteAttributes(options: RouteOptions, normalizedPattern: string): (r: map<string, Attribute>)
    ensures forall k | k in r :: k != []
    ensures RouteAttributePattern in r && r[RouteAttributePattern] == AttrString(normalizedPattern)
    ensures options.name != [] ==> RouteAttributeName in r && r[RouteAttributeName] == AttrString(options.name)
    ensures |options.methods| > 0 ==> RouteAttributeMethods in r && r[RouteAttributeMethods] == AttrStrings(options.methods)
    ensures options.host != [] ==> RouteAttributeHost in r && r[RouteAttributeHost] == AttrString(options.host)
    ensures |options.schemes| > 0 ==> RouteAttributeSchemes in r && r[RouteAttributeSchemes] == AttrStrings(options.schemes)
    ensures |options.locales| > 0 ==> RouteAttributeLocales in r && r[RouteAttributeLocales] == AttrStrings(options.locales)
    ensures forall k | k != [] && !IsReservedAttribute(k) :: (k in r <==> k in options.attributes)
    ensures forall k | k in r && !IsReservedAttribute(k) :: r[k] == options.attributes[k]
  {
    var own := NonEmptyKeys(options.attributes);
    var named := if options.name != [] then own[RouteAttributeName := AttrString(options.name)] else own;
    var patterned := named[RouteAttributePattern := AttrString(normalizedPattern)];
    var methods := if |options.methods| > 0 then patterned[RouteAttributeMethods := AttrStrings(options.methods)] else patterned;
    var hosted := if options.host != [] then methods[RouteAttributeHost := AttrString(options.host)] else methods;
    var schemed := if |options.schemes| > 0 then hosted[RouteAttributeSchemes := AttrStrings(options.schemes)] else hosted;
    if |options.locales| > 0 then schemed[RouteAttributeLocales := AttrStrings(options.locales)] else schemed
  }

  /** The normalized pattern: the parts joined by "/", and "/" for none. */
  function NormalizedPattern(parts: seq<string>): (r: string)
    requires |parts| >= 1 && parts[0] == []
    ensures r != [] && r[0] == '/'
  {
    var joined := Join(parts, "/");
    if joined == [] then "/" else joined
  }

  /** The route that registration stores. */
  function BuildRoute(pattern: string, handler: Handler, options: RouteOptions): Route {
    var parts := SplitPath(pattern);
    var normalizedPattern := NormalizedPattern(parts);
    Route(
      options.name, normalizedPattern, parts, handler, options.methods, options.host, options.schemes,
      CompiledRequirements(options.requirements), NonEmptyKeys(options.defaults), options.locales,
      options.priority, RouteAttributes(options, normalizedPattern))
  }

  /** A route is in the tree when its pattern has at least one segment. */
  predicate HasSegments(route: Route) {
    |route.parts| >= 2
  }

  /** Compiles the requirements in map order, stopping at the first one whose
      anchored regex is invalid. */
  method CompileRequirements(requirements: map<string, string>, regexValid: string -> bool)
    returns (r: Result<map<string, string>, string>)
    ensures r.Ok? <==> forall k :: !BadRequirement(requirements, regexValid, k)
    ensures r.Ok? ==> r.value == CompiledRequirements(requirements)
    ensures r.Err? ==> BadRequirement(requirements, regexValid, r.error)
  {
    var compiled: map<string, string> := map[];
    var remaining := requirements.Keys;
    while remaining != {}
      invariant remaining <= requirements.Keys
      invariant forall k | k in requirements && k !in remaining :: !BadRequirement(requirements, regexValid, k)
      invariant forall k :: k in compiled <==> HasRequirement(requirements, k) && k !in remaining
      invariant forall k | k in compiled :: k in requirements && compiled[k] == Anchor(requirements[k])
      decreases |remaining|
    {
      var key :| key in remaining;
      remaining := remaining - {key};
      if key == [] {
        continue;
      }
      var value := requirements[key];
      if value == [] {
        continue;
      }
      var patternValue := value;
      if !HasPrefix(patternValue, "^") {
        patternValue := "^" + patternValue;
      }
      if !HasSuffix(patternValue, "$") {
        patternValue := patternValue + "$";
      }
      assert patternValue == Anchor(value);
      if !regexValid(patternValue) {
        assert BadRequirement(requirements, regexValid, key);
        return Err(key);
      }
      compiled := compiled[key := patternValue];
    }
    var expected := CompiledRequirements(requirements);
    assert forall k :: k in compiled <==> k in expected;
    return Ok(compiled);
  }

  // ---------------------------------------------------------------------------
  // match

  /** The parameters `matchPath` captures, if the route's pattern accepts the path. */
  function PathParams(route: Route, pathParts: seq<string>, regexMatch: RegexMatcher): Option<map<string, string>> {
    MatchSegments(route.parts, pathParts, route.requirements, regexMatch, map[])
  }

  /** A route with locales needs a non-empty, listed `_locale` parameter. */
  predicate LocaleAllowed(route: Route, params: map<string, string>) {
    var localeValue := if RouteAttributeLocale in params then params[RouteAttributeLocale] else [];
    |route.locales| == 0 || (localeValue != [] && localeValue in route.locales)
  }

  /** Every index in the tree is a registered route with at least one segment. */
  ghost predicate IndicesRegistered(nodes: seq<Node>, routes: seq<Route>) {
    forall n | 0 <= n < |nodes| :: forall x | x in nodes[n].routeIndices :: RegisteredIndex(routes, x)
  }

  predicate RegisteredIndex(routes: seq<Route>, x: nat) {
    x < |routes| && HasSegments(routes[x])
  }

  /** The tree loses no route: every path that fits a route's pattern reaches it. */
  ghost predicate Complete(nodes: seq<Node>, routes: seq<Route>) {
    forall r, path | 0 <= r < |routes| && HasSegments(routes[r]) && Fits(routes[r].parts[1..], path) ::
      r in Collect(nodes, 0, path)
  }

  /** Indexing a new route keeps every tree index registered. */
  lemma IndicesAfterRegistration(nodes0: seq<Node>, nodes1: seq<Node>, routes0: seq<Route>, route: Route)
    requires IndicesRegistered(nodes0, routes0)
    requires OnlyAdds(nodes0, nodes1, |routes0|)
    requires !HasSegments(route) ==> NoneAdded(nodes0, nodes1)
    ensures IndicesRegistered(nodes1, routes0 + [route])
  {
    var routes1 := routes0 + [route];
    forall n, x | 0 <= n < |nodes1| && x in nodes1[n].routeIndices
      ensures RegisteredIndex(routes1, x)
    {
      if n < |nodes0| && x in nodes0[n].routeIndices {
        assert RegisteredIndex(routes0, x);
        assert routes1[x] == routes0[x];
      } else {
        assert x == |routes0|;
      }
    }
  }

  /** Indexing a new route for every path that fits it keeps the tree complete. */
  lemma CompleteAfterRegistration(nodes0: seq<Node>, nodes1: seq<Node>, routes0: seq<Route>, route: Route)
    requires Complete(nodes0, routes0) && Extends(nodes0, nodes1)
    requires HasSegments(route) ==> forall path :: Fits(route.parts[1..], path) ==> |routes0| in Collect(nodes1, 0, path)
    ensures Complete(nodes1, routes0 + [route])
  {
    var routes1 := routes0 + [route];
    forall r, path | 0 <= r < |routes1| && HasSegments(routes1[r]) && Fits(routes1[r].parts[1..], path)
      ensures r in Collect(nodes1, 0, path)
    {
      if r < |routes0| {
        assert routes0[r] == routes1[r];
        CollectMonotone(nodes0, nodes1, 0, path, r);
      }
    }
  }

  /** The parts of a request that matching reads; `pathParts` is the split path. */
  datatype MatchRequest = MatchRequest(verb: string, pathParts: seq<string>, host: string, scheme: string)

  /** The route accepts the request apart from its method. */
  predicate Reaches(route: Route, request: MatchRequest, regexMatch: RegexMatcher) {
    MatchesHost(route.host, request.host) && MatchesScheme(route.schemes, request.scheme)
    && PathParams(route, request.pathParts, regexMatch).Some?
    && LocaleAllowed(route, PathParams(route, request.pathParts, regexMatch).value)
  }

  predicate Accepts(route: Route, request: MatchRequest, regexMatch: RegexMatcher) {
    Reaches(route, request, regexMatch) && MatchesMethod(route.methods, request.verb)
  }

  /** The parameters with the defaults filled in where a parameter is missing. */
  function WithDefaults(params: map<string, string>, defaults: map<string, string>): (r: map<string, string>)
    ensures r.Keys == params.Keys + defaults.Keys
    ensures forall k | k in params :: r[k] == params[k]
    ensures forall k | k in defaults && k !in params :: r[k] == defaults[k]
  {
    map k | k in params.Keys + defaults.Keys :: if k in params then params[k] else defaults[k]
  }

  /** Route `r` is in the tree and accepts the request. */
  ghost predicate Matching(routes: seq<Route>, r: nat, request: MatchRequest, regexMatch: RegexMatcher) {
    r < |routes| && HasSegments(routes[r]) && Accepts(routes[r], request, regexMatch)
  }

  /** Route `r` is the one `match` picks: a matching route of the highest
      priority, registered first among the matching routes of that priority. */
  ghost predicate IsBest(routes: seq<Route>, r: nat, request: MatchRequest, regexMatch: RegexMatcher) {
    Matching(routes, r, request, regexMatch)
    && forall q: nat | Matching(routes, q, request, regexMatch) :: BeatenBy(routes, q, r)
  }

  /** At most one route is the best. */
  lemma BestUnique(routes: seq<Route>, a: nat, b: nat, request: MatchRequest, regexMatch: RegexMatcher)
    requires IsBest(routes, a, request, regexMatch) && IsBest(routes, b, request, regexMatch)
    ensures a == b
  {
  }

  /** The methods of the routes in the tree that accept everything about the
      request but its method. */
  ghost function AllowedMethods(routes: seq<Route>, request: MatchRequest, regexMatch: RegexMatcher): set<string> {
    set r, m | 0 <= r < |routes| && HasSegments(routes[r]) && Reaches(routes[r], request, regexMatch)
      && !MatchesMethod(routes[r].methods, request.verb) && m in routes[r].methods :: m
  }

  /** Route `x` fails only on the method and allows method `m`. */
  predicate Contributes(routes: seq<Route>, x: nat, request: MatchRequest, regexMatch: RegexMatcher, m: string) {
    x < |routes| && Reaches(routes[x], request, regexMatch)
    && !MatchesMethod(routes[x].methods, request.verb) && m in routes[x].methods
  }

  /** The allowed methods contributed by a list of candidates. */
  ghost function AllowedAmong(routes: seq<Route>, candidates: seq<nat>, request: MatchRequest, regexMatch: RegexMatcher): (r: set<string>)
    ensures forall m :: m in r <==> exists c :: 0 <= c < |candidates| && Contributes(routes, candidates[c], request, regexMatch, m)
  {
    if candidates == [] then {}
    else
      var last := candidates[|candidates| - 1];
      var earlier := candidates[..|candidates| - 1];
      var r := AllowedAmong(routes, earlier, request, regexMatch)
        + if last < |routes| && Reaches(routes[last], request, regexMatch) && !MatchesMethod(routes[last].methods, request.verb)
          then set m | m in routes[last].methods else {};
      assert forall c | 0 <= c < |earlier| :: earlier[c] == candidates[c];
      r
  }

  /** What `match` makes of one candidate. */
  datatype Outcome = Rejected | WrongMethod(methods: seq<string>) | Accepted(params: map<string, string>)

  function CandidateOutcome(route: Route, request: MatchRequest, regexMatch: RegexMatcher): Outcome {
    if !Reaches(route, request, regexMatch) then Rejected
    else if !MatchesMethod(route.methods, request.verb) then WrongMethod(route.methods)
    else Accepted(WithDefaults(PathParams(route, request.pathParts, regexMatch).value, route.defaults))
  }

  /** Route `x` exists and accepts the request. */
  predicate Picks(routes: seq<Route>, x: nat, request: MatchRequest, regexMatch: RegexMatcher) {
    x < |routes| && Accepts(routes[x], request, regexMatch)
  }

  /** What the candidate loop of `match` has gathered so far. */
  datatype ScanState = ScanState(hasBest: bool, bestIndex: nat, allowed: set<string>)

  /** One candidate: allowed methods are gathered, an accepted route of higher
      priority, or of equal priority and lower index, becomes the best. */
  function Step(routes: seq<Route>, st: ScanState, x: nat, request: MatchRequest, regexMatch: RegexMatcher): ScanState {
    if x >= |routes| then st
    else
      match CandidateOutcome(routes[x], request, regexMatch)
      case Rejected => st
      case WrongMethod(methods) => st.(allowed := st.allowed + set m | m in methods)
      case Accepted(_) =>
        if !st.hasBest || st.bestIndex >= |routes| || routes[x].priority > routes[st.bestIndex].priority
          || (routes[x].priority == routes[st.bestIndex].priority && x < st.bestIndex)
        then st.(hasBest := true, bestIndex := x)
        else st
  }

  /** The candidate loop over a list of candidates, in order. */
  function Scan(routes: seq<Route>, candidates: seq<nat>, request: MatchRequest, regexMatch: RegexMatcher): ScanState
    decreases |candidates|
  {
    if candidates == [] then ScanState(false, 0, {})
    else
      Step(routes, Scan(routes, candidates[..|candidates| - 1], request, regexMatch),
        candidates[|candidates| - 1], request, regexMatch)
  }

  /** What `match` answers for a request: a handler exactly when some route
      matches, and then the best route's handler, parameters with their defaults
      and attributes; otherwise no parameters and, when some routes failed only
      on the method, their methods sorted under the methods attribute. */
  ghost predicate MatchAnswers(routes: seq<Route>, request: MatchRequest, regexMatch: RegexMatcher,
                               handler: Option<Handler>, params: Option<map<string, string>>, attributes: map<string, Attribute>)
  {
    (handler.Some? <==> exists r: nat :: Matching(routes, r, request, regexMatch))
    && (handler.Some? ==> exists r: nat ::
          IsBest(routes, r, request, regexMatch) && handler.value == routes[r].handler
          && params == Some(WithDefaults(PathParams(routes[r], request.pathParts, regexMatch).value, routes[r].defaults))
          && attributes == routes[r].attributes)
    && (handler.None? ==> (params.None?
          && (AllowedMethods(routes, request, regexMatch) == {} ==> attributes == map[])
          && (AllowedMethods(routes, request, regexMatch) != {} ==>
                attributes.Keys == {RouteAttributeMethods} && attributes[RouteAttributeMethods].AttrStrings?
                && StrictlySorted(attributes[RouteAttributeMethods].list)
                && forall m :: m in attributes[RouteAttributeMethods].list <==> m in AllowedMethods(routes, request, regexMatch))))
  }

  /** The candidate loop gathers the methods of the candidates that fail only on the method. */
  lemma {:induction false} ScanAllowed(routes: seq<Route>, candidates: seq<nat>, request: MatchRequest, regexMatch: RegexMatcher)
    ensures Scan(routes, candidates, request, regexMatch).allowed == AllowedAmong(routes, candidates, request, regexMatch)
  {
    if candidates != [] {
      ScanAllowed(routes, candidates[..|candidates| - 1], request, regexMatch);
    }
  }

  /** The candidate loop finds an accepting candidate exactly when there is one. */
  lemma {:induction false} ScanFinds(routes: seq<Route>, candidates: seq<nat>, request: MatchRequest, regexMatch: RegexMatcher)
    ensures Scan(routes, candidates, request, regexMatch).hasBest <==>
      exists c :: 0 <= c < |candidates| && Picks(routes, candidates[c], request, regexMatch)
  {
    if candidates != [] {
      var earlier := candidates[..|candidates| - 1];
      ScanFinds(routes, earlier, request, regexMatch);
      if Scan(routes, earlier, request, regexMatch).hasBest {
        var c :| 0 <= c < |earlier| && Picks(routes, earlier[c], request, regexMatch);
        assert candidates[c] == earlier[c];
      }
      assert forall c | 0 <= c < |earlier| :: earlier[c] == candidates[c];
    }
  }

  /** The best candidate accepts the request and is of the highest priority and,
      among those, of the lowest index. */
  lemma {:induction false} ScanBest(routes: seq<Route>, candidates: seq<nat>, request: MatchRequest, regexMatch: RegexMatcher)
    ensures var st := Scan(routes, candidates, request, regexMatch);
      st.hasBest ==>
        Picks(routes, st.bestIndex, request, regexMatch) && st.bestIndex in candidates
        && forall c | 0 <= c < |candidates| && Picks(routes, candidates[c], request, regexMatch) ::
             BeatenBy(routes, candidates[c], st.bestIndex)
  {
    if candidates != [] {
      var earlier := candidates[..|candidates| - 1];
      var x := candidates[|candidates| - 1];
      ScanBest(routes, earlier, request, regexMatch);
      assert forall c | 0 <= c < |earlier| :: earlier[c] == candidates[c];
      assert candidates == earlier + [x];
      var before := Scan(routes, earlier, request, regexMatch);
      var st := Scan(routes, candidates, request, regexMatch);
      if st.hasBest {
        forall c | 0 <= c < |candidates| && Picks(routes, candidates[c], request, regexMatch)
          ensures BeatenBy(routes, candidates[c], st.bestIndex)
        {
          if c < |earlier| {
            assert Picks(routes, earlier[c], request, regexMatch);
            ScanFinds(routes, earlier, request, regexMatch);
            assert BeatenBy(routes, earlier[c], before.bestIndex);
          }
        }
      }
    }
  }

  /** Route `q` ranks no higher than route `r`: lower priority, or the same
      priority and registered no earlier. */
  predicate BeatenBy(routes: seq<Route>, q: nat, r: nat)
    requires q < |routes| && r < |routes|
  {
    routes[q].priority < routes[r].priority || (routes[q].priority == routes[r].priority && r <= q)
  }

  /** Fills the missing parameters from the defaults, key by key. */
  method FillDefaults(params: map<string, string>, defaults: map<string, string>) returns (r: map<string, string>)
    ensures r == WithDefaults(params, defaults)
  {
    r := params;
    var remaining := defaults.Keys;
    while remaining != {}
      invariant remaining <= defaults.Keys
      invariant forall k :: k in r <==> k in params || (k in defaults && k !in remaining)
      invariant forall k | k in r :: r[k] == if k in params then params[k] else defaults[k]
      decreases |remaining|
    {
      var key :| key in remaining;
      remaining := remaining - {key};
      if key !in r {
        r := r[key := defaults[key]];
      }
    }
    var filled := WithDefaults(params, defaults);
    assert forall k :: k in r <==> k in filled;
  }

  // ---------------------------------------------------------------------------
  // The router

  /** What the router keeps true: the tree is well formed, every route's
      pattern starts at the root, the tree holds exactly the routes with
      segments, and `routeByName` holds exactly the named routes, whose names
      are unique. */
  ghost predicate RouterInvariant(nodes: seq<Node>, routes: seq<Route>, routeByName: map<string, Route>) {
    ValidNodes(nodes)
    && (forall r | 0 <= r < |routes| :: |routes[r].parts| >= 1 && routes[r].parts[0] == [])
    && (nodes == [] ==> forall r | 0 <= r < |routes| :: !HasSegments(routes[r]))
    && IndicesRegistered(nodes, routes)
    && Complete(nodes, routes)
    && NamesRegistered(routes, routeByName)
  }

  /** `routeByName` holds exactly the named routes, and names are unique. */
  ghost predicate NamesRegistered(routes: seq<Route>, routeByName: map<string, Route>) {
    (forall name | name in routeByName :: name != [] && routeByName[name].name == name && routeByName[name] in routes)
    && (forall r | 0 <= r < |routes| && routes[r].name != [] ::
          routes[r].name in routeByName && routeByName[routes[r].name] == routes[r])
    && (forall i, j | 0 <= i < j < |routes| && routes[i].name != [] :: routes[i].name != routes[j].name)
  }

  /** A new name joins the registered names. */
  lemma NamesStillRegistered(before: seq<Route>, beforeByName: map<string, Route>, route: Route)
    requires NamesRegistered(before, beforeByName)
    requires route.name != [] ==> route.name !in beforeByName
    ensures NamesRegistered(before + [route], if route.name != [] then beforeByName[route.name := route] else beforeByName)
  {
    var routes := before + [route];
    assert forall r | 0 <= r < |before| :: routes[r] == before[r];
  }

  /** Registering a route, after the root is created and its segments are
      inserted, keeps the invariant. */
  lemma RegistrationKeepsInvariant(nodes0: seq<Node>, rooted: seq<Node>, nodes1: seq<Node>,
                                   routes0: seq<Route>, byName0: map<string, Route>, route: Route)
    requires RouterInvariant(nodes0, routes0, byName0)
    requires |route.parts| >= 1 && route.parts[0] == []
    requires route.name != [] ==> route.name !in byName0
    requires rooted == if nodes0 == [] then [EmptyNode([])] else nodes0
    requires ValidNodes(nodes1) && Extends(rooted, nodes1) && OnlyAdds(rooted, nodes1, |routes0|)
    requires route.parts[1..] == [] ==> nodes1 == rooted
    requires route.parts[1..] != [] ==>
      forall path :: Fits(route.parts[1..], path) ==> |routes0| in Collect(nodes1, 0, path)
    ensures RouterInvariant(nodes1, routes0 + [route],
      if route.name != [] then byName0[route.name := route] else byName0)
    ensures Extends(nodes0, nodes1)
  {
    assert Extends(nodes0, rooted) && NoneAdded(nodes0, rooted) && Complete(rooted, routes0);
    ExtendsTransitive(nodes0, rooted, nodes1);
    assert OnlyAdds(nodes0, rooted, |routes0|);
    OnlyAddsTransitive(nodes0, rooted, nodes1, |routes0|);
    IndicesAfterRegistration(nodes0, nodes1, routes0, route);
    CompleteAfterRegistration(rooted, nodes1, routes0, route);
    NamesStillRegistered(routes0, byName0, route);
  }

  class Router {
    /** The route registry's list, in registration order. */
    var routes: seq<Route>
    /** The route registry's index by non-empty name. */
    var routeByName: map<string, Route>
    /** The route tree; empty until the first route is added. */
    var nodes: seq<Node>

    ghost predicate Valid()
      reads this
    {
      RouterInvariant(nodes, routes, routeByName)
    }

    constructor ()
      ensures Valid() && routes == [] && routeByName == map[] && nodes == []
    {
      routes := [];
      routeByName := map[];
      nodes := [];
    }

    /** `registerRouteInTree`, starting at the root. */
    method RegisterRouteInTree(patternSegments: seq<string>, routeIndex: nat)
      requires ValidNodes(nodes) && |nodes| > 0
      modifies this
      ensures ValidNodes(nodes) && Extends(old(nodes), nodes)
      ensures routes == old(routes) && routeByName == old(routeByName) && OnlyAdds(old(nodes), nodes, routeIndex)
      ensures patternSegments == [] ==> nodes == old(nodes)
      ensures patternSegments != [] ==>
        forall path :: Fits(patternSegments, path) ==> routeIndex in Collect(nodes, 0, path)
    {
      ghost var nodes0 := nodes;
      var currentNode: nat := 0;
      ghost var trail: seq<nat> := [0];
      var segmentIndex := 0;
      while segmentIndex < |patternSegments|
        invariant ValidNodes(nodes) && Extends(nodes0, nodes)
        invariant TrailFacts(nodes, trail, patternSegments, routeIndex, segmentIndex)
        invariant currentNode == trail[segmentIndex] && trail[0] == 0
        invariant routes == old(routes) && routeByName == old(routeByName) && OnlyAdds(nodes0, nodes, routeIndex)
        invariant segmentIndex == 0 ==> nodes == nodes0
        invariant segmentIndex > 0 && segmentIndex == |patternSegments| ==> TrailDone(nodes, trail, patternSegments, routeIndex, segmentIndex)
      {
        ghost var before := nodes;
        var isLast := segmentIndex == |patternSegments| - 1;
        var child, finished, recorded := RegisterSegment(currentNode, patternSegments[segmentIndex..], isLast, routeIndex);
        OnlyAddsTransitive(nodes0, before, nodes, routeIndex);
        assert patternSegments[segmentIndex..][0] == patternSegments[segmentIndex];
        if finished {
          CatchAllFacts(nodes0, before, nodes, trail, patternSegments, routeIndex, segmentIndex);
          TrailCollectsAll(nodes, trail, patternSegments, routeIndex, segmentIndex);
          return;
        }
        currentNode := child;
        StepFacts(nodes0, before, recorded, nodes, trail, patternSegments, routeIndex, segmentIndex, currentNode);
        trail := trail + [currentNode];
        segmentIndex := segmentIndex + 1;
      }
      if patternSegments != [] {
        TrailCollectsAll(nodes, trail, patternSegments, routeIndex, segmentIndex);
      }
    }

    /** The body of the registration loop for the first of the remaining
        segments. It reports `finished` when the segment is a catch-all, which
        ends registration. `recorded` is the tree after the optional-parameter check. */
    method RegisterSegment(currentNode: nat, remaining: seq<string>, isLast: bool, routeIndex: nat)
      returns (child: nat, finished: bool, ghost recorded: seq<Node>)
      requires ValidNodes(nodes) && currentNode < |nodes| && remaining != []
      modifies this
      ensures ValidNodes(nodes) && Extends(old(nodes), recorded) && Extends(recorded, nodes)
      ensures routes == old(routes) && routeByName == old(routeByName) && OnlyAdds(old(nodes), nodes, routeIndex)
      ensures finished <==> IsCatchAll(remaining[0], isLast)
      ensures finished ==>
        nodes[currentNode].wildcardCatchAllChild.Some?
        && nodes[currentNode].wildcardCatchAllChild.value < |nodes|
        && routeIndex in nodes[nodes[currentNode].wildcardCatchAllChild.value].routeIndices
      ensures !finished ==> child < |nodes| && Link(nodes[currentNode], remaining[0]) == Some(child)
      ensures !finished && isLast ==> routeIndex in nodes[child].routeIndices
      ensures IsOptionalParam(remaining[0]) && Fits(remaining, []) ==> routeIndex in recorded[currentNode].routeIndices
    {
      var segment := remaining[0];
      recorded := nodes;
      finished := false;
      child := 0;
      if HasPrefix(segment, ":") {
        var paramName := TrimPrefix(segment, ":");
        if HasSuffix(paramName, "?") {
          paramName := TrimSuffix(paramName, "?");
          RecordIfRouteMayEnd(currentNode, remaining, routeIndex);
        }
        recorded := nodes;
        child := DescendTo(currentNode, ParamKind, ":" + paramName, isLast, routeIndex);
        return;
      }
      if HasPrefix(segment, "*") {
        var wildcardName := TrimPrefix(segment, "*");
        var isCatchAll := false;
        if HasSuffix(wildcardName, "...") {
          isCatchAll := true;
          wildcardName := TrimSuffix(wildcardName, "...");
        }
        if isLast {
          isCatchAll := true;
        }
        if isCatchAll {
          RecordCatchAll(currentNode, wildcardName, routeIndex);
          finished := true;
          return;
        }
        child := DescendTo(currentNode, WildcardSegmentKind, "*" + wildcardName, isLast, routeIndex);
        return;
      }
      child := DescendTo(currentNode, StaticKind(segment), segment, isLast, routeIndex);
    }

    /** Records the route at the current node when an optional parameter and
        everything after it may be absent. */
    method RecordIfRouteMayEnd(currentNode: nat, remaining: seq<string>, routeIndex: nat)
      requires ValidNodes(nodes) && currentNode < |nodes|
      modifies this
      ensures ValidNodes(nodes) && Extends(old(nodes), nodes) && |nodes| == |old(nodes)|
      ensures routes == old(routes) && routeByName == old(routeByName) && OnlyAdds(old(nodes), nodes, routeIndex)
      ensures Fits(remaining, []) ==> routeIndex in nodes[currentNode].routeIndices
    {
      var mayEnd := RouteMayEndHere(remaining);
      if mayEnd {
        nodes := AppendIndex(nodes, currentNode, routeIndex);
      }
    }

    /** Moves to the child of the given kind, creating it with `segment` when
        absent, and records the route there when the segment is the last one. */
    method DescendTo(currentNode: nat, kind: ChildKind, segment: string, isLast: bool, routeIndex: nat)
      returns (child: nat)
      requires ValidNodes(nodes) && currentNode < |nodes|
      modifies this
      ensures ValidNodes(nodes) && Extends(old(nodes), nodes) && child < |nodes|
      ensures routes == old(routes) && routeByName == old(routeByName) && OnlyAdds(old(nodes), nodes, routeIndex)
      ensures ChildOf(nodes[currentNode], kind) == Some(child)
      ensures isLast ==> routeIndex in nodes[child].routeIndices
    {
      ghost var start := nodes;
      if ChildOf(nodes[currentNode], kind).None? {
        nodes := AttachChild(nodes, currentNode, kind, segment);
      }
      ghost var linked := nodes;
      child := ChildOf(nodes[currentNode], kind).value;
      if isLast {
        nodes := AppendIndex(nodes, child, routeIndex);
      }
      assert NodeExtends(linked[currentNode], nodes[currentNode]);
      ExtendsTransitive(start, linked, nodes);
    }

    /** The catch-all step of registration: records the route in the catch-all child. */
    method RecordCatchAll(currentNode: nat, wildcardName: string, routeIndex: nat)
      requires ValidNodes(nodes) && currentNode < |nodes|
      modifies this
      ensures ValidNodes(nodes) && Extends(old(nodes), nodes)
      ensures routes == old(routes) && routeByName == old(routeByName) && OnlyAdds(old(nodes), nodes, routeIndex)
      ensures nodes[currentNode].wildcardCatchAllChild.Some?
      ensures nodes[currentNode].wildcardCatchAllChild.value < |nodes|
      ensures routeIndex in nodes[nodes[currentNode].wildcardCatchAllChild.value].routeIndices
    {
      ghost var start := nodes;
      if nodes[currentNode].wildcardCatchAllChild.None? {
        nodes := AttachChild(nodes, currentNode, CatchAllKind, "*" + wildcardName + "...");
      }
      ghost var linked := nodes;
      var child := nodes[currentNode].wildcardCatchAllChild.value;
      nodes := AppendIndex(nodes, child, routeIndex);
      assert NodeExtends(linked[currentNode], nodes[currentNode]);
      ExtendsTransitive(start, linked, nodes);
    }
  
    /** `addRoute` with the route registry's `registerRoute`. A panic is an error
        result that leaves the router as it was. */
    method AddRoute(pattern: string, handler: Option<Handler>, options: Option<RouteOptions>, regexValid: string -> bool)
      returns (err: Option<RouteError>)
      requires Valid()
      modifies this
      ensures Valid()
      ensures handler.None? ==> err == Some(NilHandler(pattern))
      ensures handler.Some? && (exists k :: BadRequirement(options.GetOr(NoOptions).requirements, regexValid, k)) ==>
        err.Some? && err.value.InvalidRequirement?
        && BadRequirement(options.GetOr(NoOptions).requirements, regexValid, err.value.parameterName)
        && err.value.regex == options.GetOr(NoOptions).requirements[err.value.parameterName]
      ensures handler.Some? && (forall k :: !BadRequirement(options.GetOr(NoOptions).requirements, regexValid, k)) ==>
        err == if options.GetOr(NoOptions).name != [] && options.GetOr(NoOptions).name in old(routeByName)
               then Some(DuplicateRouteName(options.GetOr(NoOptions).name)) else None
      ensures err.Some? ==> routes == old(routes) && routeByName == old(routeByName) && nodes == old(nodes)
      ensures err.None? ==>
        var route := BuildRoute(pattern, handler.value, options.GetOr(NoOptions));
        routes == old(routes) + [route]
        && routeByName == (if route.name != [] then old(routeByName)[route.name := route] else old(routeByName))
        && Extends(old(nodes), nodes)
    {
      if handler.None? {
        return Some(NilHandler(pattern));
      }
      var opts := options.GetOr(NoOptions);
      var parts := SplitPath(pattern);
      var normalizedPattern := NormalizedPattern(parts);
      var compiled := CompileRequirements(opts.requirements, regexValid);
      if compiled.Err? {
        return Some(InvalidRequirement(compiled.error, opts.requirements[compiled.error]));
      }
      var route := Route(
        opts.name, normalizedPattern, parts, handler.value, opts.methods, opts.host, opts.schemes,
        compiled.value, NonEmptyKeys(opts.defaults), opts.locales, opts.priority,
        RouteAttributes(opts, normalizedPattern));
      if route.name != [] && route.name in routeByName {
        return Some(DuplicateRouteName(route.name));
      }
      Register(route);
      return None;
    }

    /** Appends a route that passed the registration checks and indexes it in the tree. */
    method Register(route: Route)
      requires Valid()
      requires |route.parts| >= 1 && route.parts[0] == []
      requires route.name != [] ==> route.name !in routeByName
      modifies this
      ensures Valid()
      ensures routes == old(routes) + [route]
      ensures routeByName == (if route.name != [] then old(routeByName)[route.name := route] else old(routeByName))
      ensures Extends(old(nodes), nodes)
    {
      ghost var nodes0, routes0, byName0 := nodes, routes, routeByName;
      routes := routes + [route];
      if route.name != [] {
        routeByName := routeByName[route.name := route];
      }
      var routeIndex := |routes| - 1;
      if nodes == [] {
        nodes := [EmptyNode([])];
      }
      ghost var rooted := nodes;
      var patternSegments := route.parts[1..];
      RegisterRouteInTree(patternSegments, routeIndex);
      RegistrationKeepsInvariant(nodes0, rooted, nodes, routes0, byName0, route);
    }

    /** The candidates `findRouteCandidates` collects for the split path. */
    function FindRouteCandidates(pathSegments: seq<string>): seq<nat>
      reads this
    {
      if nodes == [] then [] else Collect(nodes, 0, pathSegments)
    }

    /** Every matching route, and every route that fails only on its method, is a
        candidate; every candidate is a registered route in the tree. */
    lemma CandidatesExact(request: MatchRequest, regexMatch: RegexMatcher)
      requires Valid() && |request.pathParts| >= 1 && request.pathParts[0] == []
      ensures forall x | x in FindRouteCandidates(request.pathParts[1..]) :: x < |routes| && HasSegments(routes[x])
      ensures forall r | 0 <= r < |routes| && HasSegments(routes[r]) && Reaches(routes[r], request, regexMatch) ::
        r in FindRouteCandidates(request.pathParts[1..])
    {
      var segments := request.pathParts[1..];
      forall x | x in FindRouteCandidates(segments) ensures x < |routes| && HasSegments(routes[x]) {
        CollectFromNodes(nodes, 0, segments, x);
        var m :| 0 <= m < |nodes| && x in nodes[m].routeIndices;
        assert RegisteredIndex(routes, x);
      }
      forall r | 0 <= r < |routes| && HasSegments(routes[r]) && Reaches(routes[r], request, regexMatch)
        ensures r in FindRouteCandidates(segments)
      {
        var route := routes[r];
        MatchFits(route.parts, request.pathParts, route.requirements, regexMatch, map[]);
        assert Fits(route.parts[1..], segments);
      }
    }

    /** One pass of the candidate loop: the outcome for the candidate route. */
    method EvaluateCandidate(index: nat, request: MatchRequest, regexMatch: RegexMatcher) returns (outcome: Outcome)
      requires index < |routes|
      ensures outcome == CandidateOutcome(routes[index], request, regexMatch)
    {
      var routeDefinition := routes[index];
      if !MatchesHost(routeDefinition.host, request.host) {
        return Rejected;
      }
      if !MatchesScheme(routeDefinition.schemes, request.scheme) {
        return Rejected;
      }
      var params := MatchPath(routeDefinition, request.pathParts, regexMatch);
      if params.None? {
        return Rejected;
      }
      if |routeDefinition.locales| != 0 {
        var localeValue := [];
        if RouteAttributeLocale in params.value {
          localeValue := params.value[RouteAttributeLocale];
        }
        if localeValue == [] {
          return Rejected;
        }
        if !ListContains(routeDefinition.locales, localeValue) {
          return Rejected;
        }
      }
      if !MatchesMethod(routeDefinition.methods, request.verb) {
        return WrongMethod(routeDefinition.methods);
      }
      var filled := FillDefaults(params.value, routeDefinition.defaults);
      return Accepted(filled);
    }

    /** `match`: the best matching route's handler, parameters and attributes; or,
        with no match, the allowed methods of the routes that failed only on the
        method. */
    method Match(verb: string, path: string, host: string, scheme: string, regexMatch: RegexMatcher)
      returns (handler: Option<Handler>, params: Option<map<string, string>>, attributes: map<string, Attribute>)
      requires Valid()
      ensures MatchAnswers(routes, MatchRequest(verb, SplitPath(path), host, scheme), regexMatch, handler, params, attributes)
    {
      var pathParts := SplitPath(path);
      var request := MatchRequest(verb, pathParts, host, scheme);
      var pathSegments := pathParts[1..];
      var candidates := FindRouteCandidates(pathSegments);
      if |candidates| == 0 {
        NoCandidateAnswer(request, regexMatch);
        return None, None, map[];
      }
      var hasBest, bestIndex, bestHandler, bestParams, bestAttributes, allowedMethodsSet :=
        RankCandidates(candidates, request, regexMatch);
      if !hasBest {
        if 0 < |allowedMethodsSet| {
          var allowedMethods := SortedSetElements(allowedMethodsSet);
          UnmatchedAnswer(candidates, request, regexMatch, bestIndex, allowedMethodsSet, Some(allowedMethods));
          return None, None, map[RouteAttributeMethods := AttrStrings(allowedMethods)];
        }
        UnmatchedAnswer(candidates, request, regexMatch, bestIndex, allowedMethodsSet, None);
        return None, None, map[];
      }
      MatchedAnswer(candidates, request, regexMatch, bestIndex, allowedMethodsSet);
      return bestHandler, Some(bestParams), bestAttributes;
    }

    /** No candidate: nothing matches and no method is allowed. */
    lemma NoCandidateAnswer(request: MatchRequest, regexMatch: RegexMatcher)
      requires Valid() && |request.pathParts| >= 1 && request.pathParts[0] == []
      requires |FindRouteCandidates(request.pathParts[1..])| == 0
      ensures MatchAnswers(routes, request, regexMatch, None, None, map[])
    {
      var candidates := FindRouteCandidates(request.pathParts[1..]);
      CandidatesExact(request, regexMatch);
      AllowedFromCandidates(candidates, request, regexMatch);
      NoCandidateMatching(candidates, request, regexMatch);
    }

    /** No candidate accepts: the answer lists the allowed methods, sorted, if any. */
    lemma UnmatchedAnswer(candidates: seq<nat>, request: MatchRequest, regexMatch: RegexMatcher,
                          bestIndex: nat, allowedMethodsSet: set<string>, allowedMethods: Option<seq<string>>)
      requires Valid() && |request.pathParts| >= 1 && request.pathParts[0] == []
      requires candidates == FindRouteCandidates(request.pathParts[1..])
      requires ScanState(false, bestIndex, allowedMethodsSet) == Scan(routes, candidates, request, regexMatch)
      requires allowedMethods.Some? <==> 0 < |allowedMethodsSet|
      requires allowedMethods.Some? ==>
        StrictlySorted(allowedMethods.value) && forall x :: x in allowedMethods.value <==> x in allowedMethodsSet
      ensures MatchAnswers(routes, request, regexMatch, None, None,
        if allowedMethods.Some? then map[RouteAttributeMethods := AttrStrings(allowedMethods.value)] else map[])
    {
      UnmatchedNone(candidates, request, regexMatch, bestIndex, allowedMethodsSet);
      UnmatchedAllowed(candidates, request, regexMatch, bestIndex, allowedMethodsSet);
    }

    lemma UnmatchedNone(candidates: seq<nat>, request: MatchRequest, regexMatch: RegexMatcher,
                        bestIndex: nat, allowedMethodsSet: set<string>)
      requires Valid() && |request.pathParts| >= 1 && request.pathParts[0] == []
      requires candidates == FindRouteCandidates(request.pathParts[1..])
      requires ScanState(false, bestIndex, allowedMethodsSet) == Scan(routes, candidates, request, regexMatch)
      ensures forall r: nat :: !Matching(routes, r, request, regexMatch)
    {
      CandidatesExact(request, regexMatch);
      ScanFinds(routes, candidates, request, regexMatch);
      MatchingIsPicked(candidates, request, regexMatch);
    }

    lemma UnmatchedAllowed(candidates: seq<nat>, request: MatchRequest, regexMatch: RegexMatcher,
                           bestIndex: nat, allowedMethodsSet: set<string>)
      requires Valid() && |request.pathParts| >= 1 && request.pathParts[0] == []
      requires candidates == FindRouteCandidates(request.pathParts[1..])
      requires ScanState(false, bestIndex, allowedMethodsSet) == Scan(routes, candidates, request, regexMatch)
      ensures allowedMethodsSet == AllowedMethods(routes, request, regexMatch)
    {
      CandidatesExact(request, regexMatch);
      ScanAllowed(routes, candidates, request, regexMatch);
      AllowedFromCandidates(candidates, request, regexMatch);
    }

    /** A candidate accepts: the answer is the best route's. */
    lemma MatchedAnswer(candidates: seq<nat>, request: MatchRequest, regexMatch: RegexMatcher,
                        bestIndex: nat, allowedMethodsSet: set<string>)
      requires Valid() && |request.pathParts| >= 1 && request.pathParts[0] == []
      requires candidates == FindRouteCandidates(request.pathParts[1..])
      requires ScanState(true, bestIndex, allowedMethodsSet) == Scan(routes, candidates, request, regexMatch)
      requires Picks(routes, bestIndex, request, regexMatch)
      ensures MatchAnswers(routes, request, regexMatch, Some(routes[bestIndex].handler),
        Some(WithDefaults(PathParams(routes[bestIndex], request.pathParts, regexMatch).value, routes[bestIndex].defaults)),
        routes[bestIndex].attributes)
    {
      CandidatesExact(request, regexMatch);
      ScanFinds(routes, candidates, request, regexMatch);
      MatchingIsPicked(candidates, request, regexMatch);
      ScanBest(routes, candidates, request, regexMatch);
      BestFromCandidates(candidates, bestIndex, request, regexMatch);
    }

    /** The candidate loop of `match`: it ranks the accepting candidates and
        gathers the allowed methods of those that fail only on the method. */
    method RankCandidates(candidates: seq<nat>, request: MatchRequest, regexMatch: RegexMatcher)
      returns (hasBest: bool, bestIndex: nat, bestHandler: Option<Handler>, bestParams: map<string, string>,
               bestAttributes: map<string, Attribute>, allowedMethodsSet: set<string>)
      ensures ScanState(hasBest, bestIndex, allowedMethodsSet) == Scan(routes, candidates, request, regexMatch)
      ensures hasBest ==>
        Picks(routes, bestIndex, request, regexMatch)
        && bestHandler == Some(routes[bestIndex].handler)
        && bestParams == WithDefaults(PathParams(routes[bestIndex], request.pathParts, regexMatch).value, routes[bestIndex].defaults)
        && bestAttributes == routes[bestIndex].attributes
    {
      bestHandler, bestParams, bestAttributes, allowedMethodsSet := None, map[], map[], {};
      var bestPriority := 0;
      bestIndex, hasBest := 0, false;
      var ci := 0;
      while ci < |candidates|
        invariant 0 <= ci <= |candidates|
        invariant ScanState(hasBest, bestIndex, allowedMethodsSet) == Scan(routes, candidates[..ci], request, regexMatch)
        invariant hasBest ==>
          Picks(routes, bestIndex, request, regexMatch)
          && bestPriority == routes[bestIndex].priority
          && bestHandler == Some(routes[bestIndex].handler)
          && bestParams == WithDefaults(PathParams(routes[bestIndex], request.pathParts, regexMatch).value, routes[bestIndex].defaults)
          && bestAttributes == routes[bestIndex].attributes
      {
        var index := candidates[ci];
        assert candidates[..ci + 1][..ci] == candidates[..ci];
        if index < |routes| {
          var outcome := EvaluateCandidate(index, request, regexMatch);
          if outcome.WrongMethod? {
            allowedMethodsSet := allowedMethodsSet + set m | m in outcome.methods;
          } else if outcome.Accepted? {
            var routeDefinition := routes[index];
            if !hasBest || routeDefinition.priority > bestPriority
              || (routeDefinition.priority == bestPriority && index < bestIndex) {
              bestHandler := Some(routeDefinition.handler);
              bestParams := outcome.params;
              bestAttributes := routeDefinition.attributes;
              bestPriority := routeDefinition.priority;
              bestIndex := index;
              hasBest := true;
            }
          }
        }
        ci := ci + 1;
      }
      assert candidates[..ci] == candidates;
    }

    /** With no candidates no route matches. */
    lemma NoCandidateMatching(candidates: seq<nat>, request: MatchRequest, regexMatch: RegexMatcher)
      requires candidates == []
      requires forall r | 0 <= r < |routes| && HasSegments(routes[r]) && Reaches(routes[r], request, regexMatch) :: r in candidates
      ensures forall r: nat :: !Matching(routes, r, request, regexMatch)
    {
    }

    /** Every matching route is a candidate the loop picks. */
    lemma MatchingIsPicked(candidates: seq<nat>, request: MatchRequest, regexMatch: RegexMatcher)
      requires forall r | 0 <= r < |routes| && HasSegments(routes[r]) && Reaches(routes[r], request, regexMatch) :: r in candidates
      ensures forall r: nat | Matching(routes, r, request, regexMatch) ::
        exists c :: 0 <= c < |candidates| && Picks(routes, candidates[c], request, regexMatch)
    {
      forall r: nat | Matching(routes, r, request, regexMatch)
        ensures exists c :: 0 <= c < |candidates| && Picks(routes, candidates[c], request, regexMatch)
      {
        var c :| 0 <= c < |candidates| && candidates[c] == r;
        assert Picks(routes, candidates[c], request, regexMatch);
      }
    }

    lemma AllowedFromCandidates(candidates: seq<nat>, request: MatchRequest, regexMatch: RegexMatcher)
      requires forall x | x in candidates :: x < |routes| && HasSegments(routes[x])
      requires forall r | 0 <= r < |routes| && HasSegments(routes[r]) && Reaches(routes[r], request, regexMatch) :: r in candidates
      ensures AllowedAmong(routes, candidates, request, regexMatch) == AllowedMethods(routes, request, regexMatch)
    {
      var among := AllowedAmong(routes, candidates, request, regexMatch);
      var all := AllowedMethods(routes, request, regexMatch);
      forall m | m in all ensures m in among {
        var r :| 0 <= r < |routes| && HasSegments(routes[r]) && Reaches(routes[r], request, regexMatch)
          && !MatchesMethod(routes[r].methods, request.verb) && m in routes[r].methods;
        var c :| 0 <= c < |candidates| && candidates[c] == r;
        assert Contributes(routes, candidates[c], request, regexMatch, m);
      }
      forall m | m in among ensures m in all {
        var c :| 0 <= c < |candidates| && Contributes(routes, candidates[c], request, regexMatch, m);
        assert candidates[c] in candidates;
      }
    }

    lemma BestFromCandidates(candidates: seq<nat>, best: nat, request: MatchRequest, regexMatch: RegexMatcher)
      requires forall x | x in candidates :: x < |routes| && HasSegments(routes[x])
      requires forall r | 0 <= r < |routes| && HasSegments(routes[r]) && Reaches(routes[r], request, regexMatch) :: r in candidates
      requires Picks(routes, best, request, regexMatch) && best in candidates
      requires forall c | 0 <= c < |candidates| && Picks(routes, candidates[c], request, regexMatch) ::
        BeatenBy(routes, candidates[c], best)
      ensures IsBest(routes, best, request, regexMatch)
    {
      forall q: nat | Matching(routes, q, request, regexMatch)
        ensures BeatenBy(routes, q, best)
      {
        var c :| 0 <= c < |candidates| && candidates[c] == q;
        assert Picks(routes, candidates[c], request, regexMatch);
      }
    }
  }
}
