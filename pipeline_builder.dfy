/** The HTTP middleware pipeline builder of v2: definitions are selected for
    the kernel environment and the requested group, ordered by their "after"
    and "before" references (ready definitions by priority, then name), and
    their factories are called in that order. A factory's outcome for the
    kernel is part of its definition. */
module PipelineBuilder {
  import opened Wrappers
  import opened Strings

  /** What a middleware factory returns for the kernel: a middleware, nil, or an error. */
  datatype FactoryResult = Built(middleware: nat) | NilMiddleware | FactoryFailed

  datatype Definition = Definition(
    name: string,
    priority: int,
    after: seq<string>,
    before: seq<string>,
    enabledEnvironments: seq<string>,
    groups: seq<string>,
    allowDuplicates: bool,
    replaceExisting: bool,
    factory: Option<FactoryResult>)

  datatype InactiveMiddleware = InactiveMiddleware(name: string, reason: string)

  const ReasonEmptyName: string := "skipped: empty name"
  const ReasonEnvironmentMismatch: string := "disabled: environment mismatch"
  const ReasonGroupMismatch: string := "disabled: group mismatch"
  const ReasonDuplicate: string := "skipped: duplicate definition"

  datatype BuildReport = BuildReport(
    requestedGroup: string,
    kernelEnv: string,
    selectedNames: seq<string>,
    inactive: seq<InactiveMiddleware>,
    missingReferences: seq<string>,
    cycleDetected: bool)

  datatype BuildError =
    | PipelineCycle(group: string)
    | MissingReferences(group: string, references: seq<string>)
    | NilFactory(middlewareName: string)
    | FactoryError(middlewareName: string)

  // ---------------------------------------------------------------------------
  // Selection

  /** `isEnabledForEnvironment` as a predicate: no list, or the environment is listed. */
  predicate EnabledForEnvironment(definition: Definition, environment: string) {
    definition.enabledEnvironments == [] || environment in definition.enabledEnvironments
  }

  /** `isEnabledForGroup` as a predicate: a blank group, no list, or the group is listed. */
  predicate EnabledForGroup(definition: Definition, group: string) {
    TrimSpace(group) == [] || definition.groups == [] || group in definition.groups
  }

  method IsEnabledForEnvironment(definition: Definition, environment: string) returns (enabled: bool)
    ensures enabled <==> EnabledForEnvironment(definition, environment)
  {
    if |definition.enabledEnvironments| == 0 {
      return true;
    }
    var index := 0;
    while index < |definition.enabledEnvironments|
      invariant 0 <= index <= |definition.enabledEnvironments|
      invariant environment !in definition.enabledEnvironments[..index]
    {
      if definition.enabledEnvironments[index] == environment {
        return true;
      }
      assert definition.enabledEnvironments[..index + 1] == definition.enabledEnvironments[..index] + [definition.enabledEnvironments[index]];
      index := index + 1;
    }
    assert definition.enabledEnvironments[..index] == definition.enabledEnvironments;
    return false;
  }

  method IsEnabledForGroup(definition: Definition, group: string) returns (enabled: bool)
    ensures enabled <==> EnabledForGroup(definition, group)
  {
    if TrimSpace(group) == [] {
      return true;
    }
    if |definition.groups| == 0 {
      return true;
    }
    var index := 0;
    while index < |definition.groups|
      invariant 0 <= index <= |definition.groups|
      invariant group !in definition.groups[..index]
    {
      if definition.groups[index] == group {
        return true;
      }
      assert definition.groups[..index + 1] == definition.groups[..index] + [definition.groups[index]];
      index := index + 1;
    }
    assert definition.groups[..index] == definition.groups;
    return false;
  }

  /** The state of the selection loop: the selected list, the index of the
      first selected definition of each name, and the skipped ones. */
  datatype Selection = Selection(selected: seq<Definition>, seen: map<string, nat>, inactive: seq<InactiveMiddleware>)

  predicate SeenValid(s: Selection) {
    forall name | name in s.seen :: s.seen[name] < |s.selected| && s.selected[s.seen[name]].name == name
  }

  /** One turn of the selection loop. */
  function SelectStep(s: Selection, definition: Definition, environment: string, group: string): (r: Selection)
    requires SeenValid(s)
    ensures SeenValid(r)
  {
    if definition.name == [] then
      s.(inactive := s.inactive + [InactiveMiddleware([], ReasonEmptyName)])
    else if !EnabledForEnvironment(definition, environment) then
      s.(inactive := s.inactive + [InactiveMiddleware(definition.name, ReasonEnvironmentMismatch)])
    else if !EnabledForGroup(definition, group) then
      s.(inactive := s.inactive + [InactiveMiddleware(definition.name, ReasonGroupMismatch)])
    else if definition.name in s.seen && !definition.allowDuplicates then
      if definition.replaceExisting then s.(selected := s.selected[s.seen[definition.name] := definition])
      else s.(inactive := s.inactive + [InactiveMiddleware(definition.name, ReasonDuplicate)])
    else if definition.name !in s.seen then
      Selection(s.selected + [definition], s.seen[definition.name := |s.selected|], s.inactive)
    else
      s.(selected := s.selected + [definition])
  }

  /** `selectDefinitions` as a function: the selection loop over all definitions. */
  function Select(definitions: seq<Definition>, environment: string, group: string): (r: Selection)
    ensures SeenValid(r)
    decreases |definitions|
  {
    if definitions == [] then Selection([], map[], [])
    else SelectStep(Select(definitions[..|definitions| - 1], environment, group), definitions[|definitions| - 1], environment, group)
  }

  method SelectDefinitions(definitions: seq<Definition>, environment: string, group: string)
    returns (selected: seq<Definition>, inactive: seq<InactiveMiddleware>)
    ensures selected == Select(definitions, environment, group).selected
    ensures inactive == Select(definitions, environment, group).inactive
  {
    if |definitions| == 0 {
      return [], [];
    }
    selected := [];
    inactive := [];
    var seen: map<string, nat> := map[];
    var index := 0;
    while index < |definitions|
      invariant 0 <= index <= |definitions|
      invariant Selection(selected, seen, inactive) == Select(definitions[..index], environment, group)
    {
      var definition := definitions[index];
      assert definitions[..index + 1][..index] == definitions[..index];
      if definition.name == [] {
        inactive := inactive + [InactiveMiddleware([], ReasonEmptyName)];
      } else {
        var environmentEnabled := IsEnabledForEnvironment(definition, environment);
        var groupEnabled := IsEnabledForGroup(definition, group);
        if !environmentEnabled {
          inactive := inactive + [InactiveMiddleware(definition.name, ReasonEnvironmentMismatch)];
        } else if !groupEnabled {
          inactive := inactive + [InactiveMiddleware(definition.name, ReasonGroupMismatch)];
        } else if definition.name in seen && !definition.allowDuplicates {
          if definition.replaceExisting {
            selected := selected[seen[definition.name] := definition];
          } else {
            inactive := inactive + [InactiveMiddleware(definition.name, ReasonDuplicate)];
          }
        } else {
          if definition.name !in seen {
            seen := seen[definition.name := |selected|];
          }
          selected := selected + [definition];
        }
      }
      index := index + 1;
    }
    assert definitions[..index] == definitions;
  }

  // ---------------------------------------------------------------------------
  // Properties of the selection

  predicate Active(definition: Definition, environment: string, group: string) {
    definition.name != [] && EnabledForEnvironment(definition, environment) && EnabledForGroup(definition, group)
  }

  /** Only named, enabled definitions from the input are selected, and every
      name of an enabled definition is among the selected ones. */
  lemma {:induction false} SelectedAreActive(definitions: seq<Definition>, environment: string, group: string)
    ensures var r := Select(definitions, environment, group);
      forall k | 0 <= k < |r.selected| :: r.selected[k] in definitions && Active(r.selected[k], environment, group)
    ensures var r := Select(definitions, environment, group);
      forall d | d in definitions && Active(d, environment, group) :: d.name in r.seen
  {
    SelectedFromInput(definitions, environment, group);
    ActiveAreSeen(definitions, environment, group);
  }

  /** One turn keeps the selected entries or adds the active definition. */
  lemma StepSelected(s: Selection, d: Definition, environment: string, group: string)
    requires SeenValid(s)
    ensures var r := SelectStep(s, d, environment, group);
      forall k | 0 <= k < |r.selected| ::
        (k < |s.selected| && r.selected[k] == s.selected[k]) || (r.selected[k] == d && Active(d, environment, group))
  {
  }

  /** One turn keeps every seen name and sees the name of an active definition. */
  lemma StepSeen(s: Selection, d: Definition, environment: string, group: string)
    requires SeenValid(s)
    ensures var r := SelectStep(s, d, environment, group);
      s.seen.Keys <= r.seen.Keys && (Active(d, environment, group) ==> d.name in r.seen)
  {
  }

  lemma {:induction false} SelectedFromInput(definitions: seq<Definition>, environment: string, group: string)
    ensures forall k | 0 <= k < |Select(definitions, environment, group).selected| ::
      Select(definitions, environment, group).selected[k] in definitions
      && Active(Select(definitions, environment, group).selected[k], environment, group)
    decreases |definitions|
  {
    if definitions != [] {
      var init := definitions[..|definitions| - 1];
      var last := definitions[|definitions| - 1];
      SelectedFromInput(init, environment, group);
      var s := Select(init, environment, group);
      var r := Select(definitions, environment, group);
      assert r == SelectStep(s, last, environment, group);
      StepSelected(s, last, environment, group);
      forall k | 0 <= k < |r.selected| ensures r.selected[k] in definitions && Active(r.selected[k], environment, group) {
        if k < |s.selected| && r.selected[k] == s.selected[k] {
          var j :| 0 <= j < |init| && init[j] == s.selected[k];
          assert definitions[j] == init[j];
        } else {
          assert definitions[|definitions| - 1] == last;
        }
      }
    }
  }

  lemma {:induction false} ActiveAreSeen(definitions: seq<Definition>, environment: string, group: string)
    ensures var r := Select(definitions, environment, group);
      forall d | d in definitions && Active(d, environment, group) :: d.name in r.seen
    decreases |definitions|
  {
    if definitions != [] {
      var init := definitions[..|definitions| - 1];
      var last := definitions[|definitions| - 1];
      ActiveAreSeen(init, environment, group);
      var s := Select(init, environment, group);
      var r := Select(definitions, environment, group);
      assert r == SelectStep(s, last, environment, group);
      StepSeen(s, last, environment, group);
      forall d | d in definitions && Active(d, environment, group) ensures d.name in r.seen {
        var j :| 0 <= j < |definitions| && definitions[j] == d;
        if j < |init| {
          assert init[j] == d;
        }
      }
    }
  }

  /** Every definition skipped for its name, environment or group is reported with that reason. */
  lemma {:induction false} SkippedAreReported(definitions: seq<Definition>, environment: string, group: string, i: nat)
    requires i < |definitions|
    ensures var d := definitions[i]; var inactive := Select(definitions, environment, group).inactive;
      (d.name == [] ==> InactiveMiddleware([], ReasonEmptyName) in inactive)
      && (d.name != [] && !EnabledForEnvironment(d, environment) ==> InactiveMiddleware(d.name, ReasonEnvironmentMismatch) in inactive)
      && (d.name != [] && EnabledForEnvironment(d, environment) && !EnabledForGroup(d, group) ==>
            InactiveMiddleware(d.name, ReasonGroupMismatch) in inactive)
    decreases |definitions|
  {
    var init := definitions[..|definitions| - 1];
    if i < |definitions| - 1 {
      SkippedAreReported(init, environment, group, i);
      assert init[i] == definitions[i];
    }
  }

  /** Every selected name is recorded in `seen`, and no name is selected twice. */
  predicate UniqueNames(s: Selection) {
    (forall k | 0 <= k < |s.selected| :: s.selected[k].name in s.seen)
    && forall k, m | 0 <= k < m < |s.selected| :: s.selected[k].name != s.selected[m].name
  }

  lemma StepKeepsNamesUnique(s: Selection, d: Definition, environment: string, group: string)
    requires SeenValid(s) && UniqueNames(s) && !d.allowDuplicates
    ensures UniqueNames(SelectStep(s, d, environment, group))
  {
    var r := SelectStep(s, d, environment, group);
    if !Active(d, environment, group) || (d.name in s.seen && !d.replaceExisting) {
      assert r.selected == s.selected && r.seen == s.seen;
    } else if d.name in s.seen {
      assert r == s.(selected := s.selected[s.seen[d.name] := d]);
      ReplaceKeepsNamesUnique(s, d);
    } else {
      assert r == Selection(s.selected + [d], s.seen[d.name := |s.selected|], s.inactive);
      AppendKeepsNamesUnique(s, d);
    }
  }

  lemma ReplaceKeepsNamesUnique(s: Selection, d: Definition)
    requires SeenValid(s) && UniqueNames(s) && d.name in s.seen
    ensures UniqueNames(s.(selected := s.selected[s.seen[d.name] := d]))
  {
    var r := s.(selected := s.selected[s.seen[d.name] := d]);
    assert forall k | 0 <= k < |r.selected| :: r.selected[k].name == s.selected[k].name;
  }

  lemma AppendKeepsNamesUnique(s: Selection, d: Definition)
    requires SeenValid(s) && UniqueNames(s) && d.name !in s.seen
    ensures UniqueNames(Selection(s.selected + [d], s.seen[d.name := |s.selected|], s.inactive))
  {
    var r := Selection(s.selected + [d], s.seen[d.name := |s.selected|], s.inactive);
    assert forall k | 0 <= k < |s.selected| :: r.selected[k] == s.selected[k];
  }

  /** Without `allowDuplicates`, each name is selected once: a later duplicate
      either replaces the earlier definition in place or is skipped. */
  lemma {:induction false} SelectedNamesUnique(definitions: seq<Definition>, environment: string, group: string)
    requires forall k :: 0 <= k < |definitions| ==> !definitions[k].allowDuplicates
    ensures UniqueNames(Select(definitions, environment, group))
    decreases |definitions|
  {
    if definitions != [] {
      var init := definitions[..|definitions| - 1];
      SelectedNamesUnique(init, environment, group);
      StepKeepsNamesUnique(Select(init, environment, group), definitions[|definitions| - 1], environment, group);
    }
  }

  // ---------------------------------------------------------------------------
  // The reference graph

  /** An "after" or "before" reference: `from` must run before `to`. */
  datatype Link = Link(from: string, to: string)

  /** The node map of `orderDefinitions`: each named definition under its
      name, a later definition of the same name replacing an earlier one. */
  function NodesOf(definitions: seq<Definition>): (nodes: map<string, Definition>)
    ensures forall name | name in nodes :: name != [] && nodes[name].name == name && nodes[name] in definitions
    ensures forall k | 0 <= k < |definitions| && definitions[k].name != [] :: definitions[k].name in nodes
    decreases |definitions|
  {
    if definitions == [] then map[]
    else
      var init := definitions[..|definitions| - 1];
      var last := definitions[|definitions| - 1];
      var nodes := NodesOf(init);
      assert forall d | d in init :: d in definitions;
      assert forall k | 0 <= k < |init| :: definitions[k] == init[k];
      if last.name == [] then nodes else nodes[last.name := last]
  }

  /** The links from one definition's "after" list: each named predecessor before it. */
  function AfterLinks(name: string, after: seq<string>): seq<Link>
    decreases |after|
  {
    if after == [] then []
    else
      var previous := after[|after| - 1];
      AfterLinks(name, after[..|after| - 1]) + (if previous == [] then [] else [Link(previous, name)])
  }

  /** The links from one definition's "before" list: it before each named successor. */
  function BeforeLinks(name: string, before: seq<string>): seq<Link>
    decreases |before|
  {
    if before == [] then []
    else
      var next := before[|before| - 1];
      BeforeLinks(name, before[..|before| - 1]) + (if next == [] then [] else [Link(name, next)])
  }

  function DefinitionLinks(definition: Definition): seq<Link> {
    if definition.name == [] then []
    else AfterLinks(definition.name, definition.after) + BeforeLinks(definition.name, definition.before)
  }

  /** Every reference, in the order the edge loop visits them. */
  function LinksOf(definitions: seq<Definition>): seq<Link>
    decreases |definitions|
  {
    if definitions == [] then []
    else LinksOf(definitions[..|definitions| - 1]) + DefinitionLinks(definitions[|definitions| - 1])
  }

  predicate IsEdge(nodes: map<string, Definition>, link: Link) {
    link.from in nodes && link.to in nodes
  }

  /** The `out` list of node `n`: the targets of its edges, in order. */
  function Targets(links: seq<Link>, nodes: map<string, Definition>, n: string): (r: seq<string>)
    ensures forall k | 0 <= k < |r| :: r[k] in nodes
    decreases |links|
  {
    if links == [] then []
    else
      var last := links[|links| - 1];
      Targets(links[..|links| - 1], nodes, n) + (if last.from == n && IsEdge(nodes, last) then [last.to] else [])
  }

  /** An edge into `n` whose source has not been emitted. */
  predicate Pending(nodes: map<string, Definition>, link: Link, n: string, emitted: seq<string>) {
    link.to == n && IsEdge(nodes, link) && link.from !in emitted
  }

  /** The in-degree of `n` once the nodes in `emitted` are removed. */
  function Into(links: seq<Link>, nodes: map<string, Definition>, n: string, emitted: seq<string>): (r: nat)
    ensures r == 0 <==> forall k | 0 <= k < |links| :: !Pending(nodes, links[k], n, emitted)
    decreases |links|
  {
    if links == [] then 0
    else
      var init := links[..|links| - 1];
      var rest := Into(init, nodes, n, emitted);
      assert forall k | 0 <= k < |init| :: links[k] == init[k];
      rest + (if Pending(nodes, links[|links| - 1], n, emitted) then 1 else 0)
  }

  /** The references `addEdge` reports: the missing end of a link with exactly one known end. */
  function MissingOf(links: seq<Link>, nodes: map<string, Definition>): seq<string>
    decreases |links|
  {
    if links == [] then []
    else
      var last := links[|links| - 1];
      MissingOf(links[..|links| - 1], nodes)
        + (if last.from in nodes && last.to !in nodes then [last.to]
           else if last.from !in nodes && last.to in nodes then [last.from]
           else [])
  }

  /** The `nodes`, `out` and `inDegree` maps and the missing list after the links given. */
  predicate GraphState(nodes: map<string, Definition>, out: map<string, seq<string>>, inDegree: map<string, int>,
                       missing: seq<string>, links: seq<Link>) {
    out.Keys == nodes.Keys && inDegree.Keys == nodes.Keys
    && (forall n | n in nodes :: out[n] == Targets(links, nodes, n) && inDegree[n] == Into(links, nodes, n, []))
    && missing == MissingOf(links, nodes)
  }

  /** One more link extends the targets and the in-degree of node `n` by that link alone. */
  lemma GraphAppendAt(links: seq<Link>, link: Link, nodes: map<string, Definition>, n: string)
    ensures Targets(links + [link], nodes, n) == Targets(links, nodes, n) + (if link.from == n && IsEdge(nodes, link) then [link.to] else [])
    ensures Into(links + [link], nodes, n, []) == Into(links, nodes, n, []) + (if Pending(nodes, link, n, []) then 1 else 0)
  {
    var all := links + [link];
    assert all[..|all| - 1] == links;
  }

  lemma MissingAppend(links: seq<Link>, link: Link, nodes: map<string, Definition>)
    ensures MissingOf(links + [link], nodes) == MissingOf(links, nodes)
      + (if link.from in nodes && link.to !in nodes then [link.to]
         else if link.from !in nodes && link.to in nodes then [link.from]
         else [])
  {
    var all := links + [link];
    assert all[..|all| - 1] == links;
  }

  lemma EdgeAppended(nodes: map<string, Definition>, out: map<string, seq<string>>, inDegree: map<string, int>,
                     missing: seq<string>, links: seq<Link>, link: Link)
    requires GraphState(nodes, out, inDegree, missing, links) && IsEdge(nodes, link)
    ensures GraphState(nodes, out[link.from := out[link.from] + [link.to]], inDegree[link.to := inDegree[link.to] + 1],
                       missing, links + [link])
  {
    var out' := out[link.from := out[link.from] + [link.to]];
    var inDegree' := inDegree[link.to := inDegree[link.to] + 1];
    assert missing == MissingOf(links + [link], nodes) by {
      MissingAppend(links, link, nodes);
    }
    assert out'.Keys == nodes.Keys && inDegree'.Keys == nodes.Keys;
    forall n | n in nodes
      ensures out'[n] == Targets(links + [link], nodes, n) && inDegree'[n] == Into(links + [link], nodes, n, [])
    {
      EdgeAppendedAt(nodes, links, link, n, out[n], inDegree[n]);
    }
  }

  /** The new targets and in-degree of one node after an edge. */
  lemma EdgeAppendedAt(nodes: map<string, Definition>, links: seq<Link>, link: Link, n: string, targets: seq<string>, degree: int)
    requires IsEdge(nodes, link) && targets == Targets(links, nodes, n) && degree == Into(links, nodes, n, [])
    ensures Targets(links + [link], nodes, n) == if n == link.from then targets + [link.to] else targets
    ensures Into(links + [link], nodes, n, []) == if n == link.to then degree + 1 else degree
  {
    GraphAppendAt(links, link, nodes, n);
    assert Pending(nodes, link, n, []) <==> n == link.to;
  }

  lemma ReferenceMissing(nodes: map<string, Definition>, out: map<string, seq<string>>, inDegree: map<string, int>,
                         missing: seq<string>, links: seq<Link>, link: Link)
    requires GraphState(nodes, out, inDegree, missing, links) && !IsEdge(nodes, link)
    ensures GraphState(nodes, out, inDegree,
      missing + (if link.from in nodes && link.to !in nodes then [link.to]
                 else if link.from !in nodes && link.to in nodes then [link.from]
                 else []),
      links + [link])
  {
    MissingAppend(links, link, nodes);
    forall n | n in nodes
      ensures out[n] == Targets(links + [link], nodes, n) && inDegree[n] == Into(links + [link], nodes, n, [])
    {
      GraphAppendAt(links, link, nodes, n);
    }
  }

  /** `addEdge`: an edge between two known nodes, or a missing reference. */
  method AddEdge(nodes: map<string, Definition>, out: map<string, seq<string>>, inDegree: map<string, int>,
                 missing: seq<string>, ghost links: seq<Link>, link: Link)
    returns (out': map<string, seq<string>>, inDegree': map<string, int>, missing': seq<string>)
    requires GraphState(nodes, out, inDegree, missing, links)
    ensures GraphState(nodes, out', inDegree', missing', links + [link])
  {
    var fromExists := link.from in nodes;
    var toExists := link.to in nodes;
    if !fromExists || !toExists {
      ReferenceMissing(nodes, out, inDegree, missing, links, link);
      missing' := missing;
      if fromExists && !toExists {
        missing' := missing' + [link.to];
      }
      if !fromExists && toExists {
        missing' := missing' + [link.from];
      }
      return out, inDegree, missing';
    }
    EdgeAppended(nodes, out, inDegree, missing, links, link);
    out' := out[link.from := out[link.from] + [link.to]];
    inDegree' := inDegree[link.to := inDegree[link.to] + 1];
    missing' := missing;
  }

  /** The first loop of `orderDefinitions`: every named definition becomes a
      node with no edges. */
  method BuildNodes(definitions: seq<Definition>)
    returns (nodes: map<string, Definition>, out: map<string, seq<string>>, inDegree: map<string, int>)
    ensures nodes == NodesOf(definitions)
    ensures GraphState(nodes, out, inDegree, [], [])
  {
    nodes := map[];
    out := map[];
    inDegree := map[];
    var index := 0;
    while index < |definitions|
      invariant 0 <= index <= |definitions|
      invariant nodes == NodesOf(definitions[..index])
      invariant out.Keys == nodes.Keys && inDegree.Keys == nodes.Keys
      invariant forall n | n in nodes :: out[n] == [] && inDegree[n] == 0
    {
      var definition := definitions[index];
      assert definitions[..index + 1][..index] == definitions[..index];
      if definition.name != [] {
        nodes := nodes[definition.name := definition];
        out := out[definition.name := []];
        inDegree := inDegree[definition.name := 0];
      }
      index := index + 1;
    }
    assert definitions[..index] == definitions;
  }

  /** The edges of one definition: its "after" references, then its "before" references. */
  method AddDefinitionEdges(nodes: map<string, Definition>, out: map<string, seq<string>>, inDegree: map<string, int>,
                            missing: seq<string>, ghost links: seq<Link>, definition: Definition)
    returns (out': map<string, seq<string>>, inDegree': map<string, int>, missing': seq<string>)
    requires definition.name != []
    requires GraphState(nodes, out, inDegree, missing, links)
    ensures GraphState(nodes, out', inDegree', missing', links + DefinitionLinks(definition))
  {
    out', inDegree', missing' := AddAfterEdges(nodes, out, inDegree, missing, links, definition.name, definition.after);
    ghost var current := links + AfterLinks(definition.name, definition.after);
    out', inDegree', missing' := AddBeforeEdges(nodes, out', inDegree', missing', current, definition.name, definition.before);
    assert current + BeforeLinks(definition.name, definition.before) == links + DefinitionLinks(definition);
  }

  /** The loop over a definition's "after" names: an edge from each named entry to the definition. */
  method AddAfterEdges(nodes: map<string, Definition>, out: map<string, seq<string>>, inDegree: map<string, int>,
                       missing: seq<string>, ghost links: seq<Link>, name: string, after: seq<string>)
    returns (out': map<string, seq<string>>, inDegree': map<string, int>, missing': seq<string>)
    requires GraphState(nodes, out, inDegree, missing, links)
    ensures GraphState(nodes, out', inDegree', missing', links + AfterLinks(name, after))
  {
    out', inDegree', missing' := out, inDegree, missing;
    ghost var current := links;
    var j := 0;
    while j < |after|
      invariant 0 <= j <= |after|
      invariant current == links + AfterLinks(name, after[..j])
      invariant GraphState(nodes, out', inDegree', missing', current)
    {
      var afterName := after[j];
      assert after[..j + 1][..j] == after[..j];
      if afterName != [] {
        out', inDegree', missing' := AddEdge(nodes, out', inDegree', missing', current, Link(afterName, name));
        current := current + [Link(afterName, name)];
      }
      j := j + 1;
    }
    assert after[..j] == after;
  }

  /** The loop over a definition's "before" names: an edge from the definition to each named entry. */
  method AddBeforeEdges(nodes: map<string, Definition>, out: map<string, seq<string>>, inDegree: map<string, int>,
                        missing: seq<string>, ghost links: seq<Link>, name: string, before: seq<string>)
    returns (out': map<string, seq<string>>, inDegree': map<string, int>, missing': seq<string>)
    requires GraphState(nodes, out, inDegree, missing, links)
    ensures GraphState(nodes, out', inDegree', missing', links + BeforeLinks(name, before))
  {
    out', inDegree', missing' := out, inDegree, missing;
    ghost var current := links;
    var j := 0;
    while j < |before|
      invariant 0 <= j <= |before|
      invariant current == links + BeforeLinks(name, before[..j])
      invariant GraphState(nodes, out', inDegree', missing', current)
    {
      var beforeName := before[j];
      assert before[..j + 1][..j] == before[..j];
      if beforeName != [] {
        out', inDegree', missing' := AddEdge(nodes, out', inDegree', missing', current, Link(name, beforeName));
        current := current + [Link(name, beforeName)];
      }
      j := j + 1;
    }
    assert before[..j] == before;
  }

  lemma LinksOfStep(definitions: seq<Definition>, index: nat)
    requires index < |definitions|
    ensures LinksOf(definitions[..index + 1]) == LinksOf(definitions[..index]) + DefinitionLinks(definitions[index])
  {
    assert definitions[..index + 1][..index] == definitions[..index];
  }

  /** The first two loops of `orderDefinitions`: the node map, then the edges. */
  method BuildGraph(definitions: seq<Definition>)
    returns (nodes: map<string, Definition>, out: map<string, seq<string>>, inDegree: map<string, int>, missing: seq<string>)
    ensures nodes == NodesOf(definitions)
    ensures GraphState(nodes, out, inDegree, missing, LinksOf(definitions))
  {
    nodes, out, inDegree := BuildNodes(definitions);
    missing := [];
    ghost var links: seq<Link> := [];
    var index := 0;
    while index < |definitions|
      invariant 0 <= index <= |definitions|
      invariant links == LinksOf(definitions[..index])
      invariant GraphState(nodes, out, inDegree, missing, links)
    {
      var definition := definitions[index];
      LinksOfStep(definitions, index);
      if definition.name != [] {
        out, inDegree, missing := AddDefinitionEdges(nodes, out, inDegree, missing, links, definition);
      } else {
        assert links + DefinitionLinks(definition) == links;
      }
      links := links + DefinitionLinks(definition);
      index := index + 1;
    }
    assert definitions[..index] == definitions;
  }

  // ---------------------------------------------------------------------------
  // Priority, then name

  /** The order of `sortReady` and of the cycle fallback: priority ascending, then name. */
  predicate DefLess(a: Definition, b: Definition) {
    a.priority < b.priority || (a.priority == b.priority && Less(a.name, b.name))
  }

  lemma DefLessIrreflexive(a: Definition)
    ensures !DefLess(a, a)
  {
    LessIrreflexive(a.name);
  }

  lemma DefLessAsymmetric(a: Definition, b: Definition)
    requires DefLess(a, b)
    ensures !DefLess(b, a)
  {
    if a.priority == b.priority {
      LessAsymmetric(a.name, b.name);
    }
  }

  lemma DefLessTransitive(a: Definition, b: Definition, c: Definition)
    requires DefLess(a, b) && DefLess(b, c)
    ensures DefLess(a, c)
  {
    if a.priority == b.priority && b.priority == c.priority {
      LessTransitive(a.name, b.name, c.name);
    }
  }

  /** Not being smaller is transitive: the order is a total preorder. */
  lemma NotLessTransitive(a: Definition, b: Definition, c: Definition)
    requires !DefLess(b, a) && !DefLess(c, b)
    ensures !DefLess(c, a)
  {
    LessTotal(a.name, b.name);
    LessTotal(b.name, c.name);
    if DefLess(c, a) && c.priority == a.priority && a.priority == b.priority {
      if Less(a.name, b.name) {
        LessTransitive(c.name, a.name, b.name);
      }
    }
  }

  /** Non-decreasing by priority, then name. */
  predicate DefSorted(s: seq<Definition>) {
    forall i, j | 0 <= i < j < |s| :: !DefLess(s[j], s[i])
  }

  /** Inserts `x` after every element that is not greater, as a stable sort does. */
  function InsertDefinition(x: Definition, s: seq<Definition>): (r: seq<Definition>)
    requires DefSorted(s)
    ensures DefSorted(r)
    ensures multiset(r) == multiset(s) + multiset{x}
    decreases |s|
  {
    if s == [] then [x]
    else
      var last := s[|s| - 1];
      var init := s[..|s| - 1];
      assert s == init + [last];
      if DefLess(x, last) then
        var t := InsertDefinition(x, init);
        InsertedAllBelow(x, last, init, t);
        SortedSnoc(t, last);
        t + [last]
      else
        assert forall i | 0 <= i < |s| :: !DefLess(x, s[i]) by {
          forall i | 0 <= i < |s| ensures !DefLess(x, s[i]) {
            if i < |s| - 1 {
              assert !DefLess(s[|s| - 1], s[i]);
            } else {
              DefLessIrreflexive(last);
            }
            NotLessTransitive(s[i], last, x);
          }
        }
        SortedSnoc(s, x);
        s + [x]
  }

  lemma SortedSnoc(t: seq<Definition>, x: Definition)
    requires DefSorted(t) && forall i | 0 <= i < |t| :: !DefLess(x, t[i])
    ensures DefSorted(t + [x])
  {
    var r := t + [x];
    forall i, j | 0 <= i < j < |r| ensures !DefLess(r[j], r[i]) {
      if j < |t| {
        assert r[i] == t[i] && r[j] == t[j];
      } else {
        assert r[i] == t[i] && r[j] == x;
      }
    }
  }

  /** After inserting `x < last` into the part before `last`, nothing exceeds `last`. */
  lemma InsertedAllBelow(x: Definition, last: Definition, init: seq<Definition>, t: seq<Definition>)
    requires DefLess(x, last) && DefSorted(init + [last])
    requires multiset(t) == multiset(init) + multiset{x}
    ensures forall i | 0 <= i < |t| :: !DefLess(last, t[i])
  {
    DefLessAsymmetric(x, last);
    forall i | 0 <= i < |t| ensures !DefLess(last, t[i]) {
      assert t[i] in multiset(t);
      if t[i] != x {
        assert t[i] in multiset(init);
        var m :| 0 <= m < |init| && init[m] == t[i];
        assert (init + [last])[m] == init[m] && (init + [last])[|init|] == last;
      }
    }
  }

  /** `sort.SliceStable` by priority, then name: a sorted permutation. */
  function SortDefinitions(s: seq<Definition>): (r: seq<Definition>)
    ensures DefSorted(r)
    ensures multiset(r) == multiset(s)
    decreases |s|
  {
    if s == [] then []
    else
      assert s == s[..|s| - 1] + [s[|s| - 1]];
      InsertDefinition(s[|s| - 1], SortDefinitions(s[..|s| - 1]))
  }

  /** The definitions of `s` with the given priority and name, in their order in `s`. */
  function WithKey(s: seq<Definition>, priority: int, name: string): seq<Definition>
    decreases |s|
  {
    if s == [] then []
    else WithKey(s[..|s| - 1], priority, name) + Keyed(s[|s| - 1], priority, name)
  }

  function Keyed(d: Definition, priority: int, name: string): seq<Definition> {
    if d.priority == priority && d.name == name then [d] else []
  }

  lemma WithKeySnoc(s: seq<Definition>, d: Definition, priority: int, name: string)
    ensures WithKey(s + [d], priority, name) == WithKey(s, priority, name) + Keyed(d, priority, name)
  {
    assert (s + [d])[..|s|] == s;
  }

  /** A definition strictly below `last` never shares its key, so their keyed parts commute. */
  lemma KeyedSwap(w: seq<Definition>, x: Definition, last: Definition, priority: int, name: string)
    requires DefLess(x, last)
    ensures w + Keyed(x, priority, name) + Keyed(last, priority, name)
         == w + Keyed(last, priority, name) + Keyed(x, priority, name)
  {
    if Keyed(x, priority, name) != [] && Keyed(last, priority, name) != [] {
      LessIrreflexive(x.name);
      assert false;
    }
  }

  /** Inserting `x` puts it after every element that compares equal to it. */
  lemma {:induction false} InsertKeepsKeyOrder(x: Definition, s: seq<Definition>, priority: int, name: string)
    requires DefSorted(s)
    ensures WithKey(InsertDefinition(x, s), priority, name)
         == WithKey(s, priority, name) + Keyed(x, priority, name)
    decreases |s|
  {
    if s == [] {
      WithKeySnoc([], x, priority, name);
    } else {
      var last := s[|s| - 1];
      var init := s[..|s| - 1];
      assert s == init + [last];
      WithKeySnoc(init, last, priority, name);
      if DefLess(x, last) {
        assert DefSorted(init) by {
          forall i, j | 0 <= i < j < |init| ensures !DefLess(init[j], init[i]) {
            assert init[i] == s[i] && init[j] == s[j];
          }
        }
        var t := InsertDefinition(x, init);
        assert InsertDefinition(x, s) == t + [last];
        InsertKeepsKeyOrder(x, init, priority, name);
        WithKeySnoc(t, last, priority, name);
        KeyedSwap(WithKey(init, priority, name), x, last, priority, name);
      } else {
        assert InsertDefinition(x, s) == s + [x];
        WithKeySnoc(s, x, priority, name);
      }
    }
  }

  /** Stability: definitions with equal priority and name keep their input order. */
  lemma {:induction false} SortKeepsKeyOrder(s: seq<Definition>, priority: int, name: string)
    ensures WithKey(SortDefinitions(s), priority, name) == WithKey(s, priority, name)
    decreases |s|
  {
    if s != [] {
      var init := s[..|s| - 1];
      SortKeepsKeyOrder(init, priority, name);
      InsertKeepsKeyOrder(s[|s| - 1], SortDefinitions(init), priority, name);
    }
  }

  // ---------------------------------------------------------------------------
  // The order: Kahn's algorithm with the ready list kept sorted

  predicate AllNodes(nodes: map<string, Definition>, names: seq<string>) {
    forall k | 0 <= k < |names| :: names[k] in nodes
  }

  /** The nodes not yet emitted whose every edge comes from an emitted node. */
  ghost function Available(nodes: map<string, Definition>, links: seq<Link>, emitted: seq<string>): set<string> {
    set n | n in nodes && n !in emitted && Into(links, nodes, n, emitted) == 0
  }

  /** `n` comes first by priority, then name, among the names in `s`. */
  ghost predicate IsMinimum(nodes: map<string, Definition>, s: set<string>, n: string) {
    n in s && s <= nodes.Keys && forall m | m in s :: !DefLess(nodes[m], nodes[n])
  }

  lemma {:induction false} MinimumExists(nodes: map<string, Definition>, s: set<string>)
    requires s != {} && s <= nodes.Keys
    ensures exists n :: IsMinimum(nodes, s, n)
    decreases |s|
  {
    var x :| x in s;
    if s == {x} {
      DefLessIrreflexive(nodes[x]);
      assert IsMinimum(nodes, s, x);
    } else {
      MinimumExists(nodes, s - {x});
      var y :| IsMinimum(nodes, s - {x}, y);
      if DefLess(nodes[x], nodes[y]) {
        forall m | m in s ensures !DefLess(nodes[m], nodes[x]) {
          if m == x {
            DefLessIrreflexive(nodes[x]);
          } else if DefLess(nodes[m], nodes[x]) {
            DefLessTransitive(nodes[m], nodes[x], nodes[y]);
          }
        }
        assert IsMinimum(nodes, s, x);
      } else {
        assert IsMinimum(nodes, s, y);
      }
    }
  }

  /** Names are distinct keys, so the first node is unique. */
  lemma MinimumUnique(nodes: map<string, Definition>, s: set<string>, a: string, b: string)
    requires forall name | name in nodes :: nodes[name].name == name
    requires IsMinimum(nodes, s, a) && IsMinimum(nodes, s, b)
    ensures a == b
  {
    LessTotal(a, b);
  }

  /** The first of a non-empty set of nodes by priority, then name. */
  ghost function FirstAvailable(nodes: map<string, Definition>, s: set<string>): (n: string)
    requires s != {} && s <= nodes.Keys
    ensures IsMinimum(nodes, s, n)
  {
    MinimumExists(nodes, s);
    var n :| IsMinimum(nodes, s, n);
    n
  }

  ghost function Emitted(emitted: seq<string>): set<string> {
    set x | x in emitted
  }

  /** The order of the ready nodes: repeatedly emit the first available node
      by priority, then name, until none is available. */
  ghost function Order(nodes: map<string, Definition>, links: seq<Link>, emitted: seq<string>): seq<string>
    requires AllNodes(nodes, emitted)
    decreases |nodes.Keys - Emitted(emitted)|
  {
    var available := Available(nodes, links, emitted);
    if available == {} then emitted
    else
      var n := FirstAvailable(nodes, available);
      assert nodes.Keys - Emitted(emitted + [n]) == (nodes.Keys - Emitted(emitted)) - {n};
      Order(nodes, links, emitted + [n])
  }

  lemma OrderStep(nodes: map<string, Definition>, links: seq<Link>, emitted: seq<string>, h: string)
    requires forall name | name in nodes :: nodes[name].name == name
    requires AllNodes(nodes, emitted) && IsMinimum(nodes, Available(nodes, links, emitted), h)
    ensures AllNodes(nodes, emitted + [h])
    ensures Order(nodes, links, emitted) == Order(nodes, links, emitted + [h])
  {
    var available := Available(nodes, links, emitted);
    MinimumUnique(nodes, available, FirstAvailable(nodes, available), h);
  }

  /** Removing emitted node `h` lowers each in-degree by the edges from `h`. */
  lemma {:induction false} IntoStep(links: seq<Link>, nodes: map<string, Definition>, n: string, emitted: seq<string>, h: string)
    requires h !in emitted
    ensures Into(links, nodes, n, emitted) == Into(links, nodes, n, emitted + [h]) + multiset(Targets(links, nodes, h))[n]
    decreases |links|
  {
    if links != [] {
      var init := links[..|links| - 1];
      IntoStep(init, nodes, n, emitted, h);
    }
  }

  /** The definitions of the names, as `result` collects them. */
  function DefinitionsOf(nodes: map<string, Definition>, names: seq<string>): (r: seq<Definition>)
    requires AllNodes(nodes, names)
    ensures |r| == |names| && forall k | 0 <= k < |names| :: r[k] == nodes[names[k]]
  {
    seq(|names|, k requires 0 <= k < |names| => nodes[names[k]])
  }

  /** The names of the ready nodes. */
  ghost function NamesOf(ready: seq<Definition>): set<string> {
    set d | d in ready :: d.name
  }

  /** Every ready entry is the node of its own name. */
  predicate NodeEntries(nodes: map<string, Definition>, ready: seq<Definition>) {
    forall k | 0 <= k < |ready| :: ready[k].name in nodes && nodes[ready[k].name] == ready[k]
  }

  /** The ready list of the Kahn loop at the emitted prefix. */
  ghost predicate ReadyFor(nodes: map<string, Definition>, links: seq<Link>, emitted: seq<string>, ready: seq<Definition>) {
    NodeEntries(nodes, ready) && NoDuplicates(ready) && DefSorted(ready)
    && NamesOf(ready) == Available(nodes, links, emitted)
  }

  /** The in-degrees of the Kahn loop at the emitted prefix. */
  ghost predicate DegreesFor(nodes: map<string, Definition>, links: seq<Link>, emitted: seq<string>, inDegree: map<string, int>) {
    inDegree.Keys == nodes.Keys
    && (forall n | n in nodes :: inDegree[n] == Into(links, nodes, n, emitted))
    && forall k | 0 <= k < |emitted| :: Into(links, nodes, emitted[k], emitted) == 0
  }

  predicate NamesAreKeys(nodes: map<string, Definition>) {
    forall name | name in nodes :: nodes[name].name == name
  }

  /** Sorting a ready list keeps its entries and orders it. */
  lemma SortedReady(nodes: map<string, Definition>, links: seq<Link>, emitted: seq<string>, unsorted: seq<Definition>)
    requires NodeEntries(nodes, unsorted) && NoDuplicates(unsorted)
    requires NamesOf(unsorted) == Available(nodes, links, emitted)
    ensures ReadyFor(nodes, links, emitted, SortDefinitions(unsorted))
  {
    var r := SortDefinitions(unsorted);
    assert forall d :: d in r <==> d in multiset(r);
    assert forall d :: d in unsorted <==> d in multiset(unsorted);
    MultisetNoDuplicates(unsorted, r);
    forall k | 0 <= k < |r| ensures r[k].name in nodes && nodes[r[k].name] == r[k] {
      assert r[k] in unsorted;
    }
    assert NamesOf(r) == NamesOf(unsorted);
  }

  /** The head of the sorted ready list is the first available node. */
  lemma HeadIsFirst(nodes: map<string, Definition>, links: seq<Link>, emitted: seq<string>, ready: seq<Definition>)
    requires ReadyFor(nodes, links, emitted, ready) && ready != []
    ensures IsMinimum(nodes, Available(nodes, links, emitted), ready[0].name)
    ensures NamesOf(ready[1..]) == Available(nodes, links, emitted) - {ready[0].name}
  {
    var available := Available(nodes, links, emitted);
    assert ready[0] in ready;
    forall m | m in available ensures m in nodes && !DefLess(nodes[m], nodes[ready[0].name]) {
      var d :| d in ready && d.name == m;
      var k :| 0 <= k < |ready| && ready[k] == d;
      if k == 0 {
        DefLessIrreflexive(d);
      }
    }
    forall m | m in NamesOf(ready[1..]) ensures m in available && m != ready[0].name {
      var d :| d in ready[1..] && d.name == m;
      var k :| 1 <= k < |ready| && ready[k] == d;
      assert d in ready;
    }
    forall m | m in available && m != ready[0].name ensures m in NamesOf(ready[1..]) {
      var d :| d in ready && d.name == m;
      var k :| 0 <= k < |ready| && ready[k] == d;
      assert k != 0;
      assert d in ready[1..];
    }
  }

  lemma NamesOfSnoc(ready: seq<Definition>, d: Definition)
    ensures NamesOf(ready + [d]) == NamesOf(ready) + {d.name}
  {
    assert forall e :: e in ready + [d] <==> e in ready || e == d;
  }

  /** The zero-degree nodes among those visited so far, each once. */
  ghost predicate Collected(nodes: map<string, Definition>, inDegree: map<string, int>, unsorted: seq<Definition>, remaining: set<string>) {
    remaining <= nodes.Keys && inDegree.Keys == nodes.Keys && NodeEntries(nodes, unsorted) && NoDuplicates(unsorted)
    && NamesOf(unsorted) == set n | n in nodes.Keys - remaining && inDegree[n] == 0
  }

  lemma CollectStep(nodes: map<string, Definition>, inDegree: map<string, int>, unsorted: seq<Definition>, remaining: set<string>, name: string)
    requires NamesAreKeys(nodes) && inDegree.Keys == nodes.Keys
    requires Collected(nodes, inDegree, unsorted, remaining) && name in remaining
    ensures Collected(nodes, inDegree, if inDegree[name] == 0 then unsorted + [nodes[name]] else unsorted, remaining - {name})
  {
    var next := if inDegree[name] == 0 then unsorted + [nodes[name]] else unsorted;
    if inDegree[name] == 0 {
      assert nodes[name] in unsorted ==> name in NamesOf(unsorted);
      NamesOfSnoc(unsorted, nodes[name]);
    }
    assert (set n | n in nodes.Keys - (remaining - {name}) && inDegree[n] == 0)
      == (set n | n in nodes.Keys - remaining && inDegree[n] == 0) + (if inDegree[name] == 0 then {name} else {});
  }

  /** The loop over the node map that collects the nodes without incoming
      edges; the map's iteration order is any order. */
  method ZeroDegreeNodes(nodes: map<string, Definition>, inDegree: map<string, int>) returns (unsorted: seq<Definition>)
    requires NamesAreKeys(nodes) && inDegree.Keys == nodes.Keys
    ensures NodeEntries(nodes, unsorted) && NoDuplicates(unsorted)
    ensures NamesOf(unsorted) == set n | n in nodes.Keys && inDegree[n] == 0
  {
    unsorted := [];
    var remaining := nodes.Keys;
    while remaining != {}
      invariant Collected(nodes, inDegree, unsorted, remaining)
      decreases |remaining|
    {
      var name :| name in remaining;
      CollectStep(nodes, inDegree, unsorted, remaining, name);
      if inDegree[name] == 0 {
        unsorted := unsorted + [nodes[name]];
      }
      remaining := remaining - {name};
    }
    assert nodes.Keys - remaining == nodes.Keys;
  }

  lemma InitialAvailable(nodes: map<string, Definition>, links: seq<Link>, inDegree: map<string, int>)
    requires DegreesFor(nodes, links, [], inDegree)
    ensures Available(nodes, links, []) == set n | n in nodes.Keys && inDegree[n] == 0
  {
  }

  /** The ready list before the Kahn loop: the nodes without incoming
      edges, sorted. */
  method InitialReady(nodes: map<string, Definition>, inDegree: map<string, int>, ghost links: seq<Link>)
    returns (ready: seq<Definition>)
    requires NamesAreKeys(nodes)
    requires DegreesFor(nodes, links, [], inDegree)
    ensures ReadyFor(nodes, links, [], ready)
  {
    var unsorted := ZeroDegreeNodes(nodes, inDegree);
    InitialAvailable(nodes, links, inDegree);
    SortedReady(nodes, links, [], unsorted);
    ready := SortDefinitions(unsorted);
  }

  /** The nodes not yet done whose count has reached zero. */
  ghost function Unblocked(nodes: map<string, Definition>, done: seq<string>, degrees: map<string, int>): set<string>
    requires degrees.Keys == nodes.Keys
  {
    set n | n in nodes && n !in done && degrees[n] == 0
  }

  /** The inner loop's state after the first `j` targets of `h`: each count
      lowered once per target seen, and the nodes that reached zero appended. */
  ghost predicate Releasing(nodes: map<string, Definition>, links: seq<Link>, emitted: seq<string>, h: string,
                            targets: seq<string>, j: nat, inDegree: map<string, int>, ready: seq<Definition>) {
    j <= |targets| && inDegree.Keys == nodes.Keys
    && (forall n | n in nodes :: inDegree[n] + multiset(targets[..j])[n] == Into(links, nodes, n, emitted))
    && NodeEntries(nodes, ready) && NoDuplicates(ready)
    && NamesOf(ready) == Unblocked(nodes, emitted + [h], inDegree)
  }

  lemma PrefixCount(targets: seq<string>, j: nat)
    requires j < |targets|
    ensures multiset(targets[..j + 1]) == multiset(targets[..j]) + multiset{targets[j]}
    ensures multiset(targets)[targets[j]] >= multiset(targets[..j])[targets[j]] + 1
  {
    assert targets[..j + 1] == targets[..j] + [targets[j]];
    assert targets == targets[..j + 1] + targets[j + 1..];
  }

  /** A target still to be released has an edge left and is not emitted. */
  lemma TargetPending(nodes: map<string, Definition>, links: seq<Link>, emitted: seq<string>, h: string,
                      targets: seq<string>, j: nat, degree: int)
    requires h !in emitted && targets == Targets(links, nodes, h) && j < |targets|
    requires forall k | 0 <= k < |emitted| :: Into(links, nodes, emitted[k], emitted) == 0
    requires Into(links, nodes, h, emitted) == 0
    requires degree + multiset(targets[..j])[targets[j]] == Into(links, nodes, targets[j], emitted)
    ensures degree >= 1 && targets[j] !in emitted && targets[j] != h
  {
    var t := targets[j];
    IntoStep(links, nodes, t, emitted, h);
    PrefixCount(targets, j);
    assert forall k | 0 <= k < |emitted| :: emitted[k] != t;
  }

  lemma ReadyAfterRelease(nodes: map<string, Definition>, emitted: seq<string>, h: string, t: string,
                          inDegree: map<string, int>, ready: seq<Definition>)
    requires NamesAreKeys(nodes) && t in nodes && t !in emitted + [h] && inDegree.Keys == nodes.Keys && inDegree[t] >= 1
    requires NodeEntries(nodes, ready) && NoDuplicates(ready)
    requires NamesOf(ready) == Unblocked(nodes, emitted + [h], inDegree)
    ensures var degrees := inDegree[t := inDegree[t] - 1];
      var ready' := if degrees[t] == 0 then ready + [nodes[t]] else ready;
      NodeEntries(nodes, ready') && NoDuplicates(ready')
      && NamesOf(ready') == Unblocked(nodes, emitted + [h], degrees)
  {
    var degrees := inDegree[t := inDegree[t] - 1];
    if degrees[t] == 0 {
      assert nodes[t] in ready ==> t in NamesOf(ready);
      NamesOfSnoc(ready, nodes[t]);
    }
    assert Unblocked(nodes, emitted + [h], degrees)
      == Unblocked(nodes, emitted + [h], inDegree) + (if degrees[t] == 0 then {t} else {});
  }

  lemma DegreesAfterRelease(nodes: map<string, Definition>, links: seq<Link>, emitted: seq<string>,
                            targets: seq<string>, j: nat, inDegree: map<string, int>, degrees: map<string, int>)
    requires j < |targets| && targets[j] in nodes && inDegree.Keys == nodes.Keys
    requires degrees == inDegree[targets[j] := inDegree[targets[j]] - 1]
    requires forall n | n in nodes :: inDegree[n] + multiset(targets[..j])[n] == Into(links, nodes, n, emitted)
    ensures degrees.Keys == nodes.Keys
    ensures forall n | n in nodes :: degrees[n] + multiset(targets[..j + 1])[n] == Into(links, nodes, n, emitted)
  {
    PrefixCount(targets, j);
  }

  /** What holds of the emitted node `h` throughout the release of its targets. */
  ghost predicate Releasable(nodes: map<string, Definition>, links: seq<Link>, emitted: seq<string>, h: string,
                             targets: seq<string>) {
    NamesAreKeys(nodes) && h in nodes && h !in emitted && targets == Targets(links, nodes, h)
    && (forall k | 0 <= k < |emitted| :: Into(links, nodes, emitted[k], emitted) == 0)
    && Into(links, nodes, h, emitted) == 0
  }

  lemma ReleaseStep(nodes: map<string, Definition>, links: seq<Link>, emitted: seq<string>, h: string,
                    targets: seq<string>, j: nat, t: string, inDegree: map<string, int>, ready: seq<Definition>,
                    degrees: map<string, int>, ready': seq<Definition>)
    requires Releasable(nodes, links, emitted, h, targets)
    requires Releasing(nodes, links, emitted, h, targets, j, inDegree, ready) && j < |targets|
    requires t == targets[j] && t in nodes && degrees == inDegree[t := inDegree[t] - 1]
    requires ready' == if degrees[t] == 0 then ready + [nodes[t]] else ready
    ensures Releasing(nodes, links, emitted, h, targets, j + 1, degrees, ready')
  {
    assert inDegree[t] >= 1 && t !in emitted + [h] by {
      TargetPending(nodes, links, emitted, h, targets, j, inDegree[t]);
    }
    assert degrees.Keys == nodes.Keys
      && forall n | n in nodes :: degrees[n] + multiset(targets[..j + 1])[n] == Into(links, nodes, n, emitted) by {
      DegreesAfterRelease(nodes, links, emitted, targets, j, inDegree, degrees);
    }
    assert NodeEntries(nodes, ready') && NoDuplicates(ready')
      && NamesOf(ready') == Unblocked(nodes, emitted + [h], degrees) by {
      ReadyAfterRelease(nodes, emitted, h, t, inDegree, ready);
    }
    ReleasingIntro(nodes, links, emitted, h, targets, j + 1, degrees, ready');
  }

  lemma ReleasingIntro(nodes: map<string, Definition>, links: seq<Link>, emitted: seq<string>, h: string,
                       targets: seq<string>, j: nat, inDegree: map<string, int>, ready: seq<Definition>)
    requires j <= |targets| && inDegree.Keys == nodes.Keys
    requires forall n | n in nodes :: inDegree[n] + multiset(targets[..j])[n] == Into(links, nodes, n, emitted)
    requires NodeEntries(nodes, ready) && NoDuplicates(ready)
    requires NamesOf(ready) == Unblocked(nodes, emitted + [h], inDegree)
    ensures Releasing(nodes, links, emitted, h, targets, j, inDegree, ready)
  {
  }

  lemma ReleaseStart(nodes: map<string, Definition>, links: seq<Link>, emitted: seq<string>, h: string,
                     targets: seq<string>, inDegree: map<string, int>, ready: seq<Definition>)
    requires DegreesFor(nodes, links, emitted, inDegree)
    requires NodeEntries(nodes, ready) && NoDuplicates(ready) && NamesOf(ready) == Available(nodes, links, emitted) - {h}
    ensures Releasing(nodes, links, emitted, h, targets, 0, inDegree, ready)
  {
    assert targets[..0] == [];
  }

  lemma ReleasedDegrees(nodes: map<string, Definition>, links: seq<Link>, emitted: seq<string>, h: string,
                        targets: seq<string>, inDegree: map<string, int>)
    requires h !in emitted && targets == Targets(links, nodes, h) && inDegree.Keys == nodes.Keys
    requires forall n | n in nodes :: inDegree[n] + multiset(targets[..|targets|])[n] == Into(links, nodes, n, emitted)
    ensures forall n | n in nodes :: inDegree[n] == Into(links, nodes, n, emitted + [h])
  {
    assert targets[..|targets|] == targets;
    forall n | n in nodes ensures inDegree[n] == Into(links, nodes, n, emitted + [h]) {
      IntoStep(links, nodes, n, emitted, h);
    }
  }

  lemma EmittedStayDone(nodes: map<string, Definition>, links: seq<Link>, emitted: seq<string>, h: string)
    requires h !in emitted
    requires forall k | 0 <= k < |emitted| :: Into(links, nodes, emitted[k], emitted) == 0
    requires Into(links, nodes, h, emitted) == 0
    ensures forall k | 0 <= k < |emitted + [h]| :: Into(links, nodes, (emitted + [h])[k], emitted + [h]) == 0
  {
    var e := emitted + [h];
    forall k | 0 <= k < |e| ensures Into(links, nodes, e[k], e) == 0 {
      IntoStep(links, nodes, e[k], emitted, h);
    }
  }

  lemma ReleaseEnd(nodes: map<string, Definition>, links: seq<Link>, emitted: seq<string>, h: string,
                   targets: seq<string>, inDegree: map<string, int>, ready: seq<Definition>)
    requires h in nodes && h !in emitted && targets == Targets(links, nodes, h)
    requires forall k | 0 <= k < |emitted| :: Into(links, nodes, emitted[k], emitted) == 0
    requires Into(links, nodes, h, emitted) == 0
    requires Releasing(nodes, links, emitted, h, targets, |targets|, inDegree, ready)
    ensures DegreesFor(nodes, links, emitted + [h], inDegree)
    ensures NamesOf(ready) == Available(nodes, links, emitted + [h])
  {
    ReleasedDegrees(nodes, links, emitted, h, targets, inDegree);
    EmittedStayDone(nodes, links, emitted, h);
  }

  /** One step of the inner loop: target `j` loses the edge from `h`. */
  method ReleaseOne(nodes: map<string, Definition>, inDegree: map<string, int>, ready: seq<Definition>,
                    ghost links: seq<Link>, ghost emitted: seq<string>, h: string, targets: seq<string>, j: nat)
    returns (inDegree': map<string, int>, ready': seq<Definition>)
    requires Releasable(nodes, links, emitted, h, targets)
    requires Releasing(nodes, links, emitted, h, targets, j, inDegree, ready) && j < |targets|
    ensures Releasing(nodes, links, emitted, h, targets, j + 1, inDegree', ready')
  {
    var toName := targets[j];
    inDegree' := inDegree[toName := inDegree[toName] - 1];
    ready' := ready;
    if inDegree'[toName] == 0 {
      ready' := ready + [nodes[toName]];
    }
    ReleaseStep(nodes, links, emitted, h, targets, j, toName, inDegree, ready, inDegree', ready');
  }

  /** The inner loop of `orderDefinitions`: each target of the emitted node
      loses one incoming edge and becomes ready when it has none left. */
  method ReleaseTargets(nodes: map<string, Definition>, out: map<string, seq<string>>, inDegree: map<string, int>,
                        ready: seq<Definition>, ghost links: seq<Link>, ghost emitted: seq<string>, h: string)
    returns (inDegree': map<string, int>, ready': seq<Definition>)
    requires NamesAreKeys(nodes) && h in nodes && h !in emitted
    requires out.Keys == nodes.Keys && out[h] == Targets(links, nodes, h)
    requires DegreesFor(nodes, links, emitted, inDegree) && Into(links, nodes, h, emitted) == 0
    requires NodeEntries(nodes, ready) && NoDuplicates(ready) && NamesOf(ready) == Available(nodes, links, emitted) - {h}
    ensures DegreesFor(nodes, links, emitted + [h], inDegree')
    ensures NodeEntries(nodes, ready') && NoDuplicates(ready') && NamesOf(ready') == Available(nodes, links, emitted + [h])
  {
    var targets := out[h];
    inDegree', ready' := inDegree, ready;
    ReleaseStart(nodes, links, emitted, h, targets, inDegree', ready');
    assert Releasable(nodes, links, emitted, h, targets);
    var j := 0;
    while j < |targets|
      invariant Releasing(nodes, links, emitted, h, targets, j, inDegree', ready')
    {
      inDegree', ready' := ReleaseOne(nodes, inDegree', ready', links, emitted, h, targets, j);
      j := j + 1;
    }
    ReleaseEnd(nodes, links, emitted, h, targets, inDegree', ready');
  }

  lemma NodeEntriesTail(nodes: map<string, Definition>, ready: seq<Definition>)
    requires NodeEntries(nodes, ready) && NoDuplicates(ready) && ready != []
    ensures NodeEntries(nodes, ready[1..]) && NoDuplicates(ready[1..])
  {
    assert forall k | 0 <= k < |ready[1..]| :: ready[1..][k] == ready[k + 1];
  }

  /** Emitting the first available node shrinks the set still to emit. */
  lemma EmittedGrows(nodes: map<string, Definition>, emitted: seq<string>, h: string)
    requires h in nodes && h !in emitted
    ensures |nodes.Keys - Emitted(emitted + [h])| < |nodes.Keys - Emitted(emitted)|
  {
    assert nodes.Keys - Emitted(emitted + [h]) == (nodes.Keys - Emitted(emitted)) - {h};
  }

  /** What the Kahn loop keeps: the emitted prefix of the order, the
      in-degrees and the sorted ready list that belong to it. */
  ghost predicate Emitting(nodes: map<string, Definition>, links: seq<Link>, order: seq<string>,
                           degrees: map<string, int>, queue: seq<Definition>) {
    AllNodes(nodes, order) && Order(nodes, links, order) == Order(nodes, links, [])
    && DegreesFor(nodes, links, order, degrees) && ReadyFor(nodes, links, order, queue)
  }

  /** One turn of the Kahn loop. */
  method EmitOne(nodes: map<string, Definition>, out: map<string, seq<string>>, degrees: map<string, int>,
                 queue: seq<Definition>, ghost links: seq<Link>, ghost order: seq<string>)
    returns (node: Definition, degrees': map<string, int>, queue': seq<Definition>)
    requires NamesAreKeys(nodes)
    requires out.Keys == nodes.Keys && forall n | n in nodes :: out[n] == Targets(links, nodes, n)
    requires Emitting(nodes, links, order, degrees, queue) && queue != []
    ensures node.name in nodes && node == nodes[node.name] && node.name !in order
    ensures Emitting(nodes, links, order + [node.name], degrees', queue')
  {
    node := queue[0];
    HeadIsFirst(nodes, links, order, queue);
    OrderStep(nodes, links, order, node.name);
    NodeEntriesTail(nodes, queue);
    var rest := queue[1..];
    var released;
    degrees', released := ReleaseTargets(nodes, out, degrees, rest, links, order, node.name);
    SortedReady(nodes, links, order + [node.name], released);
    queue' := SortDefinitions(released);
  }

  /** With nothing ready the order is complete. */
  lemma EmittingDone(nodes: map<string, Definition>, links: seq<Link>, order: seq<string>, degrees: map<string, int>)
    requires Emitting(nodes, links, order, degrees, [])
    ensures Order(nodes, links, []) == order
  {
    assert NamesOf([]) == {};
  }

  lemma DefinitionsOfSnoc(nodes: map<string, Definition>, names: seq<string>, n: string)
    requires AllNodes(nodes, names) && n in nodes
    ensures AllNodes(nodes, names + [n])
    ensures DefinitionsOf(nodes, names + [n]) == DefinitionsOf(nodes, names) + [nodes[n]]
  {
  }

  /** The Kahn loop of `orderDefinitions`: emit the head of the sorted ready
      list, release its targets, sort the ready list again. */
  method EmitReady(nodes: map<string, Definition>, out: map<string, seq<string>>, inDegree: map<string, int>,
                   ready: seq<Definition>, ghost links: seq<Link>)
    returns (result: seq<Definition>, ghost order: seq<string>)
    requires NamesAreKeys(nodes)
    requires out.Keys == nodes.Keys && forall n | n in nodes :: out[n] == Targets(links, nodes, n)
    requires DegreesFor(nodes, links, [], inDegree) && ReadyFor(nodes, links, [], ready)
    ensures order == Order(nodes, links, [])
    ensures AllNodes(nodes, order) && result == DefinitionsOf(nodes, order)
  {
    var degrees, queue := inDegree, ready;
    result, order := [], [];
    assert DefinitionsOf(nodes, order) == [];
    while 0 < |queue|
      invariant Emitting(nodes, links, order, degrees, queue)
      invariant result == DefinitionsOf(nodes, order)
      decreases |nodes.Keys - Emitted(order)|
    {
      var node;
      node, degrees, queue := EmitOne(nodes, out, degrees, queue, links, order);
      EmittedGrows(nodes, order, node.name);
      DefinitionsOfSnoc(nodes, order, node.name);
      result := result + [node];
      order := order + [node.name];
    }
    EmittingDone(nodes, links, order, degrees);
  }

  // ---------------------------------------------------------------------------
  // Properties of the order

  /** The order extends the emitted prefix with nodes, and stops only when
      no node is available. */
  lemma {:induction false} OrderFacts(nodes: map<string, Definition>, links: seq<Link>, emitted: seq<string>)
    requires AllNodes(nodes, emitted)
    ensures AllNodes(nodes, Order(nodes, links, emitted))
    ensures emitted <= Order(nodes, links, emitted)
    ensures Available(nodes, links, Order(nodes, links, emitted)) == {}
    decreases |nodes.Keys - Emitted(emitted)|
  {
    var available := Available(nodes, links, emitted);
    if available != {} {
      var n := FirstAvailable(nodes, available);
      assert nodes.Keys - Emitted(emitted + [n]) == (nodes.Keys - Emitted(emitted)) - {n};
      OrderFacts(nodes, links, emitted + [n]);
    }
  }

  /** No node is emitted twice. */
  lemma {:induction false} OrderNoDuplicates(nodes: map<string, Definition>, links: seq<Link>, emitted: seq<string>)
    requires AllNodes(nodes, emitted) && NoDuplicates(emitted)
    ensures NoDuplicates(Order(nodes, links, emitted))
    decreases |nodes.Keys - Emitted(emitted)|
  {
    var available := Available(nodes, links, emitted);
    if available != {} {
      var n := FirstAvailable(nodes, available);
      assert nodes.Keys - Emitted(emitted + [n]) == (nodes.Keys - Emitted(emitted)) - {n};
      assert forall k | 0 <= k < |emitted| :: emitted[k] != n;
      OrderNoDuplicates(nodes, links, emitted + [n]);
    }
  }

  /** Every edge into a node of the order comes from a node emitted before it. */
  ghost predicate RespectsEdges(nodes: map<string, Definition>, links: seq<Link>, order: seq<string>) {
    forall k, j | 0 <= k < |order| && 0 <= j < |links| && links[j].to == order[k] && IsEdge(nodes, links[j]) ::
      links[j].from in order[..k]
  }

  lemma {:induction false} OrderRespectsEdges(nodes: map<string, Definition>, links: seq<Link>, emitted: seq<string>)
    requires AllNodes(nodes, emitted) && RespectsEdges(nodes, links, emitted)
    ensures RespectsEdges(nodes, links, Order(nodes, links, emitted))
    decreases |nodes.Keys - Emitted(emitted)|
  {
    var available := Available(nodes, links, emitted);
    if available != {} {
      var n := FirstAvailable(nodes, available);
      var next := emitted + [n];
      assert nodes.Keys - Emitted(next) == (nodes.Keys - Emitted(emitted)) - {n};
      forall k, j | 0 <= k < |next| && 0 <= j < |links| && links[j].to == next[k] && IsEdge(nodes, links[j])
        ensures links[j].from in next[..k]
      {
        if k < |emitted| {
          assert next[..k] == emitted[..k];
        } else {
          assert !Pending(nodes, links[j], n, emitted);
          assert next[..k] == emitted;
        }
      }
      OrderRespectsEdges(nodes, links, next);
    }
  }

  /** From position `from` on, each node is the first available one, by
      priority then name, once the nodes before it are emitted. */
  ghost predicate Greedy(nodes: map<string, Definition>, links: seq<Link>, order: seq<string>, from: nat) {
    forall k | from <= k < |order| :: AllNodes(nodes, order[..k]) && IsMinimum(nodes, Available(nodes, links, order[..k]), order[k])
  }

  lemma {:induction false} OrderGreedy(nodes: map<string, Definition>, links: seq<Link>, emitted: seq<string>)
    requires AllNodes(nodes, emitted)
    ensures Greedy(nodes, links, Order(nodes, links, emitted), |emitted|)
    decreases |nodes.Keys - Emitted(emitted)|
  {
    var available := Available(nodes, links, emitted);
    if available != {} {
      var n := FirstAvailable(nodes, available);
      var next := emitted + [n];
      assert nodes.Keys - Emitted(next) == (nodes.Keys - Emitted(emitted)) - {n};
      OrderGreedy(nodes, links, next);
      OrderFacts(nodes, links, next);
      var order := Order(nodes, links, next);
      assert order[..|emitted|] == emitted && order[|emitted|] == n by {
        assert next <= order;
        assert order[..|next|] == next;
        assert order[..|emitted|] == order[..|next|][..|emitted|];
      }
      GreedyExtend(nodes, links, order, |emitted|);
    }
  }

  /** A greedy suffix extends by one position holding a minimum of the available nodes. */
  lemma GreedyExtend(nodes: map<string, Definition>, links: seq<Link>, order: seq<string>, from: nat)
    requires from < |order| && Greedy(nodes, links, order, from + 1)
    requires AllNodes(nodes, order[..from]) && IsMinimum(nodes, Available(nodes, links, order[..from]), order[from])
    ensures Greedy(nodes, links, order, from)
  {
  }


  lemma {:induction false} DistinctCount(s: seq<string>)
    requires NoDuplicates(s)
    ensures |Emitted(s)| == |s|
    decreases |s|
  {
    if s != [] {
      var init := s[..|s| - 1];
      var last := s[|s| - 1];
      InitNoDuplicates(s);
      DistinctCount(init);
      EmittedSnoc(init, last);
      assert s == init + [last];
    }
  }

  lemma InitNoDuplicates(s: seq<string>)
    requires NoDuplicates(s) && s != []
    ensures NoDuplicates(s[..|s| - 1]) && s[|s| - 1] !in s[..|s| - 1]
  {
    var init := s[..|s| - 1];
    assert forall k | 0 <= k < |init| :: init[k] == s[k];
  }

  lemma EmittedSnoc(init: seq<string>, last: string)
    ensures Emitted(init + [last]) == Emitted(init) + {last}
  {
    var s := init + [last];
    assert s[|init|] == last;
    forall x | x in Emitted(init) ensures x in Emitted(s) {
      var k :| 0 <= k < |init| && init[k] == x;
      assert s[k] == x;
    }
  }

  /** The order reaches every node exactly when it is as long as the node map. */
  lemma CompleteIffAllEmitted(nodes: map<string, Definition>, order: seq<string>)
    requires AllNodes(nodes, order) && NoDuplicates(order)
    ensures |order| == |nodes| <==> nodes.Keys <= Emitted(order)
  {
    DistinctCount(order);
    var e := Emitted(order);
    assert e <= nodes.Keys;
    assert |nodes.Keys| == |nodes|;
    if !(nodes.Keys <= e) {
      var x :| x in nodes.Keys && x !in e;
      var rest := nodes.Keys - {x};
      assert e <= rest;
      assert rest == e + (rest - e) && e * (rest - e) == {};
      assert |nodes.Keys| == |rest| + 1;
    }
    if nodes.Keys <= e {
      assert e == nodes.Keys;
    }
  }

  /** The properties of the finished order: it lists distinct nodes, each
      the first available one by priority then name, each after every
      node with an edge into it; and when it misses a node, every missed
      node still has an edge from a missed node, so the graph has a cycle. */
  lemma OrderIsKahn(nodes: map<string, Definition>, links: seq<Link>)
    ensures var order := Order(nodes, links, []);
      AllNodes(nodes, order) && NoDuplicates(order)
      && RespectsEdges(nodes, links, order)
      && Greedy(nodes, links, order, 0)
      && (|order| == |nodes| <==> forall n | n in nodes :: n in order)
    ensures var order := Order(nodes, links, []);
      forall n | n in nodes && n !in order ::
        exists j :: 0 <= j < |links| && links[j].to == n && IsEdge(nodes, links[j]) && links[j].from !in order
  {
    var order := Order(nodes, links, []);
    OrderFacts(nodes, links, []);
    OrderNoDuplicates(nodes, links, []);
    OrderRespectsEdges(nodes, links, []);
    OrderGreedy(nodes, links, []);
    CompleteIffAllEmitted(nodes, order);
    forall n | n in nodes && n !in order
      ensures exists j :: 0 <= j < |links| && links[j].to == n && IsEdge(nodes, links[j]) && links[j].from !in order
    {
      assert n !in Available(nodes, links, order);
      var j :| 0 <= j < |links| && Pending(nodes, links[j], n, order);
    }
  }

  lemma {:induction false} AfterLinkPresent(name: string, after: seq<string>, previous: string)
    requires previous in after && previous != []
    ensures Link(previous, name) in AfterLinks(name, after)
    decreases |after|
  {
    if after[|after| - 1] != previous {
      assert previous in after[..|after| - 1] by {
        assert after == after[..|after| - 1] + [after[|after| - 1]];
      }
      AfterLinkPresent(name, after[..|after| - 1], previous);
    }
  }

  lemma {:induction false} BeforeLinkPresent(name: string, before: seq<string>, next: string)
    requires next in before && next != []
    ensures Link(name, next) in BeforeLinks(name, before)
    decreases |before|
  {
    if before[|before| - 1] != next {
      assert next in before[..|before| - 1] by {
        assert before == before[..|before| - 1] + [before[|before| - 1]];
      }
      BeforeLinkPresent(name, before[..|before| - 1], next);
    }
  }

  lemma {:induction false} LinksOfHas(definitions: seq<Definition>, k: nat, link: Link)
    requires k < |definitions| && link in DefinitionLinks(definitions[k])
    ensures link in LinksOf(definitions)
    decreases |definitions|
  {
    if k < |definitions| - 1 {
      LinksOfHas(definitions[..|definitions| - 1], k, link);
    }
  }

  /** A link between two nodes is honoured by a complete order. */
  lemma LinkHonoured(nodes: map<string, Definition>, links: seq<Link>, link: Link)
    requires link in links && IsEdge(nodes, link)
    requires |Order(nodes, links, [])| == |nodes|
    ensures var order := Order(nodes, links, []);
      exists i, j :: 0 <= i < j < |order| && order[i] == link.from && order[j] == link.to
  {
    var order := Order(nodes, links, []);
    OrderFacts(nodes, links, []);
    OrderNoDuplicates(nodes, links, []);
    OrderRespectsEdges(nodes, links, []);
    CompleteIffAllEmitted(nodes, order);
    var l :| 0 <= l < |links| && links[l] == link;
    assert link.to in Emitted(order);
    var j :| 0 <= j < |order| && order[j] == link.to;
    assert links[l].from in order[..j];
    var i :| 0 <= i < j && order[..j][i] == link.from;
    assert order[i] == link.from;
  }

  /** Without a cycle, each named "after" entry comes before the middleware
      and each named "before" entry after it, whenever both are selected. */
  lemma AfterAndBeforeRespected(definitions: seq<Definition>, k: nat, other: string)
    requires k < |definitions| && definitions[k].name != [] && other != [] && other in NodesOf(definitions)
    requires definitions != [] && !Ordered(definitions).1
    ensures var result := Ordered(definitions).0; var name := definitions[k].name;
      (other in definitions[k].after ==>
        exists i, j :: 0 <= i < j < |result| && result[i].name == other && result[j].name == name)
      && (other in definitions[k].before ==>
        exists i, j :: 0 <= i < j < |result| && result[i].name == name && result[j].name == other)
  {
    var name := definitions[k].name;
    assert name in NodesOf(definitions);
    if other in definitions[k].after {
      AfterLinkPresent(name, definitions[k].after, other);
      LinksOfHas(definitions, k, Link(other, name));
      LinkOrdered(definitions, Link(other, name));
    }
    if other in definitions[k].before {
      BeforeLinkPresent(name, definitions[k].before, other);
      LinksOfHas(definitions, k, Link(name, other));
      LinkOrdered(definitions, Link(name, other));
    }
  }

  /** Without a cycle, a link between two selected definitions orders them. */
  lemma LinkOrdered(definitions: seq<Definition>, link: Link)
    requires definitions != [] && !Ordered(definitions).1
    requires link in LinksOf(definitions) && IsEdge(NodesOf(definitions), link)
    ensures var result := Ordered(definitions).0;
      exists i, j :: 0 <= i < j < |result| && result[i].name == link.from && result[j].name == link.to
  {
    var nodes := NodesOf(definitions);
    var links := LinksOf(definitions);
    var order := Order(nodes, links, []);
    OrderFacts(nodes, links, []);
    var result := Ordered(definitions).0;
    assert result == DefinitionsOf(nodes, order);
    LinkHonoured(nodes, links, link);
    var i, j :| 0 <= i < j < |order| && order[i] == link.from && order[j] == link.to;
    assert result[i].name == link.from && result[j].name == link.to;
  }

  /** `uniqueSorted`: the distinct non-empty values in ascending order. */
  method UniqueSorted(values: seq<string>) returns (r: seq<string>)
    ensures StrictlySorted(r)
    ensures forall x :: x in r <==> x in values && x != []
  {
    if |values| == 0 {
      return [];
    }
    var unique: set<string> := {};
    for i := 0 to |values|
      invariant forall x :: x in unique <==> x in values[..i] && x != []
    {
      assert values[..i + 1] == values[..i] + [values[i]];
      if values[i] != [] {
        unique := unique + {values[i]};
      }
    }
    assert values[..|values|] == values;
    r := SortedSetElements(unique);
  }

  /** The order `orderDefinitions` returns: the Kahn order of the named
      definitions, or every definition sorted by priority, then name, when
      the order does not reach every node. */
  ghost function Ordered(definitions: seq<Definition>): (r: (seq<Definition>, bool))
  {
    if definitions == [] then ([], false)
    else
      var nodes := NodesOf(definitions);
      var order := Order(nodes, LinksOf(definitions), []);
      if |order| != |nodes| then (SortDefinitions(definitions), true)
      else
        OrderFacts(nodes, LinksOf(definitions), []);
        (DefinitionsOf(nodes, order), false)
  }

  /** `orderDefinitions`: builds the graph, runs the Kahn loop and falls
      back to the sorted definitions on a cycle. */
  method OrderDefinitions(definitions: seq<Definition>)
    returns (result: seq<Definition>, missingReferences: seq<string>, cycleDetected: bool)
    ensures (result, cycleDetected) == Ordered(definitions)
    ensures StrictlySorted(missingReferences)
    ensures forall x :: x in missingReferences <==>
      x in MissingOf(LinksOf(definitions), NodesOf(definitions)) && x != []
  {
    if |definitions| == 0 {
      return [], [], false;
    }
    var nodes, out, inDegree, missing := BuildGraph(definitions);
    ghost var links := LinksOf(definitions);
    var ready := InitialReady(nodes, inDegree, links);
    ghost var order;
    result, order := EmitReady(nodes, out, inDegree, ready, links);
    cycleDetected := false;
    if |result| != |nodes| {
      cycleDetected := true;
      result := SortDefinitions(definitions);
    }
    missingReferences := UniqueSorted(missing);
  }

  /** A complete order keeps, for each name, the last definition of it. */
  lemma {:induction false} NodesOfLastWins(definitions: seq<Definition>, k: nat)
    requires k < |definitions| && definitions[k].name != []
    requires forall m | k < m < |definitions| :: definitions[m].name != definitions[k].name
    ensures definitions[k].name in NodesOf(definitions) && NodesOf(definitions)[definitions[k].name] == definitions[k]
    decreases |definitions|
  {
    if k < |definitions| - 1 {
      var init := definitions[..|definitions| - 1];
      NodesOfLastWins(init, k);
    }
  }

  /** `d` is the last definition of its name. */
  ghost predicate IsLastOfName(definitions: seq<Definition>, d: Definition) {
    exists m | 0 <= m < |definitions| :: definitions[m] == d && forall m' | m < m' < |definitions| :: definitions[m'].name != d.name
  }

  lemma NodesOfSnoc(definitions: seq<Definition>)
    requires definitions != []
    ensures var last := definitions[|definitions| - 1];
      var nodes := NodesOf(definitions[..|definitions| - 1]);
      NodesOf(definitions) == if last.name == [] then nodes else nodes[last.name := last]
  {
  }

  lemma NodeIsLast(definitions: seq<Definition>, name: string)
    requires name in NodesOf(definitions)
    ensures IsLastOfName(definitions, NodesOf(definitions)[name])
  {
    var m := NodeIndex(definitions, name);
  }

  /** The position of the definition a name maps to: no later definition has that name. */
  lemma {:induction false} NodeIndex(definitions: seq<Definition>, name: string) returns (m: nat)
    requires name in NodesOf(definitions)
    ensures m < |definitions| && definitions[m] == NodesOf(definitions)[name]
    ensures forall m' | m < m' < |definitions| :: definitions[m'].name != name
    decreases |definitions|
  {
    var last := definitions[|definitions| - 1];
    var init := definitions[..|definitions| - 1];
    NodesOfSnoc(definitions);
    if last.name == name {
      m := |definitions| - 1;
    } else {
      m := NodeIndex(init, name);
      assert definitions[m] == init[m];
      LaterNamesDiffer(definitions, init, m, name);
    }
  }

  lemma LaterNamesDiffer(definitions: seq<Definition>, init: seq<Definition>, m: nat, name: string)
    requires definitions != [] && init == definitions[..|definitions| - 1]
    requires m < |init| && definitions[|definitions| - 1].name != name
    requires forall m' | m < m' < |init| :: init[m'].name != name
    ensures forall m' | m < m' < |definitions| :: definitions[m'].name != name
  {
    forall m' | m < m' < |definitions| ensures definitions[m'].name != name {
      if m' < |init| {
        assert definitions[m'] == init[m'];
      }
    }
  }

  /** Without a cycle the ordered definitions have distinct names, each the
      last selected definition of that name: of two duplicates that
      "allowDuplicates" let through, only the later one is ordered. */
  lemma OrderedDistinct(definitions: seq<Definition>)
    requires definitions != [] && !Ordered(definitions).1
    ensures var result := Ordered(definitions).0;
      forall i, j | 0 <= i < j < |result| :: result[i].name != result[j].name
    ensures var result := Ordered(definitions).0;
      forall i | 0 <= i < |result| :: result[i].name != [] && IsLastOfName(definitions, result[i])
  {
    var nodes := NodesOf(definitions);
    var links := LinksOf(definitions);
    var order := Order(nodes, links, []);
    OrderIsKahn(nodes, links);
    var result := Ordered(definitions).0;
    assert result == DefinitionsOf(nodes, order);
    forall i | 0 <= i < |result| ensures result[i].name != [] && IsLastOfName(definitions, result[i]) {
      NodeIsLast(definitions, order[i]);
    }
  }

  // ---------------------------------------------------------------------------
  // Building

  /** What the factory loop of `Build` produces from the ordered definitions:
      the middlewares and their names, or the first factory failure. */
  datatype Instantiation = Instantiation(middlewares: seq<nat>, names: seq<string>, error: Option<BuildError>)

  /** The definition is built: it has a name and a factory that does not fail. */
  predicate Buildable(definition: Definition) {
    definition.name == [] || (definition.factory.Some? && !definition.factory.value.FactoryFailed?)
  }

  function Instantiate(ordered: seq<Definition>): (r: Instantiation)
    ensures r.error.None? <==> forall k | 0 <= k < |ordered| :: Buildable(ordered[k])
    ensures r.error.Some? ==> r.middlewares == [] && r.names == []
    ensures r.error.Some? ==> exists k | 0 <= k < |ordered| ::
      !Buildable(ordered[k]) && (forall m | 0 <= m < k :: Buildable(ordered[m]))
      && r.error == Some(if ordered[k].factory.None? then NilFactory(ordered[k].name) else FactoryError(ordered[k].name))
    ensures |r.middlewares| == |r.names|
    decreases |ordered|
  {
    if ordered == [] then Instantiation([], [], None)
    else
      var definition := ordered[0];
      var rest := Instantiate(ordered[1..]);
      assert forall k | 1 <= k < |ordered| :: ordered[k] == ordered[1..][k - 1];
      if definition.name == [] then rest
      else if definition.factory.None? then Instantiation([], [], Some(NilFactory(definition.name)))
      else if definition.factory.value.FactoryFailed? then Instantiation([], [], Some(FactoryError(definition.name)))
      else if rest.error.Some? then rest
      else if definition.factory.value.NilMiddleware? then rest
      else Instantiation([definition.factory.value.middleware] + rest.middlewares, [definition.name] + rest.names, None)
  }

  /** The built middlewares are those of the named definitions whose factory
      returns one, in order, with their names. */
  function Produced(ordered: seq<Definition>): (r: seq<(nat, string)>)
    decreases |ordered|
  {
    if ordered == [] then []
    else
      var definition := ordered[0];
      (if definition.name != [] && definition.factory.Some? && definition.factory.value.Built?
       then [(definition.factory.value.middleware, definition.name)] else [])
      + Produced(ordered[1..])
  }

  lemma {:induction false} InstantiateProduces(ordered: seq<Definition>)
    requires Instantiate(ordered).error.None?
    ensures var r := Instantiate(ordered);
      |Produced(ordered)| == |r.middlewares|
      && forall k | 0 <= k < |r.middlewares| :: Produced(ordered)[k] == (r.middlewares[k], r.names[k])
    decreases |ordered|
  {
    if ordered != [] {
      var d := ordered[0];
      var r, rest := Instantiate(ordered), Instantiate(ordered[1..]);
      assert rest.error.None?;
      InstantiateProduces(ordered[1..]);
      var head := if d.name != [] && d.factory.Some? && d.factory.value.Built? then [(d.factory.value.middleware, d.name)] else [];
      assert Produced(ordered) == head + Produced(ordered[1..]);
      if head != [] {
        assert r.middlewares == [d.factory.value.middleware] + rest.middlewares;
        assert r.names == [d.name] + rest.names;
      } else {
        assert r == rest;
      }
    }
  }

  /** A built name is the name of one of the ordered definitions. */
  lemma {:induction false} ProducedFromOrdered(ordered: seq<Definition>)
    ensures forall k | 0 <= k < |Produced(ordered)| ::
      exists m | 0 <= m < |ordered| :: ordered[m].name == Produced(ordered)[k].1 && ordered[m].name != []
    decreases |ordered|
  {
    if ordered != [] {
      ProducedFromOrdered(ordered[1..]);
      var head := if ordered[0].name != [] && ordered[0].factory.Some? && ordered[0].factory.value.Built?
        then [(ordered[0].factory.value.middleware, ordered[0].name)] else [];
      assert Produced(ordered) == head + Produced(ordered[1..]);
      forall k | 0 <= k < |Produced(ordered)|
        ensures exists m | 0 <= m < |ordered| :: ordered[m].name == Produced(ordered)[k].1 && ordered[m].name != []
      {
        if k < |head| {
          assert Produced(ordered)[k] == head[k];
          assert ordered[0].name == Produced(ordered)[k].1;
        } else {
          assert Produced(ordered)[k] == Produced(ordered[1..])[k - |head|];
          var m :| 0 <= m < |ordered[1..]| && ordered[1..][m].name == Produced(ordered[1..])[k - |head|].1 && ordered[1..][m].name != [];
          assert ordered[m + 1] == ordered[1..][m];
        }
      }
    } else {
      assert Produced(ordered) == [];
    }
  }

  lemma {:induction false} ProducedDistinct(ordered: seq<Definition>)
    requires forall i, j | 0 <= i < j < |ordered| :: ordered[i].name != ordered[j].name
    ensures forall i, j | 0 <= i < j < |Produced(ordered)| :: Produced(ordered)[i].1 != Produced(ordered)[j].1
    decreases |ordered|
  {
    if ordered != [] {
      var rest := ordered[1..];
      assert forall i, j | 0 <= i < j < |rest| :: rest[i].name != rest[j].name by {
        assert forall i | 0 <= i < |rest| :: rest[i] == ordered[i + 1];
      }
      ProducedDistinct(rest);
      ProducedFromOrdered(rest);
      var head := if ordered[0].name != [] && ordered[0].factory.Some? && ordered[0].factory.value.Built?
        then [(ordered[0].factory.value.middleware, ordered[0].name)] else [];
      var p := Produced(ordered);
      assert p == head + Produced(rest);
      forall i, j | 0 <= i < j < |p| ensures p[i].1 != p[j].1 {
        assert p[j] == Produced(rest)[j - |head|];
        if i < |head| {
          var m :| 0 <= m < |rest| && rest[m].name == Produced(rest)[j - |head|].1 && rest[m].name != [];
          assert rest[m] == ordered[m + 1];
          assert p[i] == head[i];
        } else {
          assert p[i] == Produced(rest)[i - |head|];
        }
      }
    }
  }

  /** A pipeline built without error reports each middleware name once. */
  lemma BuiltNamesDistinct(selected: seq<Definition>)
    requires selected != [] && !Ordered(selected).1 && Instantiate(Ordered(selected).0).error.None?
    ensures var names := Instantiate(Ordered(selected).0).names;
      forall i, j | 0 <= i < j < |names| :: names[i] != names[j]
  {
    var ordered := Ordered(selected).0;
    OrderedDistinct(selected);
    ProducedDistinct(ordered);
    InstantiateProduces(ordered);
  }

  /** The factory loop of `Build`. */
  method InstantiateAll(ordered: seq<Definition>) returns (r: Instantiation)
    ensures r == Instantiate(ordered)
  {
    var middlewares: seq<nat> := [];
    var names: seq<string> := [];
    var index := 0;
    while index < |ordered|
      invariant 0 <= index <= |ordered|
      invariant Instantiate(ordered) == (var rest := Instantiate(ordered[index..]);
        if rest.error.Some? then rest else Instantiation(middlewares + rest.middlewares, names + rest.names, None))
    {
      var definition := ordered[index];
      assert ordered[index..][1..] == ordered[index + 1..];
      index := index + 1;
      if definition.name == [] {
        continue;
      }
      if definition.factory.None? {
        return Instantiation([], [], Some(NilFactory(definition.name)));
      }
      if definition.factory.value.FactoryFailed? {
        return Instantiation([], [], Some(FactoryError(definition.name)));
      }
      if definition.factory.value.NilMiddleware? {
        continue;
      }
      middlewares := middlewares + [definition.factory.value.middleware];
      names := names + [definition.name];
    }
    assert ordered[index..] == [];
    return Instantiation(middlewares, names, None);
  }

  /** `Builder`: the registered middleware definitions. */
  class Builder {
    var definitions: seq<Definition>

    /** `NewBuilder`. */
    constructor(definitions: seq<Definition>)
      ensures this.definitions == definitions
    {
      this.definitions := definitions;
    }

    /** `Add` appends the definitions given; none given changes nothing. */
    method Add(definitions: seq<Definition>)
      modifies this
      ensures this.definitions == old(this.definitions) + definitions
    {
      if |definitions| == 0 {
        assert old(this.definitions) + definitions == old(this.definitions);
        return;
      }
      this.definitions := this.definitions + definitions;
    }

    /** `Build`: selects, orders and instantiates. A cycle or a missing
        reference fails with the report; a factory failure fails without one. */
    method Build(environment: string, group: string)
      returns (middlewares: seq<nat>, report: Option<BuildReport>, err: Option<BuildError>)
      ensures BuildAnswers(Select(definitions, environment, group).selected, Select(definitions, environment, group).inactive,
        environment, group, middlewares, report, err)
    {
      var selected, inactive := SelectDefinitions(definitions, environment, group);
      var ordered, missingReferences, cycleDetected := OrderDefinitions(selected);
      var built := BuildReport(group, environment, [], inactive, missingReferences, cycleDetected);
      if cycleDetected {
        CycleAnswer(selected, inactive, environment, group, missingReferences);
        return [], Some(built), Some(PipelineCycle(group));
      }
      if 0 < |missingReferences| {
        MissingAnswer(selected, inactive, environment, group, missingReferences);
        return [], Some(built), Some(MissingReferences(group, missingReferences));
      }
      var instantiation := InstantiateAll(ordered);
      InstantiatedAnswer(selected, inactive, environment, group, missingReferences);
      if instantiation.error.Some? {
        return [], None, instantiation.error;
      }
      return instantiation.middlewares, Some(built.(selectedNames := instantiation.names)), None;
    }
  }

  /** What `Build` answers for the selected and inactive definitions: a cycle
      fails with the report; otherwise missing references fail with the report
      listing them; otherwise the instantiation's middlewares and error, with a
      report naming the built middlewares exactly when nothing failed. Every
      report carries the group, the environment, the inactive definitions, the
      cycle flag and the sorted missing references. */
  ghost predicate BuildAnswers(selected: seq<Definition>, inactive: seq<InactiveMiddleware>, environment: string, group: string,
                               middlewares: seq<nat>, report: Option<BuildReport>, err: Option<BuildError>)
  {
    var ordered := Ordered(selected);
    var missing := MissingOf(LinksOf(selected), NodesOf(selected));
    var built := Instantiate(ordered.0);
    (ordered.1 ==> middlewares == [] && err == Some(PipelineCycle(group)) && report.Some?)
    && (!ordered.1 && (exists x :: x in missing && x != []) ==>
          middlewares == [] && report.Some? && err == Some(MissingReferences(group, report.value.missingReferences)))
    && (!ordered.1 && (forall x :: x in missing ==> x == []) ==>
          middlewares == built.middlewares && err == built.error && (built.error.Some? <==> report.None?))
    && (report.Some? && err.None? ==> report.value.selectedNames == built.names)
    && (report.Some? ==>
          report.value.requestedGroup == group && report.value.kernelEnv == environment
          && report.value.inactive == inactive && report.value.cycleDetected == ordered.1
          && StrictlySorted(report.value.missingReferences)
          && forall x :: x in report.value.missingReferences <==> x in missing && x != [])
    && (err.Some? || report.Some?)
  }

  /** The facts `orderDefinitions` gives about the missing references. */
  ghost predicate MissingListed(selected: seq<Definition>, missingReferences: seq<string>) {
    StrictlySorted(missingReferences)
    && forall x :: x in missingReferences <==> x in MissingOf(LinksOf(selected), NodesOf(selected)) && x != []
  }

  lemma CycleAnswer(selected: seq<Definition>, inactive: seq<InactiveMiddleware>, environment: string, group: string,
                    missingReferences: seq<string>)
    requires Ordered(selected).1 && MissingListed(selected, missingReferences)
    ensures BuildAnswers(selected, inactive, environment, group, [],
      Some(BuildReport(group, environment, [], inactive, missingReferences, true)), Some(PipelineCycle(group)))
  {
  }

  lemma MissingAnswer(selected: seq<Definition>, inactive: seq<InactiveMiddleware>, environment: string, group: string,
                      missingReferences: seq<string>)
    requires !Ordered(selected).1 && MissingListed(selected, missingReferences) && 0 < |missingReferences|
    ensures BuildAnswers(selected, inactive, environment, group, [],
      Some(BuildReport(group, environment, [], inactive, missingReferences, false)), Some(MissingReferences(group, missingReferences)))
  {
    assert missingReferences[0] in MissingOf(LinksOf(selected), NodesOf(selected)) && missingReferences[0] != [];
  }

  lemma InstantiatedAnswer(selected: seq<Definition>, inactive: seq<InactiveMiddleware>, environment: string, group: string,
                           missingReferences: seq<string>)
    requires !Ordered(selected).1 && MissingListed(selected, missingReferences) && |missingReferences| == 0
    ensures var built := Instantiate(Ordered(selected).0);
      BuildAnswers(selected, inactive, environment, group, built.middlewares,
        if built.error.Some? then None else Some(BuildReport(group, environment, built.names, inactive, [], false)), built.error)
  {
    assert forall x :: x !in missingReferences;
  }
}
