/** `Close` of the service container in `v2/container/container_close.go`:
    the created instances are closed dependents first, the greatest ready
    key first among equals, with nodes left on a dependency cycle appended
    in descending order; every pointer is closed at most once, and a second
    `Close` returns the stored error. */
module ContainerClose {
  import opened Wrappers
  import opened Strings

  const ServicePrefix := "service:"
  const TypePrefix := "type:"

  /** A created instance as the close loop sees it: the pointer it is when it
      is a non-nil pointer, whether it has `Close() error`, and the error that
      call returns. */
  datatype Instance = Instance(pointer: Option<nat>, closeable: bool, closeError: Option<string>)

  /** The node keys of the created services and typed instances. */
  function CreatedKeys(instances: map<string, Instance>, typeInstances: map<string, Instance>): set<string> {
    (set name | name in instances :: ServicePrefix + name) + (set t | t in typeInstances :: TypePrefix + t)
  }

  /** The dependencies of a created node that are themselves created. */
  function Dependencies(graph: map<string, set<string>>, created: set<string>, dependent: string): set<string> {
    if dependent in created && dependent in graph then graph[dependent] * created else {}
  }

  /** The created dependents of `key` that are not closed yet. */
  function Pending(graph: map<string, set<string>>, created: set<string>, key: string, closed: set<string>): set<string> {
    set d | d in created && d !in closed && key in Dependencies(graph, created, d)
  }

  /** The keys no unclosed dependent waits for. */
  function Ready(graph: map<string, set<string>>, created: set<string>, closed: set<string>): set<string> {
    set k | k in created && k !in closed && Pending(graph, created, k, closed) == {}
  }

  function Elements(s: seq<string>): set<string> {
    set x | x in s
  }

  predicate GreatestIn(x: string, s: set<string>) {
    x in s && forall y :: y in s ==> LessEq(y, x)
  }

  predicate StrictlyDescending(s: seq<string>) {
    forall i, j :: 0 <= i < j < |s| ==> Less(s[j], s[i])
  }

  /** Every key of `popped` is the greatest of those ready after the keys
      before it. */
  predicate GreedyPops(graph: map<string, set<string>>, created: set<string>, popped: seq<string>) {
    forall i :: 0 <= i < |popped| ==> GreatestIn(popped[i], Ready(graph, created, Elements(popped[..i])))
  }

  /** The close order: `popped` takes the greatest ready key at every step
      until none is ready, and `remaining`, the keys on a cycle, follows in
      descending order. */
  predicate ClosingOrder(graph: map<string, set<string>>, created: set<string>, popped: seq<string>, remaining: seq<string>) {
    GreedyPops(graph, created, popped)
    && Ready(graph, created, Elements(popped)) == {}
    && Elements(remaining) == created - Elements(popped)
    && StrictlyDescending(remaining)
  }

  // ---------------------------------------------------------------------------
  // What the close order guarantees

  lemma ElementsSnoc(s: seq<string>, x: string)
    ensures Elements(s + [x]) == Elements(s) + {x}
  {
    assert forall y :: y in s + [x] <==> y in s || y == x;
  }

  lemma {:induction false} PoppedDistinct(graph: map<string, set<string>>, created: set<string>, popped: seq<string>)
    requires GreedyPops(graph, created, popped)
    ensures NoDuplicates(popped) && Elements(popped) <= created
  {
    forall i, j | 0 <= i < j < |popped| ensures popped[i] != popped[j] {
      assert popped[..j][i] == popped[i];
    }
    forall x | x in Elements(popped) ensures x in created {
      var i :| 0 <= i < |popped| && popped[i] == x;
    }
  }

  /** Every created key is closed exactly once, in one of the two parts. */
  lemma ClosingOrderCovers(graph: map<string, set<string>>, created: set<string>, popped: seq<string>, remaining: seq<string>)
    requires ClosingOrder(graph, created, popped, remaining)
    ensures NoDuplicates(popped + remaining)
    ensures Elements(popped + remaining) == created
  {
    PoppedDistinct(graph, created, popped);
    var order := popped + remaining;
    forall i, j | 0 <= i < j < |order| ensures order[i] != order[j] {
      if j < |popped| {
      } else if i < |popped| {
        assert order[j] in Elements(remaining);
        assert order[i] in Elements(popped);
      } else {
        assert Less(remaining[j - |popped|], remaining[i - |popped|]);
        LessIrreflexive(order[i]);
      }
    }
    assert forall x :: x in order <==> x in popped || x in remaining;
    assert Elements(order) == Elements(popped) + Elements(remaining);
  }

  /** Dependents close first: when a key is popped, every created dependent
      of it was popped before it. */
  lemma DependentsFirst(graph: map<string, set<string>>, created: set<string>, popped: seq<string>, remaining: seq<string>, i: nat, dependent: string)
    requires ClosingOrder(graph, created, popped, remaining)
    requires i < |popped| && dependent in created && popped[i] in Dependencies(graph, created, dependent)
    ensures exists j :: 0 <= j < i && popped[j] == dependent
  {
    var closed := Elements(popped[..i]);
    assert popped[i] in Ready(graph, created, closed);
    assert dependent !in Pending(graph, created, popped[i], closed);
    assert dependent in popped[..i];
    var j :| 0 <= j < i && popped[..i][j] == dependent;
  }

  /** A key left over waits for a dependent that is itself left over, so the
      leftover keys are exactly those on or behind a dependency cycle. */
  lemma RemainingWaitOnEachOther(graph: map<string, set<string>>, created: set<string>, popped: seq<string>, remaining: seq<string>, key: string)
    requires ClosingOrder(graph, created, popped, remaining)
    requires key in Elements(remaining)
    ensures exists d :: d in Elements(remaining) && key in Dependencies(graph, created, d)
  {
    assert key !in Ready(graph, created, Elements(popped));
    var d :| d in Pending(graph, created, key, Elements(popped));
  }

  lemma GreatestUnique(x: string, y: string, s: set<string>)
    requires GreatestIn(x, s) && GreatestIn(y, s)
    ensures x == y
  {
    if x != y {
      LessAsymmetric(x, y);
    }
  }

  /** The close order is determined by the created keys and the graph. */
  lemma ClosingOrderUnique(graph: map<string, set<string>>, created: set<string>, p1: seq<string>, r1: seq<string>, p2: seq<string>, r2: seq<string>)
    requires ClosingOrder(graph, created, p1, r1) && ClosingOrder(graph, created, p2, r2)
    ensures p1 == p2 && r1 == r2
  {
    CommonPrefix(graph, created, p1, p2, if |p1| < |p2| then |p1| else |p2|);
    assert p1 == p1[..|p1|] && p2 == p2[..|p2|];
    DescendingUnique(r1, r2);
  }

  lemma {:induction false} CommonPrefix(graph: map<string, set<string>>, created: set<string>, p1: seq<string>, p2: seq<string>, n: nat)
    requires n <= |p1| && n <= |p2|
    requires GreedyPops(graph, created, p1) && GreedyPops(graph, created, p2)
    ensures p1[..n] == p2[..n]
  {
    if n > 0 {
      CommonPrefix(graph, created, p1, p2, n - 1);
      assert p1[..n - 1] == p2[..n - 1];
      GreatestUnique(p1[n - 1], p2[n - 1], Ready(graph, created, Elements(p1[..n - 1])));
      assert p1[..n] == p1[..n - 1] + [p1[n - 1]];
      assert p2[..n] == p2[..n - 1] + [p2[n - 1]];
    }
  }

  function Reversed(s: seq<string>): (r: seq<string>)
    ensures |r| == |s|
  {
    seq(|s|, k requires 0 <= k < |s| => s[|s| - 1 - k])
  }

  lemma ReversedDescending(s: seq<string>)
    requires StrictlySorted(s)
    ensures StrictlyDescending(Reversed(s))
    ensures Elements(Reversed(s)) == Elements(s)
  {
    var r := Reversed(s);
    forall x | x in s ensures x in r {
      var k :| 0 <= k < |s| && s[k] == x;
      assert r[|s| - 1 - k] == x;
    }
  }

  lemma DescendingUnique(a: seq<string>, b: seq<string>)
    requires StrictlyDescending(a) && StrictlyDescending(b) && Elements(a) == Elements(b)
    ensures a == b
  {
    var ra := Reversed(a);
    var rb := Reversed(b);
    forall x ensures x in ra <==> x in rb {
      if x in ra {
        var k :| 0 <= k < |ra| && ra[k] == x;
        assert a[|a| - 1 - k] == x && x in Elements(b);
        var m :| 0 <= m < |b| && b[m] == x;
        assert rb[|b| - 1 - m] == x;
      }
      if x in rb {
        var k :| 0 <= k < |rb| && rb[k] == x;
        assert b[|b| - 1 - k] == x && x in Elements(a);
        var m :| 0 <= m < |a| && a[m] == x;
        assert ra[|a| - 1 - m] == x;
      }
    }
    StrictlySortedUnique(ra, rb);
    forall k | 0 <= k < |a| ensures a[k] == b[k] {
      assert ra[|a| - 1 - k] == a[k];
    }
  }

  const DiamondGraph: map<string, set<string>> := map["a" := {"b", "c"}, "b" := {"d"}, "c" := {"d"}]
  const DiamondKeys: set<string> := {"a", "b", "c", "d"}

  /** The ready keys of the diamond as `a`, `c` and `b` close. */
  lemma DiamondReady()
    ensures Ready(DiamondGraph, DiamondKeys, {}) == {"a"}
    ensures Ready(DiamondGraph, DiamondKeys, {"a"}) == {"b", "c"}
    ensures Ready(DiamondGraph, DiamondKeys, {"a", "c"}) == {"b"}
    ensures Ready(DiamondGraph, DiamondKeys, {"a", "c", "b"}) == {"d"}
    ensures Ready(DiamondGraph, DiamondKeys, DiamondKeys) == {}
  {
    assert Dependencies(DiamondGraph, DiamondKeys, "a") == {"b", "c"};
    assert Dependencies(DiamondGraph, DiamondKeys, "b") == {"d"};
    assert Dependencies(DiamondGraph, DiamondKeys, "c") == {"d"};
    assert Dependencies(DiamondGraph, DiamondKeys, "d") == {};
    assert "a" in Pending(DiamondGraph, DiamondKeys, "b", {});
    assert "a" in Pending(DiamondGraph, DiamondKeys, "c", {});
    assert "b" in Pending(DiamondGraph, DiamondKeys, "d", {});
    assert "b" in Pending(DiamondGraph, DiamondKeys, "d", {"a"});
    assert "b" in Pending(DiamondGraph, DiamondKeys, "d", {"a", "c"});
  }

  /** The diamond: `a` needs `b` and `c`, both of which need `d`. Only `a` is
      ready at first; then `c` and `b` both are, and the greater, `c`, goes
      first. */
  lemma DiamondOrder()
    ensures ClosingOrder(DiamondGraph, DiamondKeys, ["a", "c", "b", "d"], [])
  {
    var order := ["a", "c", "b", "d"];
    DiamondReady();
    assert Less("b", "c");
    assert order[..0] == [] && order[..1] == ["a"] && order[..2] == ["a", "c"] && order[..3] == ["a", "c", "b"];
    assert Elements(order[..0]) == {};
    assert Elements(order[..1]) == {"a"};
    assert Elements(order[..2]) == {"a", "c"};
    assert Elements(order[..3]) == {"a", "c", "b"};
    assert Elements(order) == DiamondKeys;
  }

  /** Every close of the diamond goes a, c, b, d, with nothing left over. */
  lemma DiamondCloseOrder(popped: seq<string>, remaining: seq<string>)
    requires ClosingOrder(DiamondGraph, DiamondKeys, popped, remaining)
    ensures popped == ["a", "c", "b", "d"] && remaining == []
  {
    DiamondOrder();
    ClosingOrderUnique(DiamondGraph, DiamondKeys, popped, remaining, ["a", "c", "b", "d"], []);
  }

  // ---------------------------------------------------------------------------
  // The in-degree count

  /** `inDegree` holds, for each created key, how many unclosed created
      dependents it has. */
  predicate DegreesCount(graph: map<string, set<string>>, created: set<string>, degree: map<string, int>, closed: set<string>) {
    forall k :: k in created ==> k in degree && degree[k] == |Pending(graph, created, k, closed)|
  }

  /** The dependents among `done` that name `key`, as counted so far. */
  function Counted(graph: map<string, set<string>>, created: set<string>, key: string, done: set<string>): set<string> {
    set d | d in done && d in created && key in Dependencies(graph, created, d)
  }

  lemma CountedAdd(graph: map<string, set<string>>, created: set<string>, key: string, done: set<string>, d: string)
    requires d !in done
    ensures key in Dependencies(graph, created, d) && d in created ==>
      Counted(graph, created, key, done + {d}) == Counted(graph, created, key, done) + {d}
      && |Counted(graph, created, key, done + {d})| == |Counted(graph, created, key, done)| + 1
    ensures !(key in Dependencies(graph, created, d) && d in created) ==>
      Counted(graph, created, key, done + {d}) == Counted(graph, created, key, done)
  {
  }

  /** The loop of lines 74-91 for one created dependent: each of its
      created dependencies gains one. */
  method Increment(degree0: map<string, int>, dependencies0: set<string>)
    returns (degree: map<string, int>)
    ensures degree.Keys == degree0.Keys
    ensures forall k :: k in degree0 ==> degree[k] == if k in dependencies0 then degree0[k] + 1 else degree0[k]
  {
    degree := degree0;
    var dependencies := dependencies0;
    while dependencies != {}
      invariant dependencies <= dependencies0 && degree.Keys == degree0.Keys
      invariant forall k :: k in degree0 ==> degree[k] == if k in dependencies0 - dependencies then degree0[k] + 1 else degree0[k]
      decreases |dependencies|
    {
      var dependencyKey :| dependencyKey in dependencies;
      assert dependencies0 - (dependencies - {dependencyKey}) == (dependencies0 - dependencies) + {dependencyKey};
      dependencies := dependencies - {dependencyKey};
      if dependencyKey in degree {
        degree := degree[dependencyKey := degree[dependencyKey] + 1];
      }
    }
  }

  /** One dependent's edges, added to the counts (lines 69-92). */
  method CountDependent(graph: map<string, set<string>>, created: set<string>, degree0: map<string, int>, done: set<string>, dependent: string)
    returns (degree: map<string, int>)
    requires dependent in graph && dependent !in done && degree0.Keys == created
    requires forall k :: k in created ==> degree0[k] == |Counted(graph, created, k, done)|
    ensures degree.Keys == created
    ensures forall k :: k in created ==> degree[k] == |Counted(graph, created, k, done + {dependent})|
  {
    degree := degree0;
    if dependent in created {
      degree := Increment(degree0, graph[dependent]);
    }
    forall k | k in created ensures degree[k] == |Counted(graph, created, k, done + {dependent})| {
      CountedAdd(graph, created, k, done, dependent);
    }
  }

  /** The in-degree of every created key (lines 62-92). */
  method InDegrees(graph: map<string, set<string>>, created: set<string>) returns (degree: map<string, int>)
    ensures degree.Keys == created
    ensures DegreesCount(graph, created, degree, {})
  {
    degree := map k | k in created :: 0;
    var todo := graph.Keys;
    var done: set<string> := {};
    while todo != {}
      invariant todo * done == {} && todo + done == graph.Keys
      invariant degree.Keys == created
      invariant forall k :: k in created ==> degree[k] == |Counted(graph, created, k, done)|
      decreases |todo|
    {
      var dependentKey :| dependentKey in todo;
      degree := CountDependent(graph, created, degree, done, dependentKey);
      todo := todo - {dependentKey};
      done := done + {dependentKey};
    }
    forall k | k in created ensures Counted(graph, created, k, done) == Pending(graph, created, k, {}) {
    }
  }

  // ---------------------------------------------------------------------------
  // Draining the ready keys

  /** The greatest of a non-empty set of keys: what `heap.Pop` of the
      max-heap returns. */
  method Greatest(keys: set<string>) returns (g: string)
    requires keys != {}
    ensures GreatestIn(g, keys)
  {
    g :| g in keys;
    var rest := keys - {g};
    while rest != {}
      invariant g in keys && rest <= keys
      invariant forall y :: y in keys && y !in rest ==> LessEq(y, g)
      decreases |rest|
    {
      var y :| y in rest;
      rest := rest - {y};
      LessTotal(g, y);
      if Less(g, y) {
        forall z | z in keys && z !in rest && z != y ensures Less(z, y) {
          if z != g { LessTransitive(z, g, y); }
        }
        g := y;
      }
    }
  }

  lemma PendingRelease(graph: map<string, set<string>>, created: set<string>, key: string, closed: set<string>, current: string)
    requires current in created && current !in closed
    ensures key in Dependencies(graph, created, current) ==>
      current in Pending(graph, created, key, closed)
      && Pending(graph, created, key, closed + {current}) == Pending(graph, created, key, closed) - {current}
      && |Pending(graph, created, key, closed + {current})| == |Pending(graph, created, key, closed)| - 1
    ensures key !in Dependencies(graph, created, current) ==>
      Pending(graph, created, key, closed + {current}) == Pending(graph, created, key, closed)
  {
  }

  /** The keys among `seen` that no unclosed dependent waits for any more. */
  function Released(graph: map<string, set<string>>, created: set<string>, closed: set<string>, seen: set<string>): set<string> {
    set k | k in seen && Pending(graph, created, k, closed) == {}
  }

  lemma ReleasedAdd(graph: map<string, set<string>>, created: set<string>, closed: set<string>, seen: set<string>, key: string)
    ensures Released(graph, created, closed, seen + {key}) ==
      Released(graph, created, closed, seen) + (if Pending(graph, created, key, closed) == {} then {key} else {})
  {
  }

  /** After `current` closes, the ready keys are the others that were ready
      and those of its dependencies that nothing waits for any more. */
  lemma ReadyAfterRelease(graph: map<string, set<string>>, created: set<string>, closed: set<string>, current: string)
    requires current in Ready(graph, created, closed)
    requires forall k :: k in closed ==> Pending(graph, created, k, closed) == {}
    ensures Ready(graph, created, closed + {current}) ==
      (Ready(graph, created, closed) - {current}) + Released(graph, created, closed + {current}, Dependencies(graph, created, current))
    ensures forall k :: k in Dependencies(graph, created, current) ==> k !in closed + {current}
  {
    var next := closed + {current};
    forall k ensures k in Ready(graph, created, next) <==>
      k in (Ready(graph, created, closed) - {current}) + Released(graph, created, next, Dependencies(graph, created, current))
    {
      PendingRelease(graph, created, k, closed, current);
    }
    forall k | k in Dependencies(graph, created, current) ensures k !in next {
      PendingRelease(graph, created, k, closed, current);
    }
  }

  /** The loop of lines 118-126: every target loses one from its count, and
      those that reach zero are pushed. */
  method Decrement(degree0: map<string, int>, available0: set<string>, targets: set<string>)
    returns (degree: map<string, int>, available: set<string>)
    requires targets <= degree0.Keys
    ensures degree.Keys == degree0.Keys
    ensures forall k :: k in degree0 ==> degree[k] == if k in targets then degree0[k] - 1 else degree0[k]
    ensures available == available0 + (set k | k in targets && degree0[k] == 1)
  {
    degree := degree0;
    available := available0;
    var dependencies := targets;
    while dependencies != {}
      invariant dependencies <= targets && degree.Keys == degree0.Keys
      invariant forall k :: k in degree0 ==> degree[k] == if k in targets - dependencies then degree0[k] - 1 else degree0[k]
      invariant available == available0 + (set k | k in targets - dependencies && degree0[k] == 1)
      decreases |dependencies|
    {
      var dependencyKey :| dependencyKey in dependencies;
      assert targets - (dependencies - {dependencyKey}) == (targets - dependencies) + {dependencyKey};
      dependencies := dependencies - {dependencyKey};
      degree := degree[dependencyKey := degree[dependencyKey] - 1];
      if degree[dependencyKey] == 0 {
        available := available + {dependencyKey};
      }
    }
  }

  /** Closing `current` (lines 109-126): its dependencies lose one dependent
      each, and those left with none become ready. */
  method Release(graph: map<string, set<string>>, created: set<string>, degree0: map<string, int>, available0: set<string>, closed: set<string>, current: string)
    returns (degree: map<string, int>, available: set<string>)
    requires closed <= created && degree0.Keys == created && GreatestIn(current, available0)
    requires DegreesCount(graph, created, degree0, closed)
    requires available0 == Ready(graph, created, closed)
    requires forall k :: k in closed ==> Pending(graph, created, k, closed) == {}
    ensures degree.Keys == created
    ensures DegreesCount(graph, created, degree, closed + {current})
    ensures available == Ready(graph, created, closed + {current})
  {
    var next := closed + {current};
    var targets := Dependencies(graph, created, current);
    ReadyAfterRelease(graph, created, closed, current);
    degree, available := Decrement(degree0, available0 - {current}, targets);
    forall k | k in created ensures degree[k] == |Pending(graph, created, k, next)| {
      PendingRelease(graph, created, k, closed, current);
    }
    assert (set k | k in targets && degree0[k] == 1) == Released(graph, created, next, targets) by {
      forall k | k in targets ensures degree0[k] == 1 <==> Pending(graph, created, k, next) == {} {
        PendingRelease(graph, created, k, closed, current);
      }
    }
  }

  lemma GreedyPopsSnoc(graph: map<string, set<string>>, created: set<string>, popped: seq<string>, current: string)
    requires GreedyPops(graph, created, popped)
    requires GreatestIn(current, Ready(graph, created, Elements(popped)))
    ensures GreedyPops(graph, created, popped + [current])
  {
    var next := popped + [current];
    forall i | 0 <= i < |next| ensures GreatestIn(next[i], Ready(graph, created, Elements(next[..i]))) {
      if i < |popped| {
        assert next[..i] == popped[..i];
      } else {
        assert next[..i] == popped;
      }
    }
  }

  /** Closed keys keep no pending dependents once `current`, which had
      none, closes too. */
  lemma ClosedStayReleased(graph: map<string, set<string>>, created: set<string>, closed: set<string>, current: string)
    requires current in Ready(graph, created, closed)
    requires forall k :: k in closed ==> Pending(graph, created, k, closed) == {}
    ensures forall k :: k in closed + {current} ==> Pending(graph, created, k, closed + {current}) == {}
  {
    forall k | k in closed + {current} ensures Pending(graph, created, k, closed + {current}) == {} {
      assert Pending(graph, created, k, closed + {current}) <= Pending(graph, created, k, closed);
    }
  }

  /** What the pop loop keeps: `closed` holds the popped keys, the counts
      and the ready set are those of `closed`, and every pop was greedy. */
  predicate DrainState(graph: map<string, set<string>>, created: set<string>, popped: seq<string>, closed: set<string>, degree: map<string, int>, available: set<string>) {
    closed == Elements(popped) && closed <= created && degree.Keys == created
    && DegreesCount(graph, created, degree, closed)
    && available == Ready(graph, created, closed)
    && (forall k :: k in closed ==> Pending(graph, created, k, closed) == {})
    && GreedyPops(graph, created, popped)
  }

  /** One round of the pop loop (lines 109-126). */
  method PopGreatest(graph: map<string, set<string>>, created: set<string>, popped0: seq<string>, closed0: set<string>, degree0: map<string, int>, available0: set<string>)
    returns (popped: seq<string>, closed: set<string>, degree: map<string, int>, available: set<string>)
    requires DrainState(graph, created, popped0, closed0, degree0, available0) && available0 != {}
    ensures DrainState(graph, created, popped, closed, degree, available)
    ensures closed0 < closed <= created
  {
    var current := Greatest(available0);
    GreedyPopsSnoc(graph, created, popped0, current);
    ClosedStayReleased(graph, created, closed0, current);
    degree, available := Release(graph, created, degree0, available0, closed0, current);
    ElementsSnoc(popped0, current);
    popped := popped0 + [current];
    closed := closed0 + {current};
  }

  lemma FewerLeft(created: set<string>, before: set<string>, after: set<string>)
    requires before < after <= created
    ensures |created - after| < |created - before|
  {
    assert after - before != {} by {
      assert !(after <= before);
    }
    var x :| x in after - before;
    assert created - after <= (created - before) - {x};
    assert |(created - before) - {x}| == |created - before| - 1;
    SubsetNoLarger(created - after, (created - before) - {x});
  }

  lemma {:induction false} SubsetNoLarger(a: set<string>, b: set<string>)
    requires a <= b
    ensures |a| <= |b|
    decreases |a|
  {
    if a != {} {
      var x :| x in a;
      SubsetNoLarger(a - {x}, b - {x});
    }
  }

  /** The pop loop (lines 94-127): the popped keys take, at every step, the
      greatest ready key, until none is ready. */
  method Drain(graph: map<string, set<string>>, created: set<string>, degree0: map<string, int>)
    returns (popped: seq<string>, degree: map<string, int>)
    requires degree0.Keys == created && DegreesCount(graph, created, degree0, {})
    ensures GreedyPops(graph, created, popped)
    ensures Ready(graph, created, Elements(popped)) == {}
    ensures DegreesCount(graph, created, degree, Elements(popped))
    ensures forall k :: k in Elements(popped) ==> Pending(graph, created, k, Elements(popped)) == {}
  {
    degree := degree0;
    var available := set k | k in created && degree0[k] == 0;
    assert available == Ready(graph, created, {});
    popped := [];
    var closed: set<string> := {};
    assert Elements([]) == {};
    while available != {}
      invariant DrainState(graph, created, popped, closed, degree, available)
      decreases |created - closed|
    {
      var closedBefore := closed;
      popped, closed, degree, available := PopGreatest(graph, created, popped, closed, degree, available);
      FewerLeft(created, closedBefore, closed);
    }
  }

  /** The cycle nodes (lines 129-141): the keys still waiting, greatest first. */
  method RemainingKeys(graph: map<string, set<string>>, created: set<string>, popped: seq<string>, degree: map<string, int>)
    returns (remaining: seq<string>)
    requires Ready(graph, created, Elements(popped)) == {}
    requires DegreesCount(graph, created, degree, Elements(popped))
    requires forall k :: k in Elements(popped) ==> Pending(graph, created, k, Elements(popped)) == {}
    ensures Elements(remaining) == created - Elements(popped)
    ensures StrictlyDescending(remaining)
  {
    var waiting := set k | k in created && 0 < degree[k];
    assert waiting == created - Elements(popped) by {
      forall k | k in created && k !in Elements(popped) ensures 0 < degree[k] {
        assert k !in Ready(graph, created, Elements(popped));
      }
    }
    var ascending := SortedSetElements(waiting);
    remaining := Reversed(ascending);
    ReversedDescending(ascending);
  }

  /** The close order of the created keys. */
  method CloseOrder(graph: map<string, set<string>>, created: set<string>) returns (popped: seq<string>, remaining: seq<string>)
    ensures ClosingOrder(graph, created, popped, remaining)
  {
    var inDegree := InDegrees(graph, created);
    var degree;
    popped, degree := Drain(graph, created, inDegree);
    remaining := RemainingKeys(graph, created, popped, degree);
  }

  // ---------------------------------------------------------------------------
  // Closing

  datatype Candidate = Candidate(key: string, instance: Instance)

  /** The instance a node key names, when it names one (lines 153-188): a key
      of neither kind stands for a nil value. */
  function CandidateFor(instances: map<string, Instance>, typeInstances: map<string, Instance>, key: string): (r: Option<Candidate>)
    ensures r.Some? ==> r.value.key == key
    ensures HasPrefix(key, ServicePrefix) ==> (r.Some? <==> TrimPrefix(key, ServicePrefix) in instances)
    ensures !HasPrefix(key, ServicePrefix) && !HasPrefix(key, TypePrefix) ==>
      r == Some(Candidate(key, Instance(None, false, None)))
  {
    if HasPrefix(key, ServicePrefix) then
      (if TrimPrefix(key, ServicePrefix) in instances then Some(Candidate(key, instances[TrimPrefix(key, ServicePrefix)])) else None)
    else if HasPrefix(key, TypePrefix) then
      (if TrimPrefix(key, TypePrefix) in typeInstances then Some(Candidate(key, typeInstances[TrimPrefix(key, TypePrefix)])) else None)
    else Some(Candidate(key, Instance(None, false, None)))
  }

  function Candidates(instances: map<string, Instance>, typeInstances: map<string, Instance>, order: seq<string>): seq<Candidate>
    decreases |order|
  {
    if order == [] then []
    else
      var init := Candidates(instances, typeInstances, order[..|order| - 1]);
      match CandidateFor(instances, typeInstances, order[|order| - 1])
      case Some(c) => init + [c]
      case None => init
  }

  lemma ServiceKeyCandidate(instances: map<string, Instance>, typeInstances: map<string, Instance>, name: string)
    requires name in instances
    ensures CandidateFor(instances, typeInstances, ServicePrefix + name) == Some(Candidate(ServicePrefix + name, instances[name]))
  {
    assert (ServicePrefix + name)[..|ServicePrefix|] == ServicePrefix;
    assert (ServicePrefix + name)[|ServicePrefix|..] == name;
  }

  lemma TypeKeyCandidate(instances: map<string, Instance>, typeInstances: map<string, Instance>, t: string)
    requires t in typeInstances
    ensures CandidateFor(instances, typeInstances, TypePrefix + t) == Some(Candidate(TypePrefix + t, typeInstances[t]))
  {
    assert (TypePrefix + t)[0] == 't';
    assert !HasPrefix(TypePrefix + t, ServicePrefix);
    assert (TypePrefix + t)[..|TypePrefix|] == TypePrefix;
    assert (TypePrefix + t)[|TypePrefix|..] == t;
  }

  /** Every created key in the order yields its candidate, in the same order. */
  lemma {:induction false} CandidatesOfCreated(instances: map<string, Instance>, typeInstances: map<string, Instance>, order: seq<string>)
    requires Elements(order) <= CreatedKeys(instances, typeInstances)
    ensures |Candidates(instances, typeInstances, order)| == |order|
    ensures forall i :: 0 <= i < |order| ==> Candidates(instances, typeInstances, order)[i].key == order[i]
    decreases |order|
  {
    if order != [] {
      var init := order[..|order| - 1];
      assert Elements(init) <= Elements(order);
      CandidatesOfCreated(instances, typeInstances, init);
      var key := order[|order| - 1];
      assert key in Elements(order);
      if name :| name in instances && key == ServicePrefix + name {
        ServiceKeyCandidate(instances, typeInstances, name);
      } else {
        var t :| t in typeInstances && key == TypePrefix + t;
        TypeKeyCandidate(instances, typeInstances, t);
      }
    }
  }

  /** The candidate pass (lines 151-188). */
  method CollectCandidates(instances: map<string, Instance>, typeInstances: map<string, Instance>, order: seq<string>)
    returns (candidates: seq<Candidate>)
    ensures candidates == Candidates(instances, typeInstances, order)
  {
    candidates := [];
    for k := 0 to |order|
      invariant candidates == Candidates(instances, typeInstances, order[..k])
    {
      assert order[..k + 1][..k] == order[..k];
      var candidate := CandidateFor(instances, typeInstances, order[k]);
      if candidate.Some? {
        candidates := candidates + [candidate.value];
      }
    }
    assert order[..|order|] == order;
  }

  /** Candidate `i` is closed: it has `Close`, and it is no pointer that an
      earlier candidate, closeable or not, already stood for. */
  predicate Called(candidates: seq<Candidate>, i: nat)
    requires i < |candidates|
  {
    candidates[i].instance.closeable
    && (candidates[i].instance.pointer.None?
        || forall j :: 0 <= j < i ==> candidates[j].instance.pointer != candidates[i].instance.pointer)
  }

  /** The candidates whose `Close` is called, in order. */
  function CloseCalls(candidates: seq<Candidate>): (r: seq<Candidate>)
    ensures |r| <= |candidates|
    decreases |candidates|
  {
    if candidates == [] then []
    else
      var n := |candidates| - 1;
      CloseCalls(candidates[..n]) + (if Called(candidates, n) then [candidates[n]] else [])
  }

  function KeysOf(candidates: seq<Candidate>): set<string> {
    set i | 0 <= i < |candidates| :: candidates[i].key
  }

  /** The failure messages by node key. */
  function Failures(candidates: seq<Candidate>): (r: map<string, string>)
    ensures r.Keys <= KeysOf(candidates)
    decreases |candidates|
  {
    if candidates == [] then map[]
    else
      var n := |candidates| - 1;
      var failures := Failures(candidates[..n]);
      if Called(candidates, n) && candidates[n].instance.closeError.Some?
      then failures[candidates[n].key := candidates[n].instance.closeError.value]
      else failures
  }

  /** Close is called only on closeable candidates, never twice on one
      pointer, and on every closeable candidate whose pointer is new. */
  lemma {:induction false} CloseCallsShape(candidates: seq<Candidate>)
    ensures forall k :: 0 <= k < |CloseCalls(candidates)| ==> CloseCalls(candidates)[k].instance.closeable
    ensures forall i, j :: 0 <= i < j < |CloseCalls(candidates)| && CloseCalls(candidates)[i].instance.pointer.Some? ==>
      CloseCalls(candidates)[i].instance.pointer != CloseCalls(candidates)[j].instance.pointer
    ensures forall k :: 0 <= k < |CloseCalls(candidates)| ==> CloseCalls(candidates)[k] in candidates
    ensures forall i :: 0 <= i < |candidates| && Called(candidates, i) ==> candidates[i] in CloseCalls(candidates)
    decreases |candidates|
  {
    if candidates != [] {
      var n := |candidates| - 1;
      var init := candidates[..n];
      CloseCallsShape(init);
      var calls := CloseCalls(candidates);
      assert forall i :: 0 <= i < n ==> Called(init, i) == Called(candidates, i);
      if Called(candidates, n) {
        forall i | 0 <= i < |calls| - 1 && calls[i].instance.pointer.Some?
          ensures calls[i].instance.pointer != calls[|calls| - 1].instance.pointer
        {
          assert calls[i] in init;
          var j :| 0 <= j < n && init[j] == calls[i];
        }
      }
    }
  }

  /** Failures are recorded exactly for the called candidates whose `Close`
      returned an error, under their node keys. */
  lemma {:induction false} FailuresShape(candidates: seq<Candidate>)
    requires forall i, j :: 0 <= i < j < |candidates| ==> candidates[i].key != candidates[j].key
    ensures forall i :: 0 <= i < |candidates| && Called(candidates, i) && candidates[i].instance.closeError.Some? ==>
      candidates[i].key in Failures(candidates) && Failures(candidates)[candidates[i].key] == candidates[i].instance.closeError.value
    ensures forall key :: key in Failures(candidates) ==>
      exists i :: 0 <= i < |candidates| && candidates[i].key == key && Called(candidates, i) && candidates[i].instance.closeError.Some?
    decreases |candidates|
  {
    if candidates != [] {
      var n := |candidates| - 1;
      var init := candidates[..n];
      FailuresShape(init);
      assert forall i :: 0 <= i < n ==> Called(init, i) == Called(candidates, i);
    }
  }

  /** The close loop (lines 192-220). */
  method CloseCandidates(candidates: seq<Candidate>) returns (calls: seq<Candidate>, failures: map<string, string>)
    ensures calls == CloseCalls(candidates) && failures == Failures(candidates)
  {
    var closedPointers: set<nat> := {};
    calls := [];
    failures := map[];
    for k := 0 to |candidates|
      invariant calls == CloseCalls(candidates[..k]) && failures == Failures(candidates[..k])
      invariant forall p :: p in closedPointers <==> exists j :: 0 <= j < k && candidates[j].instance.pointer == Some(p)
    {
      var candidate := candidates[k];
      var prefix := candidates[..k + 1];
      assert prefix[..k] == candidates[..k];
      assert Called(prefix, k) == Called(candidates, k);
      var hasPointer := candidate.instance.pointer.Some?;
      if hasPointer && candidate.instance.pointer.value in closedPointers {
        assert !Called(candidates, k);
      } else if !candidate.instance.closeable {
        if hasPointer {
          closedPointers := closedPointers + {candidate.instance.pointer.value};
        }
      } else {
        calls := calls + [candidate];
        if candidate.instance.closeError.Some? {
          failures := failures[candidate.key := candidate.instance.closeError.value];
        }
        if hasPointer {
          closedPointers := closedPointers + {candidate.instance.pointer.value};
        }
      }
    }
    assert candidates[..|candidates|] == candidates;
  }

  /** What a `Close` reports. */
  datatype CloseError = DependencyCycle(nodes: seq<string>) | CloseFailed(failures: map<string, string>)

  const CycleFailureKey := "container.dependencyCycle"

  /** The error of lines 222-246: a cycle alone reports its nodes; a cycle
      with failures adds a cycle entry to the failures. */
  function Outcome(remaining: seq<string>, failures: map<string, string>): (r: Option<CloseError>)
    ensures r.None? <==> remaining == [] && failures == map[]
    ensures r.Some? && r.value.DependencyCycle? <==> remaining != [] && failures == map[]
    ensures r.Some? && r.value.DependencyCycle? ==> r.value.nodes == remaining
    ensures r.Some? && r.value.CloseFailed? ==>
      r.value.failures == if remaining != [] then failures[CycleFailureKey := "dependency cycle detected"] else failures
  {
    if remaining != [] then
      if failures == map[] then Some(DependencyCycle(remaining))
      else Some(CloseFailed(failures[CycleFailureKey := "dependency cycle detected"]))
    else if failures != map[] then Some(CloseFailed(failures))
    else None
  }

  class Container {
    var instances: map<string, Instance>
    var typeInstances: map<string, Instance>
    var dependencyGraph: map<string, set<string>>
    var isClosed: bool
    var closeErr: Option<CloseError>

    constructor(instances: map<string, Instance>, typeInstances: map<string, Instance>, dependencyGraph: map<string, set<string>>)
      ensures this.instances == instances && this.typeInstances == typeInstances && this.dependencyGraph == dependencyGraph
      ensures !isClosed && closeErr == None
    {
      this.instances := instances;
      this.typeInstances := typeInstances;
      this.dependencyGraph := dependencyGraph;
      isClosed := false;
      closeErr := None;
    }

    /** `Close`: the order it closes in, the candidates whose `Close` it
        calls, and the error it reports and stores. A closed container
        returns the stored error and calls nothing. */
    method Close() returns (err: Option<CloseError>, popped: seq<string>, remaining: seq<string>, calls: seq<Candidate>)
      modifies this
      ensures instances == old(instances) && typeInstances == old(typeInstances) && dependencyGraph == old(dependencyGraph)
      ensures isClosed && closeErr == err
      ensures old(isClosed) ==> err == old(closeErr) && calls == []
      ensures !old(isClosed) ==>
        ClosingOrder(dependencyGraph, CreatedKeys(instances, typeInstances), popped, remaining)
        && calls == CloseCalls(Candidates(instances, typeInstances, popped + remaining))
        && err == Outcome(remaining, Failures(Candidates(instances, typeInstances, popped + remaining)))
    {
      if isClosed {
        return closeErr, [], [], [];
      }
      var created := CreatedKeys(instances, typeInstances);
      popped, remaining := CloseOrder(dependencyGraph, created);
      var candidates := CollectCandidates(instances, typeInstances, popped + remaining);
      var failures;
      calls, failures := CloseCandidates(candidates);
      err := Outcome(remaining, failures);
      isClosed := true;
      closeErr := err;
    }
  }
}
