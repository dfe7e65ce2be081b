/** The event dispatcher of v1: listeners registered per event name, kept in
    priority order (higher first, then earlier registration first), removed
    by registration id or by subscriber, and run in order by a dispatch that
    stops at the first error or once propagation is stopped. A listener
    function is modelled by an opaque handle and its behaviour on the event
    by an outcome given with the dispatch. */
module EventDispatcher {
  import opened Wrappers
  import opened Strings
  import opened Strconv

  /** `listenerWithPriority`. */
  datatype Entry = Entry(listener: nat, listenerId: nat, priority: int)

  /** `subscriberRegistration`. */
  datatype SubscriberRegistration = SubscriberRegistration(eventName: string, listenerId: nat, subscriberType: string)

  /** `ListenerRegistration`, the handle `AddListener` returns. */
  datatype ListenerRegistration = ListenerRegistration(eventName: string, listenerId: nat)

  /** The panics of the dispatcher, as values. */
  datatype Panic =
    | ClockRequired
    | EventNameRequired
    | ListenerRequired
    | ListenerIdRequired
    | SubscriberRequired
    | SubscribedEventsRequired
    | SubscriberPointerRequired
    | EmptyEventName
    | EventRequired
    | SubscribedListRequired(eventName: string)
    | SubscribedEventRequired(eventName: string, index: nat)
    | SubscribedListenerRequired(eventName: string, index: nat)

  // ---------------------------------------------------------------------------
  // Listener order

  /** `a` runs before `b`: higher priority first, then the lower id. */
  predicate Precedes(a: Entry, b: Entry) {
    a.priority > b.priority || (a.priority == b.priority && a.listenerId < b.listenerId)
  }

  predicate InOrder(s: seq<Entry>) {
    forall i, j | 0 <= i < j < |s| :: Precedes(s[i], s[j])
  }

  /** The list after appending `x` and sorting again: `x` goes before the
      first entry it precedes. */
  function Inserted(s: seq<Entry>, x: Entry): seq<Entry>
    decreases |s|
  {
    if s == [] then [x]
    else if Precedes(x, s[0]) then [x] + s
    else [s[0]] + Inserted(s[1..], x)
  }

  /** Inserting adds exactly `x`. */
  lemma {:induction false} InsertedMultiset(s: seq<Entry>, x: Entry)
    ensures multiset(Inserted(s, x)) == multiset(s) + multiset{x}
    decreases |s|
  {
    if s != [] && !Precedes(x, s[0]) {
      InsertedMultiset(s[1..], x);
      assert s == [s[0]] + s[1..];
    }
  }

  lemma PrependInOrder(e: Entry, s: seq<Entry>)
    requires InOrder(s) && forall k | 0 <= k < |s| :: Precedes(e, s[k])
    ensures InOrder([e] + s)
  {
    assert forall k | 1 <= k < |[e] + s| :: ([e] + s)[k] == s[k - 1];
  }

  lemma TailInOrder(s: seq<Entry>)
    requires InOrder(s) && s != []
    ensures InOrder(s[1..]) && forall k | 0 <= k < |s[1..]| :: Precedes(s[0], s[1..][k])
  {
    assert forall k | 0 <= k < |s[1..]| :: s[1..][k] == s[k + 1];
  }

  /** A fresh id keeps the list in order. */
  lemma {:induction false} InsertedInOrder(s: seq<Entry>, x: Entry)
    requires InOrder(s)
    requires forall k | 0 <= k < |s| :: s[k].listenerId < x.listenerId
    ensures InOrder(Inserted(s, x))
    decreases |s|
  {
    if s == [] {
    } else if Precedes(x, s[0]) {
      TailInOrder(s);
      forall k | 0 <= k < |s| ensures Precedes(x, s[k]) {
        if k > 0 {
          assert s[1..][k - 1] == s[k];
        }
      }
      PrependInOrder(x, s);
    } else {
      TailInOrder(s);
      var tail := s[1..];
      assert forall k | 0 <= k < |tail| :: tail[k].listenerId < x.listenerId by {
        assert forall k | 0 <= k < |tail| :: tail[k] == s[k + 1];
      }
      InsertedInOrder(tail, x);
      var rest := Inserted(tail, x);
      InsertedMultiset(tail, x);
      forall k | 0 <= k < |rest| ensures Precedes(s[0], rest[k]) {
        assert rest[k] in multiset(rest);
        if rest[k] != x {
          assert rest[k] in multiset(tail);
          var m :| 0 <= m < |tail| && tail[m] == rest[k];
        }
      }
      PrependInOrder(s[0], rest);
    }
  }

  lemma HeadsAgree(a: seq<Entry>, b: seq<Entry>)
    requires InOrder(a) && InOrder(b) && multiset(a) == multiset(b) && a != []
    ensures b != [] && a[0] == b[0]
  {
    assert |multiset(b)| == |b|;
    assert b[0] in multiset(a);
    var i :| 0 <= i < |a| && a[i] == b[0];
    assert a[0] in multiset(b);
    var j :| 0 <= j < |b| && b[j] == a[0];
    HeadsAgreeAt(a, b, i, j);
  }

  lemma HeadsAgreeAt(a: seq<Entry>, b: seq<Entry>, i: nat, j: nat)
    requires InOrder(a) && InOrder(b) && i < |a| && j < |b| && a[i] == b[0] && b[j] == a[0]
    ensures a[0] == b[0]
  {
    if 0 < i {
      assert Precedes(a[0], a[i]);
    }
    if 0 < j {
      assert Precedes(b[0], b[j]);
    }
  }

  /** The sorted permutation is unique, so any stable sort of the appended
      list gives `Inserted`. */
  lemma {:induction false} InOrderUnique(a: seq<Entry>, b: seq<Entry>)
    requires InOrder(a) && InOrder(b) && multiset(a) == multiset(b)
    ensures a == b
    decreases |a|
  {
    if a != [] {
      HeadsAgree(a, b);
      TailInOrder(a);
      TailInOrder(b);
      TailMultiset(a);
      TailMultiset(b);
      InOrderUnique(a[1..], b[1..]);
      assert a == [a[0]] + a[1..] && b == [b[0]] + b[1..];
    } else {
      assert |multiset(b)| == 0;
    }
  }

  lemma TailMultiset(s: seq<Entry>)
    requires s != []
    ensures multiset(s[1..]) == multiset(s) - multiset{s[0]}
  {
    assert s == [s[0]] + s[1..];
  }

  // ---------------------------------------------------------------------------
  // The dispatcher state

  /** The `listeners` map, the `subscriberRegistrations` map keyed by the
      subscriber's pointer, and the last id issued. */
  datatype State = State(listeners: map<string, seq<Entry>>, registrations: map<nat, seq<SubscriberRegistration>>,
                         nextListenerId: nat)

  function ListenersOf(listeners: map<string, seq<Entry>>, eventName: string): seq<Entry> {
    if eventName in listeners then listeners[eventName] else []
  }

  function IdsOf(s: seq<Entry>): set<nat> {
    set k | 0 <= k < |s| :: s[k].listenerId
  }

  predicate DistinctIds(s: seq<Entry>) {
    forall i, j | 0 <= i < j < |s| :: s[i].listenerId != s[j].listenerId
  }

  /** An event's list: non-empty, in order, without a repeated id, and
      within the ids issued. */
  predicate ListWellformed(eventName: string, s: seq<Entry>, bound: nat) {
    eventName != [] && s != [] && InOrder(s) && DistinctIds(s)
    && forall k | 0 <= k < |s| :: 1 <= s[k].listenerId <= bound
  }

  ghost predicate IdsDisjoint(listeners: map<string, seq<Entry>>) {
    forall e1, e2 | e1 in listeners && e2 in listeners && e1 != e2 :: IdsOf(listeners[e1]) !! IdsOf(listeners[e2])
  }

  /** Every event's list is well formed and no id appears under two events. */
  ghost predicate Wellformed(s: State) {
    (forall e | e in s.listeners :: ListWellformed(e, s.listeners[e], s.nextListenerId))
    && IdsDisjoint(s.listeners)
  }

  /** `AddListener` on the state: the next id, and the entry inserted in order. */
  function AddListenerState(s: State, eventName: string, listener: nat, priority: int): State {
    var id := s.nextListenerId + 1;
    s.(listeners := s.listeners[eventName := Inserted(ListenersOf(s.listeners, eventName), Entry(listener, id, priority))],
       nextListenerId := id)
  }

  lemma MultisetIds(s: seq<Entry>, r: seq<Entry>, x: Entry)
    requires multiset(r) == multiset(s) + multiset{x}
    ensures IdsOf(r) == IdsOf(s) + {x.listenerId}
    ensures forall k | 0 <= k < |r| :: r[k] == x || r[k] in s
  {
    forall k | 0 <= k < |r| ensures r[k] == x || r[k] in s {
      assert r[k] in multiset(r);
    }
    forall k | 0 <= k < |s| ensures s[k].listenerId in IdsOf(r) {
      assert s[k] in multiset(s);
      assert s[k] in multiset(r);
      var m :| 0 <= m < |r| && r[m] == s[k];
    }
    assert x in multiset(r);
    var m :| 0 <= m < |r| && r[m] == x;
    forall id | id in IdsOf(r) ensures id in IdsOf(s) || id == x.listenerId {
      var k :| 0 <= k < |r| && r[k].listenerId == id;
      if r[k] != x {
        var m :| 0 <= m < |s| && s[m] == r[k];
      }
    }
  }

  /** A fresh id keeps the ids unique. */
  lemma {:induction false} InsertedDistinct(s: seq<Entry>, x: Entry)
    requires DistinctIds(s) && x.listenerId !in IdsOf(s)
    ensures DistinctIds(Inserted(s, x))
    decreases |s|
  {
    if s != [] {
      ConsIds(s[0], s[1..]);
      assert s == [s[0]] + s[1..];
      if Precedes(x, s[0]) {
        ConsDistinct(x, s);
      } else {
        var rest := s[1..];
        assert DistinctIds(rest) by {
          assert forall k | 0 <= k < |rest| :: rest[k] == s[k + 1];
        }
        assert s[0].listenerId !in IdsOf(rest) by {
          forall k | 0 <= k < |rest| ensures rest[k].listenerId != s[0].listenerId {
            assert rest[k] == s[k + 1];
          }
        }
        InsertedDistinct(rest, x);
        InsertedMultiset(rest, x);
        MultisetIds(rest, Inserted(rest, x), x);
        ConsDistinct(s[0], Inserted(rest, x));
      }
    }
  }

  lemma ConsIds(e: Entry, s: seq<Entry>)
    ensures IdsOf([e] + s) == {e.listenerId} + IdsOf(s)
  {
    var c := [e] + s;
    assert c[0] == e;
    forall k | 0 <= k < |s| ensures s[k].listenerId in IdsOf(c) {
      assert c[k + 1] == s[k];
    }
    forall n | n in IdsOf(c) ensures n in {e.listenerId} + IdsOf(s) {
      var k :| 0 <= k < |c| && c[k].listenerId == n;
      if k > 0 {
        assert c[k] == s[k - 1];
      }
    }
  }

  lemma ConsDistinct(e: Entry, s: seq<Entry>)
    requires DistinctIds(s) && e.listenerId !in IdsOf(s)
    ensures DistinctIds([e] + s)
  {
    var c := [e] + s;
    forall i, j | 0 <= i < j < |c| ensures c[i].listenerId != c[j].listenerId {
      assert c[j] == s[j - 1];
      if i > 0 {
        assert c[i] == s[i - 1];
      }
    }
  }

  /** Inserting an entry with the next id keeps a list in order, without a
      repeated id, and within the issued ids. */
  lemma InsertedFresh(current: seq<Entry>, x: Entry, bound: nat)
    requires InOrder(current) && DistinctIds(current) && x.listenerId == bound + 1
    requires forall k | 0 <= k < |current| :: 1 <= current[k].listenerId <= bound
    ensures var r := Inserted(current, x);
      r != [] && InOrder(r) && DistinctIds(r) && IdsOf(r) == IdsOf(current) + {x.listenerId}
      && forall k | 0 <= k < |r| :: 1 <= r[k].listenerId <= bound + 1
  {
    var r := Inserted(current, x);
    InsertedInOrder(current, x);
    InsertedDistinct(current, x);
    InsertedMultiset(current, x);
    MultisetIds(current, r, x);
    forall k | 0 <= k < |r| ensures 1 <= r[k].listenerId <= bound + 1 {
      if r[k] != x {
        var m :| 0 <= m < |current| && current[m] == r[k];
      }
    }
  }

  /** A new listener keeps the state well formed. */
  lemma AddListenerWellformed(s: State, eventName: string, listener: nat, priority: int)
    requires Wellformed(s) && eventName != []
    ensures Wellformed(AddListenerState(s, eventName, listener, priority))
  {
    var id := s.nextListenerId + 1;
    var current := ListenersOf(s.listeners, eventName);
    InsertedFresh(current, Entry(listener, id, priority), s.nextListenerId);
    var t := AddListenerState(s, eventName, listener, priority);
    forall e | e in t.listeners ensures ListWellformed(e, t.listeners[e], id) {
      if e != eventName {
        assert ListWellformed(e, s.listeners[e], s.nextListenerId);
      }
    }
    AddListenerDisjoint(s, eventName, t.listeners[eventName]);
  }

  lemma AddListenerDisjoint(s: State, eventName: string, list: seq<Entry>)
    requires Wellformed(s)
    requires IdsOf(list) == IdsOf(ListenersOf(s.listeners, eventName)) + {s.nextListenerId + 1}
    ensures IdsDisjoint(s.listeners[eventName := list])
  {
    var t := s.listeners[eventName := list];
    forall e | e in s.listeners ensures forall n | n in IdsOf(s.listeners[e]) :: n <= s.nextListenerId {
      assert ListWellformed(e, s.listeners[e], s.nextListenerId);
    }
    forall e1, e2 | e1 in t && e2 in t && e1 != e2 ensures IdsOf(t[e1]) !! IdsOf(t[e2]) {
    }
  }

  // ---------------------------------------------------------------------------
  // Removal

  /** The list without the entries of the id, in their order. */
  function Without(s: seq<Entry>, listenerId: nat): (r: seq<Entry>)
    ensures |r| <= |s|
    ensures forall e :: e in r <==> e in s && e.listenerId != listenerId
    decreases |s|
  {
    if s == [] then []
    else
      var init := s[..|s| - 1];
      var last := s[|s| - 1];
      assert s == init + [last];
      Without(init, listenerId) + (if last.listenerId == listenerId then [] else [last])
  }

  lemma WithoutSnoc(s: seq<Entry>, listenerId: nat)
    requires s != []
    ensures var last := s[|s| - 1];
      Without(s, listenerId) == Without(s[..|s| - 1], listenerId) + (if last.listenerId == listenerId then [] else [last])
  {
  }

  /** Filtering keeps the order. */
  lemma {:induction false} WithoutInOrder(s: seq<Entry>, listenerId: nat)
    requires InOrder(s)
    ensures InOrder(Without(s, listenerId))
    decreases |s|
  {
    if s != [] {
      var init := s[..|s| - 1];
      var last := s[|s| - 1];
      var w := Without(init, listenerId);
      assert InOrder(init) by {
        assert forall k | 0 <= k < |init| :: init[k] == s[k];
      }
      WithoutInOrder(init, listenerId);
      WithoutSnoc(s, listenerId);
      forall k | 0 <= k < |w| ensures Precedes(w[k], last) {
        assert w[k] in w;
        var m :| 0 <= m < |init| && init[m] == w[k];
        assert s[m] == w[k];
      }
    }
  }

  /** Filtering keeps ids unique. */
  lemma {:induction false} WithoutDistinct(s: seq<Entry>, listenerId: nat)
    requires DistinctIds(s)
    ensures DistinctIds(Without(s, listenerId))
    decreases |s|
  {
    if s != [] {
      var init := s[..|s| - 1];
      var last := s[|s| - 1];
      var w := Without(init, listenerId);
      assert DistinctIds(init) by {
        assert forall k | 0 <= k < |init| :: init[k] == s[k];
      }
      WithoutDistinct(init, listenerId);
      WithoutSnoc(s, listenerId);
      forall k | 0 <= k < |w| ensures w[k].listenerId != last.listenerId {
        assert w[k] in w;
        var m :| 0 <= m < |init| && init[m] == w[k];
        assert s[m] == w[k];
      }
    }
  }

  lemma WithoutIds(s: seq<Entry>, listenerId: nat)
    ensures IdsOf(Without(s, listenerId)) == IdsOf(s) - {listenerId}
  {
    var r := Without(s, listenerId);
    forall n | n in IdsOf(r) ensures n in IdsOf(s) - {listenerId} {
      var k :| 0 <= k < |r| && r[k].listenerId == n;
      assert r[k] in r;
      var m :| 0 <= m < |s| && s[m] == r[k];
    }
    forall n | n in IdsOf(s) - {listenerId} ensures n in IdsOf(r) {
      var k :| 0 <= k < |s| && s[k].listenerId == n;
      assert s[k] in r;
      var m :| 0 <= m < |r| && r[m] == s[k];
    }
  }

  /** The positions holding the id. */
  function PositionsOf(s: seq<Entry>, listenerId: nat): set<nat> {
    set k | 0 <= k < |s| && s[k].listenerId == listenerId
  }

  /** Filtering removes one entry for each position of the id. */
  lemma {:induction false} WithoutCount(s: seq<Entry>, listenerId: nat)
    ensures |s| - |Without(s, listenerId)| == |PositionsOf(s, listenerId)|
    decreases |s|
  {
    if s != [] {
      var init := s[..|s| - 1];
      var last := s[|s| - 1];
      WithoutCount(init, listenerId);
      WithoutSnoc(s, listenerId);
      PositionsSnoc(s, listenerId);
    }
  }

  lemma PositionsSnoc(s: seq<Entry>, listenerId: nat)
    requires s != []
    ensures var init := PositionsOf(s[..|s| - 1], listenerId);
      |PositionsOf(s, listenerId)| == |init| + (if s[|s| - 1].listenerId == listenerId then 1 else 0)
  {
    var init := s[..|s| - 1];
    var a := PositionsOf(init, listenerId);
    assert forall k | 0 <= k < |init| :: init[k] == s[k];
    assert |s| - 1 !in a;
    if s[|s| - 1].listenerId == listenerId {
      assert PositionsOf(s, listenerId) == a + {|s| - 1};
    } else {
      assert PositionsOf(s, listenerId) == a;
    }
  }

  /** With unique ids the filter removes at most one entry: exactly one when
      the id is listed. */
  lemma RemovesAtMostOne(s: seq<Entry>, listenerId: nat)
    requires DistinctIds(s)
    ensures |s| - |Without(s, listenerId)| == if listenerId in IdsOf(s) then 1 else 0
  {
    WithoutCount(s, listenerId);
    if listenerId in IdsOf(s) {
      var k :| 0 <= k < |s| && s[k].listenerId == listenerId;
      assert PositionsOf(s, listenerId) == {k};
    } else {
      assert PositionsOf(s, listenerId) == {};
    }
  }

  /** `removeListenerById` on the listeners map: the new map and the count removed. */
  function RemoveById(listeners: map<string, seq<Entry>>, eventName: string, listenerId: nat): (r: (map<string, seq<Entry>>, nat))
    ensures r.0.Keys <= listeners.Keys
    ensures r.0.Keys >= listeners.Keys - {eventName}
    ensures eventName !in listeners ==> r.1 == 0
  {
    if eventName !in listeners then (listeners, 0)
    else
      var filtered := Without(listeners[eventName], listenerId);
      (if filtered == [] then listeners - {eventName} else listeners[eventName := filtered],
       |listeners[eventName]| - |filtered|)
  }

  /** Removal by id keeps the state well formed and removes only that id
      from only that event. */
  lemma RemoveByIdWellformed(s: State, eventName: string, listenerId: nat)
    requires Wellformed(s)
    ensures var t := s.(listeners := RemoveById(s.listeners, eventName, listenerId).0);
      Wellformed(t)
      && (forall e | e in t.listeners :: e in s.listeners)
      && (forall e | e in s.listeners && e != eventName :: e in t.listeners && t.listeners[e] == s.listeners[e])
      && (eventName in t.listeners ==> t.listeners[eventName] == Without(s.listeners[eventName], listenerId))
      && RemoveById(s.listeners, eventName, listenerId).1 <= 1
  {
    var after := RemoveById(s.listeners, eventName, listenerId).0;
    RemoveByIdShape(s.listeners, eventName, listenerId);
    RemoveByIdLists(s, eventName, listenerId, after);
    RemoveByIdDisjoint(s, eventName, listenerId, after);
    if eventName in s.listeners {
      RemovesAtMostOne(s.listeners[eventName], listenerId);
    }
  }

  /** Removal by id touches only the entry of `eventName`. */
  lemma RemoveByIdShape(listeners: map<string, seq<Entry>>, eventName: string, listenerId: nat)
    ensures var after := RemoveById(listeners, eventName, listenerId).0;
      (forall e | e in after :: e in listeners)
      && (forall e | e in listeners && e != eventName :: e in after && after[e] == listeners[e])
      && (eventName in after ==> after[eventName] == Without(listeners[eventName], listenerId) != [])
  {
  }

  lemma RemoveByIdLists(s: State, eventName: string, listenerId: nat, after: map<string, seq<Entry>>)
    requires Wellformed(s) && after == RemoveById(s.listeners, eventName, listenerId).0
    ensures forall e | e in after :: ListWellformed(e, after[e], s.nextListenerId)
  {
    RemoveByIdShape(s.listeners, eventName, listenerId);
    forall e | e in after ensures ListWellformed(e, after[e], s.nextListenerId) {
      if e == eventName {
        WithoutListWellformed(eventName, s.listeners[eventName], s.nextListenerId, listenerId);
      }
    }
  }

  lemma RemoveByIdDisjoint(s: State, eventName: string, listenerId: nat, after: map<string, seq<Entry>>)
    requires Wellformed(s) && after == RemoveById(s.listeners, eventName, listenerId).0
    ensures IdsDisjoint(after)
  {
    RemoveByIdShape(s.listeners, eventName, listenerId);
    forall e | e in after ensures IdsOf(after[e]) <= IdsOf(s.listeners[e]) {
      if e == eventName {
        WithoutIds(s.listeners[eventName], listenerId);
      }
    }
    ShrunkIdsDisjoint(s.listeners, after);
  }

  /** A well-formed list stays well formed without an id, unless it is left empty. */
  lemma WithoutListWellformed(eventName: string, list: seq<Entry>, bound: nat, listenerId: nat)
    requires ListWellformed(eventName, list, bound) && Without(list, listenerId) != []
    ensures ListWellformed(eventName, Without(list, listenerId), bound)
  {
    WithoutInOrder(list, listenerId);
    WithoutDistinct(list, listenerId);
    var filtered := Without(list, listenerId);
    forall k | 0 <= k < |filtered| ensures 1 <= filtered[k].listenerId <= bound {
      assert filtered[k] in filtered;
      var m :| 0 <= m < |list| && list[m] == filtered[k];
    }
  }

  /** Lists that only lose ids keep the ids of different events apart. */
  lemma ShrunkIdsDisjoint(before: map<string, seq<Entry>>, after: map<string, seq<Entry>>)
    requires IdsDisjoint(before)
    requires forall e | e in after :: e in before && IdsOf(after[e]) <= IdsOf(before[e])
    ensures IdsDisjoint(after)
  {
    forall e1, e2 | e1 in after && e2 in after && e1 != e2
      ensures IdsOf(after[e1]) !! IdsOf(after[e2])
    {
      assert IdsOf(before[e1]) !! IdsOf(before[e2]);
    }
  }

  /** `x` is listed under `eventName`. */
  predicate Listed(listeners: map<string, seq<Entry>>, eventName: string, x: Entry) {
    eventName in listeners && x in listeners[eventName]
  }

  lemma RemoveByIdListed(listeners: map<string, seq<Entry>>, eventName: string, listenerId: nat)
    ensures forall e, x :: Listed(RemoveById(listeners, eventName, listenerId).0, e, x) <==>
      Listed(listeners, e, x) && !(e == eventName && x.listenerId == listenerId)
  {
  }

  /** The registrations without the one of the event and id. */
  function StripRegistration(registrations: seq<SubscriberRegistration>, eventName: string, listenerId: nat): (r: seq<SubscriberRegistration>)
    ensures forall x :: x in r <==> x in registrations && !(x.eventName == eventName && x.listenerId == listenerId)
    decreases |registrations|
  {
    if registrations == [] then []
    else
      var init := registrations[..|registrations| - 1];
      var last := registrations[|registrations| - 1];
      assert registrations == init + [last];
      StripRegistration(init, eventName, listenerId)
        + (if last.eventName == eventName && last.listenerId == listenerId then [] else [last])
  }

  /** The registration loop of `RemoveListener`: each subscriber's list loses
      the registration, and a subscriber left without any is dropped. */
  function Unregister(registrations: map<nat, seq<SubscriberRegistration>>, eventName: string, listenerId: nat): (r: map<nat, seq<SubscriberRegistration>>)
    ensures r.Keys <= registrations.Keys
  {
    map p | p in registrations && StripRegistration(registrations[p], eventName, listenerId) != [] ::
      StripRegistration(registrations[p], eventName, listenerId)
  }

  function RegistrationsOf(registrations: map<nat, seq<SubscriberRegistration>>, pointer: nat): seq<SubscriberRegistration> {
    if pointer in registrations then registrations[pointer] else []
  }

  /** The removal loop of `RemoveSubscriber`: the listeners after removing
      each registration in turn, and the total count removed. */
  function RemoveAll(listeners: map<string, seq<Entry>>, registrations: seq<SubscriberRegistration>): (map<string, seq<Entry>>, nat)
    decreases |registrations|
  {
    if registrations == [] then (listeners, 0)
    else
      var last := registrations[|registrations| - 1];
      var before := RemoveAll(listeners, registrations[..|registrations| - 1]);
      var after := RemoveById(before.0, last.eventName, last.listenerId);
      (after.0, before.1 + after.1)
  }

  /** An entry of the event and id is registered. */
  predicate RegisteredFor(registrations: seq<SubscriberRegistration>, eventName: string, listenerId: nat) {
    exists k | 0 <= k < |registrations| :: registrations[k].eventName == eventName && registrations[k].listenerId == listenerId
  }

  /** `RemoveSubscriber` removes exactly the listeners registered by the
      subscriber, keeps the state well formed, and removes at most one
      listener per registration. */
  lemma {:induction false} RemoveAllEffect(s: State, registrations: seq<SubscriberRegistration>)
    requires Wellformed(s)
    ensures var r := RemoveAll(s.listeners, registrations);
      Wellformed(s.(listeners := r.0)) && r.1 <= |registrations|
      && forall e, x :: Listed(r.0, e, x) <==> Listed(s.listeners, e, x) && !RegisteredFor(registrations, e, x.listenerId)
    decreases |registrations|
  {
    if registrations != [] {
      var init := registrations[..|registrations| - 1];
      var last := registrations[|registrations| - 1];
      RemoveAllEffect(s, init);
      var before := RemoveAll(s.listeners, init);
      var t := s.(listeners := before.0);
      RemoveByIdWellformed(t, last.eventName, last.listenerId);
      RemoveByIdListed(before.0, last.eventName, last.listenerId);
      forall e: string, x: Entry ensures RegisteredFor(registrations, e, x.listenerId) <==>
        RegisteredFor(init, e, x.listenerId) || (e == last.eventName && x.listenerId == last.listenerId)
      {
        if RegisteredFor(registrations, e, x.listenerId) {
          var k :| 0 <= k < |registrations| && registrations[k].eventName == e && registrations[k].listenerId == x.listenerId;
          if k < |init| {
            assert init[k] == registrations[k];
          }
        }
        if RegisteredFor(init, e, x.listenerId) {
          var k :| 0 <= k < |init| && init[k].eventName == e && init[k].listenerId == x.listenerId;
          assert registrations[k] == init[k];
        }
        if e == last.eventName && x.listenerId == last.listenerId {
          assert registrations[|registrations| - 1] == last;
        }
      }
    }
  }

  // ---------------------------------------------------------------------------
  // Subscribers

  /** A subscribed event: its listener (None for nil) and priority. */
  datatype SubscribedEvent = SubscribedEvent(listener: Option<nat>, priority: int)

  /** A subscriber: its pointer (0 when it has none), its type name, and the
      map its `SubscribedEvents` returns (None for nil), whose lists and
      entries may each be nil. */
  datatype Subscriber = Subscriber(pointer: nat, subscriberType: string,
                                   subscribedEvents: Option<map<string, Option<seq<Option<SubscribedEvent>>>>>)

  /** One `AddListener` call made by `AddSubscriber`. */
  datatype Step = Step(eventName: string, listener: nat, priority: int)

  /** An entry that `AddSubscriber` can add: neither it nor its listener is nil. */
  predicate Usable(entry: Option<SubscribedEvent>) {
    entry.Some? && entry.value.listener.Some?
  }

  /** The index of the first entry that is nil or has a nil listener, or the
      length when there is none. */
  function FirstUnusable(list: seq<Option<SubscribedEvent>>): (n: nat)
    ensures n <= |list|
    ensures forall k | 0 <= k < n :: Usable(list[k])
    ensures n < |list| ==> !Usable(list[n])
    decreases |list|
  {
    if list == [] || !Usable(list[0]) then 0
    else
      var rest := FirstUnusable(list[1..]);
      assert forall k | 1 <= k < |list| :: list[k] == list[1..][k - 1];
      rest + 1
  }

  /** The inner loop of `AddSubscriber`: the additions made before the first
      nil entry or nil listener, and the panic there. */
  function PlanList(eventName: string, list: seq<Option<SubscribedEvent>>): (r: (seq<Step>, Option<Panic>))
    ensures |r.0| <= |list|
    ensures forall k | 0 <= k < |r.0| :: Usable(list[k])
    ensures r.1.None? <==> |r.0| == |list|
  {
    var n := FirstUnusable(list);
    (seq(n, k requires 0 <= k < n => Step(eventName, list[k].value.listener.value, list[k].value.priority)),
     if n == |list| then None
     else if list[n].None? then Some(SubscribedEventRequired(eventName, n))
     else Some(SubscribedListenerRequired(eventName, n)))
  }

  /** The outer loop of `AddSubscriber` over the sorted event names: the
      additions of each list in turn, up to the first panic. */
  function PlanEvents(events: map<string, Option<seq<Option<SubscribedEvent>>>>, names: seq<string>): (r: (seq<Step>, Option<Panic>))
    requires forall k | 0 <= k < |names| :: names[k] in events
    ensures forall k | 0 <= k < |r.0| :: r.0[k].eventName in names
    ensures r.1.None? ==> forall k | 0 <= k < |names| :: events[names[k]].Some?
    decreases |names|
  {
    if names == [] then ([], None)
    else
      var list := events[names[0]];
      if list.None? then ([], Some(SubscribedListRequired(names[0])))
      else
        var planned := PlanList(names[0], list.value);
        if planned.1.Some? then planned
        else
          var rest := PlanEvents(events, names[1..]);
          assert forall k | 1 <= k < |names| :: names[k] == names[1..][k - 1];
          (planned.0 + rest.0, rest.1)
  }

  /** One step on the state: the listener added, then its registration
      appended to the subscriber's list. */
  function Register(s: State, pointer: nat, subscriberType: string, step: Step): (r: State)
    ensures r.nextListenerId == s.nextListenerId + 1
    ensures r.listeners.Keys == s.listeners.Keys + {step.eventName}
    ensures r.registrations.Keys == s.registrations.Keys + {pointer}
    ensures forall p :: p in s.registrations && p != pointer ==> r.registrations[p] == s.registrations[p]
  {
    var t := AddListenerState(s, step.eventName, step.listener, step.priority);
    t.(registrations := t.registrations[pointer :=
      RegistrationsOf(t.registrations, pointer) + [SubscriberRegistration(step.eventName, t.nextListenerId, subscriberType)]])
  }

  function Subscribe(s: State, pointer: nat, subscriberType: string, steps: seq<Step>): (r: State)
    ensures r.nextListenerId == s.nextListenerId + |steps|
    ensures r.listeners.Keys >= s.listeners.Keys
    decreases |steps|
  {
    if steps == [] then s
    else Register(Subscribe(s, pointer, subscriberType, steps[..|steps| - 1]), pointer, subscriberType, steps[|steps| - 1])
  }

  lemma {:induction false} SubscribeAppend(s: State, pointer: nat, subscriberType: string, first: seq<Step>, second: seq<Step>)
    ensures Subscribe(Subscribe(s, pointer, subscriberType, first), pointer, subscriberType, second)
      == Subscribe(s, pointer, subscriberType, first + second)
    decreases |second|
  {
    if second == [] {
      assert first + second == first;
    } else {
      SubscribeAppend(s, pointer, subscriberType, first, second[..|second| - 1]);
      assert (first + second)[..|first + second| - 1] == first + second[..|second| - 1];
    }
  }

  lemma AppendAssociative(a: seq<Step>, b: seq<Step>, c: seq<Step>)
    ensures a + (b + c) == (a + b) + c
  {
  }

  lemma SubscribeSnoc(s: State, pointer: nat, subscriberType: string, steps: seq<Step>, j: nat)
    requires j < |steps|
    ensures Subscribe(s, pointer, subscriberType, steps[..j + 1])
      == Register(Subscribe(s, pointer, subscriberType, steps[..j]), pointer, subscriberType, steps[j])
  {
    assert steps[..j + 1][..j] == steps[..j];
  }

  lemma PlanEventsStep(events: map<string, Option<seq<Option<SubscribedEvent>>>>, names: seq<string>, i: nat)
    requires forall k | 0 <= k < |names| :: names[k] in events
    requires i < |names|
    ensures var list := events[names[i]];
      var here := PlanEvents(events, names[i..]);
      if list.None? then here == ([], Some(SubscribedListRequired(names[i])))
      else
        var planned := PlanList(names[i], list.value);
        var rest := PlanEvents(events, names[i + 1..]);
        here == if planned.1.Some? then planned else (planned.0 + rest.0, rest.1)
  {
    assert names[i..][0] == names[i] && names[i..][1..] == names[i + 1..];
  }

  /** `AddSubscriber` on the state: the checks before any addition, then the
      additions of the plan over the sorted names, with the panic that may
      end it part way. */
  ghost function AddSubscriberState(s: State, subscriber: Option<Subscriber>): (State, Option<Panic>) {
    if subscriber.None? then (s, Some(SubscriberRequired))
    else
      var sub := subscriber.value;
      if sub.subscribedEvents.None? then (s, Some(SubscribedEventsRequired))
      else if sub.pointer == 0 then (s, Some(SubscriberPointerRequired))
      else if "" in sub.subscribedEvents.value then (s, Some(EmptyEventName))
      else
        var events := sub.subscribedEvents.value;
        var planned := PlanEvents(events, SortedElements(events.Keys));
        (Subscribe(s, sub.pointer, sub.subscriberType, planned.0), planned.1)
  }

  /** The registrations the steps make, from the id after `base`. */
  function NewRegistrations(steps: seq<Step>, base: nat, subscriberType: string): (r: seq<SubscriberRegistration>)
    ensures |r| == |steps|
    ensures forall k | 0 <= k < |steps| :: r[k] == SubscriberRegistration(steps[k].eventName, base + k + 1, subscriberType)
    decreases |steps|
  {
    if steps == [] then []
    else
      NewRegistrations(steps[..|steps| - 1], base, subscriberType)
        + [SubscriberRegistration(steps[|steps| - 1].eventName, base + |steps|, subscriberType)]
  }

  /** Step `k` added `x` under `eventName`, with the id after `base`. */
  predicate AddedBy(steps: seq<Step>, base: nat, eventName: string, x: Entry) {
    exists k | 0 <= k < |steps| :: steps[k].eventName == eventName && x == Entry(steps[k].listener, base + k + 1, steps[k].priority)
  }

  lemma InsertedMembers(s: seq<Entry>, x: Entry)
    ensures forall y :: y in Inserted(s, x) <==> y in s || y == x
  {
    var r := Inserted(s, x);
    InsertedMultiset(s, x);
    assert forall y :: y in r <==> y in multiset(r);
    assert forall y :: y in s <==> y in multiset(s);
  }

  lemma AddListenerListed(s: State, eventName: string, listener: nat, priority: int)
    ensures var t := AddListenerState(s, eventName, listener, priority);
      forall e, x :: Listed(t.listeners, e, x) <==>
        Listed(s.listeners, e, x) || (e == eventName && x == Entry(listener, s.nextListenerId + 1, priority))
  {
    InsertedMembers(ListenersOf(s.listeners, eventName), Entry(listener, s.nextListenerId + 1, priority));
  }

  lemma RegisterRegistrations(t: State, pointer: nat, subscriberType: string, step: Step)
    ensures var u := Register(t, pointer, subscriberType, step);
      u.nextListenerId == t.nextListenerId + 1
      && RegistrationsOf(u.registrations, pointer) == RegistrationsOf(t.registrations, pointer)
        + [SubscriberRegistration(step.eventName, t.nextListenerId + 1, subscriberType)]
      && pointer in u.registrations
      && forall p | p != pointer :: (p in u.registrations <==> p in t.registrations) && RegistrationsOf(u.registrations, p) == RegistrationsOf(t.registrations, p)
  {
  }

  /** The steps issue consecutive ids and append one registration each to the
      subscriber's list, leaving the other subscribers alone. */
  lemma SubscribeRegistrations(s: State, pointer: nat, subscriberType: string, steps: seq<Step>)
    ensures var t := Subscribe(s, pointer, subscriberType, steps);
      t.nextListenerId == s.nextListenerId + |steps|
      && RegistrationsOf(t.registrations, pointer) == RegistrationsOf(s.registrations, pointer) + NewRegistrations(steps, s.nextListenerId, subscriberType)
      && (pointer in t.registrations <==> pointer in s.registrations || steps != [])
      && forall p | p != pointer :: (p in t.registrations <==> p in s.registrations) && RegistrationsOf(t.registrations, p) == RegistrationsOf(s.registrations, p)
  {
    SubscribeNextId(s, pointer, subscriberType, steps);
    SubscribeOwnList(s, pointer, subscriberType, steps);
    SubscribeOthers(s, pointer, subscriberType, steps);
  }

  lemma {:induction false} SubscribeNextId(s: State, pointer: nat, subscriberType: string, steps: seq<Step>)
    ensures Subscribe(s, pointer, subscriberType, steps).nextListenerId == s.nextListenerId + |steps|
    decreases |steps|
  {
    if steps != [] {
      SubscribeNextId(s, pointer, subscriberType, steps[..|steps| - 1]);
    }
  }

  lemma {:induction false} SubscribeOwnList(s: State, pointer: nat, subscriberType: string, steps: seq<Step>)
    ensures var t := Subscribe(s, pointer, subscriberType, steps);
      RegistrationsOf(t.registrations, pointer) == RegistrationsOf(s.registrations, pointer) + NewRegistrations(steps, s.nextListenerId, subscriberType)
      && (pointer in t.registrations <==> pointer in s.registrations || steps != [])
    decreases |steps|
  {
    if steps != [] {
      var init := steps[..|steps| - 1];
      var last := steps[|steps| - 1];
      SubscribeOwnList(s, pointer, subscriberType, init);
      SubscribeNextId(s, pointer, subscriberType, init);
      var t := Subscribe(s, pointer, subscriberType, init);
      RegisterRegistrations(t, pointer, subscriberType, last);
      NewRegistrationsSnoc(steps, s.nextListenerId, subscriberType);
      SnocAssociates(RegistrationsOf(s.registrations, pointer), NewRegistrations(init, s.nextListenerId, subscriberType),
        SubscriberRegistration(last.eventName, s.nextListenerId + |steps|, subscriberType));
    }
  }

  lemma {:induction false} SubscribeOthers(s: State, pointer: nat, subscriberType: string, steps: seq<Step>)
    ensures var t := Subscribe(s, pointer, subscriberType, steps);
      forall p | p != pointer :: (p in t.registrations <==> p in s.registrations) && RegistrationsOf(t.registrations, p) == RegistrationsOf(s.registrations, p)
    decreases |steps|
  {
    if steps != [] {
      var init := steps[..|steps| - 1];
      SubscribeOthers(s, pointer, subscriberType, init);
      RegisterRegistrations(Subscribe(s, pointer, subscriberType, init), pointer, subscriberType, steps[|steps| - 1]);
    }
  }

  lemma NewRegistrationsSnoc(steps: seq<Step>, base: nat, subscriberType: string)
    requires steps != []
    ensures NewRegistrations(steps, base, subscriberType)
      == NewRegistrations(steps[..|steps| - 1], base, subscriberType)
        + [SubscriberRegistration(steps[|steps| - 1].eventName, base + |steps|, subscriberType)]
  {
  }

  lemma SnocAssociates<T>(a: seq<T>, b: seq<T>, x: T)
    ensures a + (b + [x]) == a + b + [x]
  {
  }

  lemma RegisterListeners(t: State, pointer: nat, subscriberType: string, step: Step)
    requires Wellformed(t) && step.eventName != []
    ensures var u := Register(t, pointer, subscriberType, step);
      Wellformed(u) && u.nextListenerId == t.nextListenerId + 1
      && forall e, x :: Listed(u.listeners, e, x) <==>
        Listed(t.listeners, e, x) || (e == step.eventName && x == Entry(step.listener, t.nextListenerId + 1, step.priority))
  {
    AddListenerWellformed(t, step.eventName, step.listener, step.priority);
    AddListenerListed(t, step.eventName, step.listener, step.priority);
  }

  lemma AddedBySnoc(steps: seq<Step>, base: nat)
    requires steps != []
    ensures var init := steps[..|steps| - 1];
      var last := steps[|steps| - 1];
      forall e, x :: AddedBy(steps, base, e, x) <==>
        AddedBy(init, base, e, x) || (e == last.eventName && x == Entry(last.listener, base + |steps|, last.priority))
  {
    var init := steps[..|steps| - 1];
    var last := steps[|steps| - 1];
    forall e: string, x: Entry ensures AddedBy(steps, base, e, x) <==>
      AddedBy(init, base, e, x) || (e == last.eventName && x == Entry(last.listener, base + |steps|, last.priority))
    {
      if AddedBy(steps, base, e, x) {
        var k :| 0 <= k < |steps| && steps[k].eventName == e && x == Entry(steps[k].listener, base + k + 1, steps[k].priority);
        if k < |init| {
          assert init[k] == steps[k];
        }
      }
      if AddedBy(init, base, e, x) {
        var k :| 0 <= k < |init| && init[k].eventName == e && x == Entry(init[k].listener, base + k + 1, init[k].priority);
        assert steps[k] == init[k];
      }
      if e == last.eventName && x == Entry(last.listener, base + |steps|, last.priority) {
        assert steps[|steps| - 1] == last;
      }
    }
  }

  /** After the steps, an entry is listed exactly when it was before or a
      step added it; the state stays well formed. */
  lemma {:induction false} SubscribeListeners(s: State, pointer: nat, subscriberType: string, steps: seq<Step>)
    requires Wellformed(s)
    requires forall k | 0 <= k < |steps| :: steps[k].eventName != []
    ensures var t := Subscribe(s, pointer, subscriberType, steps);
      Wellformed(t) && t.nextListenerId == s.nextListenerId + |steps|
      && forall e, x :: Listed(t.listeners, e, x) <==> Listed(s.listeners, e, x) || AddedBy(steps, s.nextListenerId, e, x)
    decreases |steps|
  {
    if steps != [] {
      var init := steps[..|steps| - 1];
      SubscribeListeners(s, pointer, subscriberType, init);
      RegisterListeners(Subscribe(s, pointer, subscriberType, init), pointer, subscriberType, steps[|steps| - 1]);
      AddedBySnoc(steps, s.nextListenerId);
    }
  }

  /** Two lists in order with the same entries are the same list. */
  lemma {:induction false} InOrderSameMembers(a: seq<Entry>, b: seq<Entry>)
    requires InOrder(a) && InOrder(b) && forall x :: x in a <==> x in b
    ensures a == b
    decreases |a|
  {
    if a == [] {
      if b != [] {
        HeadIsMember(b);
        assert false;
      }
    } else {
      assert a[0] in b;
      var m :| 0 <= m < |b| && b[m] == a[0];
      assert b[0] in a;
      var n :| 0 <= n < |a| && a[n] == b[0];
      HeadsAgreeAt(a, b, n, m);
      TailsSameMembers(a, b);
      TailsSameMembers(b, a);
      TailInOrder(a);
      TailInOrder(b);
      InOrderSameMembers(a[1..], b[1..]);
      assert a == [a[0]] + a[1..] && b == [b[0]] + b[1..];
    }
  }

  lemma HeadIsMember(s: seq<Entry>)
    requires s != []
    ensures s[0] in s
  {
  }

  lemma TailsSameMembers(a: seq<Entry>, b: seq<Entry>)
    requires InOrder(a) && (forall x :: x in a <==> x in b) && a != [] && b != [] && a[0] == b[0]
    ensures forall x :: x in a[1..] ==> x in b[1..]
  {
    forall x | x in a[1..] ensures x in b[1..] {
      var k :| 1 <= k < |a| && a[k] == x;
      assert Precedes(a[0], x) && x in b;
      var j :| 0 <= j < |b| && b[j] == x;
      assert j != 0 && b[1..][j - 1] == x;
    }
  }

  lemma NewRegistrationsFor(steps: seq<Step>, base: nat, subscriberType: string, eventName: string, listenerId: nat)
    ensures RegisteredFor(NewRegistrations(steps, base, subscriberType), eventName, listenerId) <==>
      exists k | 0 <= k < |steps| :: steps[k].eventName == eventName && listenerId == base + k + 1
  {
    var r := NewRegistrations(steps, base, subscriberType);
    if exists k | 0 <= k < |steps| :: steps[k].eventName == eventName && listenerId == base + k + 1 {
      var k :| 0 <= k < |steps| && steps[k].eventName == eventName && listenerId == base + k + 1;
      assert r[k].eventName == eventName && r[k].listenerId == listenerId;
    }
  }

  /** Two listener maps whose lists are all well formed and that list the
      same entries under the same events are equal. */
  lemma SameListedEqual(a: map<string, seq<Entry>>, boundA: nat, b: map<string, seq<Entry>>, boundB: nat)
    requires forall e | e in a :: ListWellformed(e, a[e], boundA)
    requires forall e | e in b :: ListWellformed(e, b[e], boundB)
    requires forall e, x :: Listed(a, e, x) <==> Listed(b, e, x)
    ensures a == b
  {
    forall e | e in a ensures e in b && a[e] == b[e] {
      assert ListWellformed(e, a[e], boundA);
      assert Listed(a, e, a[e][0]);
      assert ListWellformed(e, b[e], boundB);
      forall x ensures x in a[e] <==> x in b[e] {
        assert Listed(a, e, x) <==> Listed(b, e, x);
      }
      InOrderSameMembers(a[e], b[e]);
    }
    forall e | e in b ensures e in a {
      assert ListWellformed(e, b[e], boundB);
      assert Listed(b, e, b[e][0]);
    }
  }

  lemma ListedBound(s: State, e: string, x: Entry)
    requires Wellformed(s) && Listed(s.listeners, e, x)
    ensures x.listenerId <= s.nextListenerId
  {
    assert ListWellformed(e, s.listeners[e], s.nextListenerId);
    var k :| 0 <= k < |s.listeners[e]| && s.listeners[e][k] == x;
  }

  /** Removing the registrations of the steps removes exactly the entries
      the steps added. */
  lemma RemoveNewListed(s: State, t: State, steps: seq<Step>, regs: seq<SubscriberRegistration>, subscriberType: string)
    requires Wellformed(s) && Wellformed(t)
    requires forall e, x :: Listed(t.listeners, e, x) <==> Listed(s.listeners, e, x) || AddedBy(steps, s.nextListenerId, e, x)
    requires regs == NewRegistrations(steps, s.nextListenerId, subscriberType)
    ensures forall e, x :: Listed(RemoveAll(t.listeners, regs).0, e, x) <==> Listed(s.listeners, e, x)
    ensures Wellformed(t.(listeners := RemoveAll(t.listeners, regs).0))
  {
    var base := s.nextListenerId;
    RemoveAllEffect(t, regs);
    var r := RemoveAll(t.listeners, regs).0;
    forall e: string, x: Entry ensures Listed(r, e, x) <==> Listed(s.listeners, e, x) {
      NewRegistrationsFor(steps, base, subscriberType, e, x.listenerId);
      if Listed(s.listeners, e, x) {
        ListedBound(s, e, x);
      }
      if Listed(t.listeners, e, x) && AddedBy(steps, base, e, x) {
        var k :| 0 <= k < |steps| && steps[k].eventName == e && x == Entry(steps[k].listener, base + k + 1, steps[k].priority);
        assert RegisteredFor(regs, e, x.listenerId);
      }
    }
  }

  /** `RemoveSubscriber` after `AddSubscriber` of a subscriber with no
      earlier registrations gives back the listeners as they were. */
  lemma SubscribeThenRemove(s: State, pointer: nat, subscriberType: string, steps: seq<Step>)
    requires Wellformed(s) && pointer !in s.registrations
    requires forall k | 0 <= k < |steps| :: steps[k].eventName != []
    ensures var t := Subscribe(s, pointer, subscriberType, steps);
      RemoveAll(t.listeners, RegistrationsOf(t.registrations, pointer)).0 == s.listeners
  {
    var t := Subscribe(s, pointer, subscriberType, steps);
    SubscribeListeners(s, pointer, subscriberType, steps);
    SubscribeOwnList(s, pointer, subscriberType, steps);
    var regs := RegistrationsOf(t.registrations, pointer);
    assert regs == NewRegistrations(steps, s.nextListenerId, subscriberType);
    RemoveNewListed(s, t, steps, regs, subscriberType);
    var w := t.(listeners := RemoveAll(t.listeners, regs).0);
    SameListedEqual(w.listeners, w.nextListenerId, s.listeners, s.nextListenerId);
  }

  // ---------------------------------------------------------------------------
  // Dispatch

  /** What a listener did: returned nil, returned an error, or panicked. */
  datatype ListenerResult = Returned | ReturnedError | Panicked

  /** A listener's behaviour on the event: its result and whether it stopped
      propagation. */
  datatype Outcome = Outcome(result: ListenerResult, stopsPropagation: bool)

  /** The error `callListenerSafely` turns a failure into. */
  datatype ListenerFailure = ListenerReturnedError(listenerId: nat) | ListenerPanicked(listenerId: nat)

  /** The result of the dispatch loop: the ids called, in order, whether
      propagation is stopped at the end, and the failure that stopped it. */
  datatype Run = Run(called: seq<nat>, stopped: bool, failure: Option<ListenerFailure>)

  function FailureOf(entry: Entry, outcome: Outcome): ListenerFailure
    requires outcome.result != Returned
  {
    if outcome.result == ReturnedError then ListenerReturnedError(entry.listenerId) else ListenerPanicked(entry.listenerId)
  }

  /** The dispatch loop over the snapshot: each listener runs; an error
      returns at once; stopped propagation breaks after the listener. */
  function RunListeners(entries: seq<Entry>, stopped: bool, outcome: Entry -> Outcome): (r: Run)
    ensures 0 < |r.called| <= |entries| || (entries == [] && r.called == [])
    decreases |entries|
  {
    if entries == [] then Run([], stopped, None)
    else
      var o := outcome(entries[0]);
      if o.result != Returned then Run([entries[0].listenerId], stopped || o.stopsPropagation, Some(FailureOf(entries[0], o)))
      else if stopped || o.stopsPropagation then Run([entries[0].listenerId], true, None)
      else
        var rest := RunListeners(entries[1..], false, outcome);
        Run([entries[0].listenerId] + rest.called, rest.stopped, rest.failure)
  }

  /** The listeners are called in the snapshot's order; all but the last
      returned nil without stopping propagation; the loop ends early only on
      a failure, which is the last listener's, or on stopped propagation. */
  lemma RunListenersFacts(entries: seq<Entry>, stopped: bool, outcome: Entry -> Outcome)
    ensures var r := RunListeners(entries, stopped, outcome);
      forall k | 0 <= k < |r.called| :: r.called[k] == entries[k].listenerId
    ensures var r := RunListeners(entries, stopped, outcome);
      forall k | 0 <= k < |r.called| - 1 :: outcome(entries[k]) == Outcome(Returned, false)
    ensures var r := RunListeners(entries, stopped, outcome);
      r.failure.Some? ==>
      outcome(entries[|r.called| - 1]).result != Returned
      && r.failure == Some(FailureOf(entries[|r.called| - 1], outcome(entries[|r.called| - 1])))
    ensures var r := RunListeners(entries, stopped, outcome);
      r.failure.None? && r.called != [] ==> outcome(entries[|r.called| - 1]).result == Returned
    ensures var r := RunListeners(entries, stopped, outcome);
      |r.called| < |entries| ==> r.failure.Some? || r.stopped
    ensures var r := RunListeners(entries, stopped, outcome);
      r.failure.None? ==> (r.stopped <==> stopped || exists k | 0 <= k < |r.called| :: outcome(entries[k]).stopsPropagation)
  {
    RunOrder(entries, stopped, outcome);
    RunLast(entries, stopped, outcome);
    RunStopped(entries, stopped, outcome);
  }

  lemma {:induction false} RunOrder(entries: seq<Entry>, stopped: bool, outcome: Entry -> Outcome)
    ensures var r := RunListeners(entries, stopped, outcome);
      forall k | 0 <= k < |r.called| :: r.called[k] == entries[k].listenerId
    ensures var r := RunListeners(entries, stopped, outcome);
      forall k | 0 <= k < |r.called| - 1 :: outcome(entries[k]) == Outcome(Returned, false)
    decreases |entries|
  {
    if entries != [] {
      var o := outcome(entries[0]);
      if o.result == Returned && !stopped && !o.stopsPropagation {
        var tail := entries[1..];
        RunOrder(tail, false, outcome);
        var rest := RunListeners(tail, false, outcome);
        var r := RunListeners(entries, stopped, outcome);
        assert r.called == [entries[0].listenerId] + rest.called;
        assert forall k | 1 <= k < |entries| :: entries[k] == tail[k - 1];
      }
    }
  }

  lemma {:induction false} RunLast(entries: seq<Entry>, stopped: bool, outcome: Entry -> Outcome)
    ensures var r := RunListeners(entries, stopped, outcome);
      r.failure.Some? ==>
      outcome(entries[|r.called| - 1]).result != Returned
      && r.failure == Some(FailureOf(entries[|r.called| - 1], outcome(entries[|r.called| - 1])))
    ensures var r := RunListeners(entries, stopped, outcome);
      r.failure.None? && r.called != [] ==> outcome(entries[|r.called| - 1]).result == Returned
    ensures var r := RunListeners(entries, stopped, outcome);
      |r.called| < |entries| ==> r.failure.Some? || r.stopped
    decreases |entries|
  {
    if entries != [] {
      var o := outcome(entries[0]);
      if o.result == Returned && !stopped && !o.stopsPropagation {
        var tail := entries[1..];
        RunLast(tail, false, outcome);
        var rest := RunListeners(tail, false, outcome);
        if rest.called != [] {
          assert entries[|rest.called|] == tail[|rest.called| - 1];
        }
      }
    }
  }

  lemma {:induction false} RunStopped(entries: seq<Entry>, stopped: bool, outcome: Entry -> Outcome)
    ensures var r := RunListeners(entries, stopped, outcome);
      r.failure.None? ==> (r.stopped <==> stopped || exists k | 0 <= k < |r.called| :: outcome(entries[k]).stopsPropagation)
    decreases |entries|
  {
    if entries != [] {
      var o := outcome(entries[0]);
      if o.result == Returned && !stopped && !o.stopsPropagation {
        var tail := entries[1..];
        RunStopped(tail, false, outcome);
        RunOrder(tail, false, outcome);
        var rest := RunListeners(tail, false, outcome);
        var r := RunListeners(entries, stopped, outcome);
        assert forall k | 1 <= k < |entries| :: entries[k] == tail[k - 1];
        if r.failure.None? && r.stopped {
          var k :| 0 <= k < |rest.called| && outcome(tail[k]).stopsPropagation;
          assert outcome(entries[k + 1]).stopsPropagation;
        }
        if r.failure.None? && (exists k | 0 <= k < |r.called| :: outcome(entries[k]).stopsPropagation) {
          var k :| 0 <= k < |r.called| && outcome(entries[k]).stopsPropagation;
          assert k > 0 && outcome(tail[k - 1]).stopsPropagation;
        }
      }
    }
  }

  /** The event as dispatch sees it: its name and whether propagation is
      already stopped. */
  datatype Event = Event(name: string, propagationStopped: bool)

  // ---------------------------------------------------------------------------
  // Registered events

  datatype ListenerSource = FromListener | FromSubscriber

  /** `RegisteredListener`, without the listener's reflected function name. */
  datatype RegisteredListener = RegisteredListener(priority: int, source: ListenerSource, owner: string, listenerId: string)

  datatype RegisteredEvent = RegisteredEvent(eventName: string, listeners: seq<RegisteredListener>)

  /** Some subscriber among `pointers` registered the listener of the event and id. */
  predicate OwnedAmong(registrations: map<nat, seq<SubscriberRegistration>>, pointers: set<nat>, eventName: string, listenerId: nat) {
    exists p, m | p in pointers && p in registrations && 0 <= m < |registrations[p]| ::
      registrations[p][m].eventName == eventName && registrations[p][m].listenerId == listenerId
  }

  /** A subscriber of type `owner` registered the listener of the event and id. */
  predicate OwnedBy(registrations: map<nat, seq<SubscriberRegistration>>, eventName: string, listenerId: nat, owner: string) {
    exists p, m | p in registrations && 0 <= m < |registrations[p]| ::
      registrations[p][m] == SubscriberRegistration(eventName, listenerId, owner)
  }

  /** How `RegisteredEvents` reports an entry: its priority and decimal id,
      and, when a subscriber registered it, that subscriber's type as owner;
      otherwise the listener source and the owner "-". */
  predicate Reports(registrations: map<nat, seq<SubscriberRegistration>>, eventName: string, entry: Entry, r: RegisteredListener) {
    r.priority == entry.priority && r.listenerId == NatToString(entry.listenerId)
    && (r.source == FromSubscriber <==> OwnedAmong(registrations, registrations.Keys, eventName, entry.listenerId))
    && (r.source == FromSubscriber ==> OwnedBy(registrations, eventName, entry.listenerId, r.owner))
    && (r.source == FromListener ==> r.owner == "-")
  }

  /** The owner map of `RegisteredEvents`: for each registered event and id,
      the type of a subscriber that registered it. */
  method OwnerMap(registrations: map<nat, seq<SubscriberRegistration>>) returns (owners: map<(string, nat), string>)
    ensures forall key :: key in owners <==> OwnedAmong(registrations, registrations.Keys, key.0, key.1)
    ensures forall key | key in owners :: OwnedBy(registrations, key.0, key.1, owners[key])
  {
    owners := map[];
    var remaining := registrations.Keys;
    while remaining != {}
      invariant remaining <= registrations.Keys
      invariant forall key :: key in owners <==> OwnedAmong(registrations, registrations.Keys - remaining, key.0, key.1)
      invariant forall key | key in owners :: OwnedBy(registrations, key.0, key.1, owners[key])
      decreases |remaining|
    {
      var p :| p in remaining;
      var list := registrations[p];
      var done := registrations.Keys - remaining;
      var j := 0;
      while j < |list|
        invariant 0 <= j <= |list|
        invariant forall key :: key in owners <==>
          (OwnedAmong(registrations, done, key.0, key.1) || exists m | 0 <= m < j :: list[m].eventName == key.0 && list[m].listenerId == key.1)
        invariant forall key | key in owners :: OwnedBy(registrations, key.0, key.1, owners[key])
      {
        var registration := list[j];
        assert registrations[p][j] == SubscriberRegistration(registration.eventName, registration.listenerId, registration.subscriberType);
        owners := owners[(registration.eventName, registration.listenerId) := registration.subscriberType];
        j := j + 1;
      }
      remaining := remaining - {p};
      forall key ensures key in owners <==> OwnedAmong(registrations, registrations.Keys - remaining, key.0, key.1) {
        if OwnedAmong(registrations, registrations.Keys - remaining, key.0, key.1) {
          var q, m :| q in registrations.Keys - remaining && q in registrations && 0 <= m < |registrations[q]|
            && registrations[q][m].eventName == key.0 && registrations[q][m].listenerId == key.1;
          if q != p {
            assert OwnedAmong(registrations, done, key.0, key.1);
          }
        }
        if key in owners && !OwnedAmong(registrations, done, key.0, key.1) {
          var m :| 0 <= m < |list| && list[m].eventName == key.0 && list[m].listenerId == key.1;
          assert registrations[p][m] == list[m];
        }
      }
    }
  }

  /** The listeners of one event as `RegisteredEvents` reports them. */
  method ReportListeners(registrations: map<nat, seq<SubscriberRegistration>>, eventName: string, entries: seq<Entry>, owners: map<(string, nat), string>)
    returns (r: seq<RegisteredListener>)
    requires forall key :: key in owners <==> OwnedAmong(registrations, registrations.Keys, key.0, key.1)
    requires forall key | key in owners :: OwnedBy(registrations, key.0, key.1, owners[key])
    ensures |r| == |entries|
    ensures forall j | 0 <= j < |r| :: Reports(registrations, eventName, entries[j], r[j])
  {
    r := [];
    var j := 0;
    while j < |entries|
      invariant 0 <= j <= |entries| && |r| == j
      invariant forall k | 0 <= k < j :: Reports(registrations, eventName, entries[k], r[k])
    {
      var entry := entries[j];
      var source := FromListener;
      var owner := "-";
      if (eventName, entry.listenerId) in owners {
        source := FromSubscriber;
        owner := owners[(eventName, entry.listenerId)];
      }
      r := r + [RegisteredListener(entry.priority, source, owner, NatToString(entry.listenerId))];
      j := j + 1;
    }
  }

  // ---------------------------------------------------------------------------
  // The dispatcher

  /** Adding a listener and removing it by the id it was given leaves the
      listeners as they were. */
  lemma AddThenRemove(s: State, eventName: string, listener: nat, priority: int)
    requires Wellformed(s) && eventName != []
    ensures var t := AddListenerState(s, eventName, listener, priority);
      RemoveById(t.listeners, eventName, t.nextListenerId) == (s.listeners, 1)
  {
    AddThenRemoveListeners(s, eventName, listener, priority);
    AddThenRemoveCount(s, eventName, listener, priority);
  }

  lemma AddThenRemoveListeners(s: State, eventName: string, listener: nat, priority: int)
    requires Wellformed(s) && eventName != []
    ensures var t := AddListenerState(s, eventName, listener, priority);
      RemoveById(t.listeners, eventName, t.nextListenerId).0 == s.listeners
  {
    var t := AddListenerState(s, eventName, listener, priority);
    AddListenerWellformed(s, eventName, listener, priority);
    AddListenerListed(s, eventName, listener, priority);
    RemoveByIdWellformed(t, eventName, t.nextListenerId);
    RemoveByIdListed(t.listeners, eventName, t.nextListenerId);
    var r := RemoveById(t.listeners, eventName, t.nextListenerId);
    forall e: string, x: Entry ensures Listed(r.0, e, x) <==> Listed(s.listeners, e, x) {
      if Listed(s.listeners, e, x) {
        ListedBound(s, e, x);
      }
    }
    SameListedEqual(r.0, t.nextListenerId, s.listeners, s.nextListenerId);
  }

  lemma AddThenRemoveCount(s: State, eventName: string, listener: nat, priority: int)
    requires Wellformed(s) && eventName != []
    ensures var t := AddListenerState(s, eventName, listener, priority);
      RemoveById(t.listeners, eventName, t.nextListenerId).1 == 1
  {
    var t := AddListenerState(s, eventName, listener, priority);
    AddListenerWellformed(s, eventName, listener, priority);
    AddListenerListed(s, eventName, listener, priority);
    assert Listed(t.listeners, eventName, Entry(listener, t.nextListenerId, priority));
    assert ListWellformed(eventName, t.listeners[eventName], t.nextListenerId);
    RemovesAtMostOne(t.listeners[eventName], t.nextListenerId);
    var k :| 0 <= k < |t.listeners[eventName]| && t.listeners[eventName][k] == Entry(listener, t.nextListenerId, priority);
    assert t.nextListenerId in IdsOf(t.listeners[eventName]);
  }

  /** Appending an entry with a fresh, larger id and sorting stably by the
      listener order gives `Inserted`: it is the only arrangement in order. */
  lemma AppendThenSortIsInserted(s: seq<Entry>, x: Entry, sorted: seq<Entry>)
    requires InOrder(s) && forall k | 0 <= k < |s| :: s[k].listenerId < x.listenerId
    requires InOrder(sorted) && multiset(sorted) == multiset(s + [x])
    ensures sorted == Inserted(s, x)
  {
    InsertedInOrder(s, x);
    InsertedMultiset(s, x);
    InOrderUnique(sorted, Inserted(s, x));
  }

  /** The `EventDispatcher`: listeners per event name, the registrations of
      each subscriber by pointer, and the last listener id issued. */
  class Dispatcher {
    var listeners: map<string, seq<Entry>>
    var subscriberRegistrations: map<nat, seq<SubscriberRegistration>>
    var nextListenerId: nat

    function Contents(): State
      reads this
    {
      State(listeners, subscriberRegistrations, nextListenerId)
    }

    ghost predicate Valid()
      reads this
    {
      Wellformed(Contents())
    }

    constructor ()
      ensures Valid() && Contents() == State(map[], map[], 0)
    {
      listeners := map[];
      subscriberRegistrations := map[];
      nextListenerId := 0;
    }

    /** `AddListener`: an empty name or a nil listener panics; otherwise the
        next id is issued and the entry takes its place in the order. */
    method AddListener(eventName: string, listener: Option<nat>, priority: int) returns (r: Result<ListenerRegistration, Panic>)
      requires Valid()
      modifies this
      ensures Valid()
      ensures eventName == [] ==> r == Err(EventNameRequired) && Contents() == old(Contents())
      ensures eventName != [] && listener.None? ==> r == Err(ListenerRequired) && Contents() == old(Contents())
      ensures eventName != [] && listener.Some? ==>
        r == Ok(ListenerRegistration(eventName, old(nextListenerId) + 1))
        && Contents() == AddListenerState(old(Contents()), eventName, listener.value, priority)
    {
      if eventName == [] {
        return Err(EventNameRequired);
      }
      if listener.None? {
        return Err(ListenerRequired);
      }
      var listenerId := nextListenerId + 1;
      var list := Inserted(ListenersOf(listeners, eventName), Entry(listener.value, listenerId, priority));
      AddListenerWellformed(Contents(), eventName, listener.value, priority);
      nextListenerId := listenerId;
      listeners := listeners[eventName := list];
      return Ok(ListenerRegistration(eventName, listenerId));
    }

    /** `removeListenerById`: the event's list without the id, the event
        dropped when nothing is left, and the number of entries removed. */
    method RemoveListenerById(eventName: string, listenerId: nat) returns (removed: nat)
      requires Valid()
      modifies this
      ensures Valid()
      ensures (listeners, removed) == RemoveById(old(listeners), eventName, listenerId)
      ensures subscriberRegistrations == old(subscriberRegistrations) && nextListenerId == old(nextListenerId)
    {
      RemoveByIdWellformed(Contents(), eventName, listenerId);
      ghost var after := RemoveById(listeners, eventName, listenerId);
      ghost var next := Contents().(listeners := after.0);
      if eventName in listeners {
        var filtered;
        filtered, removed := FilterListeners(listeners[eventName], listenerId);
        listeners := if filtered == [] then listeners - {eventName} else listeners[eventName := filtered];
      } else {
        removed := 0;
      }
      assert (listeners, removed) == after;
      assert Contents() == next;
    }

    /** `RemoveListener`: an empty name or id 0 panics; the result says
        whether the id was listed under the event, and when it was, its
        registration is dropped from every subscriber. */
    method RemoveListener(registration: ListenerRegistration) returns (r: Result<bool, Panic>)
      requires Valid()
      modifies this
      ensures Valid()
      ensures registration.eventName == [] ==> r == Err(EventNameRequired) && Contents() == old(Contents())
      ensures registration.eventName != [] && registration.listenerId == 0 ==>
        r == Err(ListenerIdRequired) && Contents() == old(Contents())
      ensures registration.eventName != [] && registration.listenerId != 0 ==>
        var removal := RemoveById(old(listeners), registration.eventName, registration.listenerId);
        r == Ok(registration.listenerId in IdsOf(ListenersOf(old(listeners), registration.eventName)))
        && listeners == removal.0 && nextListenerId == old(nextListenerId)
        && subscriberRegistrations == if removal.1 == 0 then old(subscriberRegistrations)
          else Unregister(old(subscriberRegistrations), registration.eventName, registration.listenerId)
    {
      var eventName := registration.eventName;
      if eventName == [] {
        return Err(EventNameRequired);
      }
      var listenerId := registration.listenerId;
      if listenerId == 0 {
        return Err(ListenerIdRequired);
      }
      if eventName in listeners {
        assert ListWellformed(eventName, listeners[eventName], nextListenerId);
        RemovesAtMostOne(listeners[eventName], listenerId);
      }
      var removedCount := RemoveListenerById(eventName, listenerId);
      if removedCount == 0 {
        return Ok(false);
      }
      subscriberRegistrations := UnregisterAll(subscriberRegistrations, eventName, listenerId);
      return Ok(true);
    }

    /** `AddSubscriber`: the checks on the subscriber, then, for each event
        name in increasing order and each entry of its list, `AddListener`
        and a registration for the subscriber; a nil list, entry or listener
        panics with the additions before it kept. */
    method AddSubscriber(subscriber: Option<Subscriber>) returns (err: Option<Panic>)
      requires Valid()
      modifies this
      ensures Valid()
      ensures (Contents(), err) == AddSubscriberState(old(Contents()), subscriber)
    {
      if subscriber.None? {
        return Some(SubscriberRequired);
      }
      var sub := subscriber.value;
      if sub.subscribedEvents.None? {
        return Some(SubscribedEventsRequired);
      }
      if sub.pointer == 0 {
        return Some(SubscriberPointerRequired);
      }
      var events := sub.subscribedEvents.value;
      if "" in events {
        return Some(EmptyEventName);
      }
      var names := SortedSetElements(events.Keys);
      StrictlySortedUnique(names, SortedElements(events.Keys));
      err := SubscribeEvents(sub.pointer, sub.subscriberType, events, names);
    }

    /** The outer loop of `AddSubscriber` over the sorted event names. */
    method SubscribeEvents(pointer: nat, subscriberType: string, events: map<string, Option<seq<Option<SubscribedEvent>>>>, names: seq<string>)
      returns (err: Option<Panic>)
      requires Valid()
      requires forall k | 0 <= k < |names| :: names[k] in events && names[k] != []
      modifies this
      ensures Valid()
      ensures var planned := PlanEvents(events, names);
        Contents() == Subscribe(old(Contents()), pointer, subscriberType, planned.0) && err == planned.1
    {
      ghost var start := Contents();
      ghost var total := PlanEvents(events, names);
      ghost var done: seq<Step> := [];
      assert names[0..] == names && done + total.0 == total.0;
      var i := 0;
      while i < |names|
        invariant 0 <= i <= |names| && Valid()
        invariant var rest := PlanEvents(events, names[i..]); total == (done + rest.0, rest.1)
        invariant Contents() == Subscribe(start, pointer, subscriberType, done)
      {
        var eventName := names[i];
        PlanEventsStep(events, names, i);
        var list := events[eventName];
        if list.None? {
          assert done + [] == done;
          return Some(SubscribedListRequired(eventName));
        }
        ghost var planned := PlanList(eventName, list.value);
        SubscribeAppend(start, pointer, subscriberType, done, planned.0);
        AppendAssociative(done, planned.0, PlanEvents(events, names[i + 1..]).0);
        done := done + planned.0;
        err := SubscribeList(pointer, subscriberType, eventName, list.value);
        if err.Some? {
          return err;
        }
        i := i + 1;
      }
      assert done + [] == done;
      return None;
    }

    /** The inner loop of `AddSubscriber` over one event's list. */
    method SubscribeList(pointer: nat, subscriberType: string, eventName: string, list: seq<Option<SubscribedEvent>>)
      returns (err: Option<Panic>)
      requires Valid() && eventName != []
      modifies this
      ensures Valid()
      ensures var planned := PlanList(eventName, list);
        Contents() == Subscribe(old(Contents()), pointer, subscriberType, planned.0) && err == planned.1
    {
      ghost var start := Contents();
      ghost var planned := PlanList(eventName, list);
      var j := 0;
      var stopped := false;
      while j < |list| && !stopped
        invariant 0 <= j <= FirstUnusable(list) && Valid()
        invariant stopped ==> j == FirstUnusable(list) && j < |list|
        invariant Contents() == Subscribe(start, pointer, subscriberType, planned.0[..j])
        decreases |list| - j, if stopped then 0 else 1
      {
        var entry := list[j];
        if entry.None? || entry.value.listener.None? {
          stopped := true;
        } else {
          SubscribeSnoc(start, pointer, subscriberType, planned.0, j);
          SubscribeOne(pointer, subscriberType, Step(eventName, entry.value.listener.value, entry.value.priority));
          j := j + 1;
        }
      }
      assert planned.0[..j] == planned.0;
      if j == |list| {
        err := None;
      } else if list[j].None? {
        err := Some(SubscribedEventRequired(eventName, j));
      } else {
        err := Some(SubscribedListenerRequired(eventName, j));
      }
    }

    /** One iteration of the inner loop of `AddSubscriber`: the listener is
        added and its registration recorded under the subscriber. */
    method SubscribeOne(pointer: nat, subscriberType: string, step: Step)
      requires Valid() && step.eventName != []
      modifies this
      ensures Valid() && Contents() == Register(old(Contents()), pointer, subscriberType, step)
    {
      ghost var before := Contents();
      var added := AddListener(step.eventName, Some(step.listener), step.priority);
      subscriberRegistrations := subscriberRegistrations[pointer :=
        RegistrationsOf(subscriberRegistrations, pointer) + [SubscriberRegistration(step.eventName, added.value.listenerId, subscriberType)]];
      assert Contents() == Register(before, pointer, subscriberType, step);
    }

    /** `RemoveSubscriber`: a nil subscriber or pointer 0 panics; otherwise
        the subscriber's registrations are dropped and each of its listeners
        removed by id, and the number removed is returned. */
    method RemoveSubscriber(subscriber: Option<Subscriber>) returns (r: Result<nat, Panic>)
      requires Valid()
      modifies this
      ensures Valid()
      ensures subscriber.None? ==> r == Err(SubscriberRequired) && Contents() == old(Contents())
      ensures subscriber.Some? && subscriber.value.pointer == 0 ==>
        r == Err(SubscriberPointerRequired) && Contents() == old(Contents())
      ensures subscriber.Some? && subscriber.value.pointer != 0 ==>
        var removal := RemoveAll(old(listeners), RegistrationsOf(old(subscriberRegistrations), subscriber.value.pointer));
        r == Ok(removal.1) && listeners == removal.0 && nextListenerId == old(nextListenerId)
        && subscriberRegistrations == old(subscriberRegistrations) - {subscriber.value.pointer}
    {
      if subscriber.None? {
        return Err(SubscriberRequired);
      }
      var pointer := subscriber.value.pointer;
      if pointer == 0 {
        return Err(SubscriberPointerRequired);
      }
      var registrationList := RegistrationsOf(subscriberRegistrations, pointer);
      subscriberRegistrations := subscriberRegistrations - {pointer};
      var removedCount := RemoveRegistrations(registrationList);
      return Ok(removedCount);
    }

    /** The loop of `RemoveSubscriber`: each registration's listener removed
        by id, in order, counting what was removed. */
    method RemoveRegistrations(registrationList: seq<SubscriberRegistration>) returns (removedCount: nat)
      requires Valid()
      modifies this
      ensures Valid()
      ensures (listeners, removedCount) == RemoveAll(old(listeners), registrationList)
      ensures subscriberRegistrations == old(subscriberRegistrations) && nextListenerId == old(nextListenerId)
    {
      removedCount := 0;
      var k := 0;
      while k < |registrationList|
        invariant 0 <= k <= |registrationList| && Valid()
        invariant (listeners, removedCount) == RemoveAll(old(listeners), registrationList[..k])
        invariant subscriberRegistrations == old(subscriberRegistrations) && nextListenerId == old(nextListenerId)
      {
        assert registrationList[..k + 1][..k] == registrationList[..k];
        var removed := RemoveListenerById(registrationList[k].eventName, registrationList[k].listenerId);
        removedCount := removedCount + removed;
        k := k + 1;
      }
      assert registrationList[..k] == registrationList;
    }

    /** `dispatch`: a nil event or an empty name panics; otherwise the
        listeners of the name, as they are when the dispatch starts, run in
        order until one fails or propagation is stopped. */
    method Dispatch(event: Option<Event>, outcome: Entry -> Outcome) returns (r: Result<Run, Panic>)
      ensures event.None? ==> r == Err(EventRequired)
      ensures event.Some? && event.value.name == [] ==> r == Err(EmptyEventName)
      ensures event.Some? && event.value.name != [] ==>
        r == Ok(RunListeners(ListenersOf(listeners, event.value.name), event.value.propagationStopped, outcome))
    {
      if event.None? {
        return Err(EventRequired);
      }
      var eventName := event.value.name;
      if eventName == [] {
        return Err(EmptyEventName);
      }
      var snapshot := ListenersOf(listeners, eventName);
      var run := RunSnapshot(snapshot, event.value.propagationStopped, outcome);
      return Ok(run);
    }

    /** `RegisteredEvents`: the events in increasing name order, each with
        its listeners in dispatch order as they are reported. */
    method RegisteredEvents() returns (r: seq<RegisteredEvent>)
      ensures var names := SortedElements(listeners.Keys);
        |r| == |names|
        && forall k | 0 <= k < |r| :: r[k].eventName == names[k] && |r[k].listeners| == |listeners[names[k]]|
      ensures var names := SortedElements(listeners.Keys);
        forall k, j | 0 <= k < |r| && 0 <= j < |r[k].listeners| ::
          Reports(subscriberRegistrations, names[k], listeners[names[k]][j], r[k].listeners[j])
    {
      var owners := OwnerMap(subscriberRegistrations);
      var names := SortedSetElements(listeners.Keys);
      StrictlySortedUnique(names, SortedElements(listeners.Keys));
      r := [];
      var k := 0;
      while k < |names|
        invariant 0 <= k <= |names| && |r| == k
        invariant forall m | 0 <= m < k :: r[m].eventName == names[m] && |r[m].listeners| == |listeners[names[m]]|
        invariant forall m, j | 0 <= m < k && 0 <= j < |r[m].listeners| ::
          Reports(subscriberRegistrations, names[m], listeners[names[m]][j], r[m].listeners[j])
      {
        var reported := ReportListeners(subscriberRegistrations, names[k], listeners[names[k]], owners);
        r := r + [RegisteredEvent(names[k], reported)];
        k := k + 1;
      }
    }
  }

  /** The loop of `dispatch` over the snapshot of the listeners. */
  method RunSnapshot(snapshot: seq<Entry>, propagationStopped: bool, outcome: Entry -> Outcome) returns (run: Run)
    ensures run == RunListeners(snapshot, propagationStopped, outcome)
  {
    ghost var whole := RunListeners(snapshot, propagationStopped, outcome);
    var called := [];
    var stopped := propagationStopped;
    var i := 0;
    while i < |snapshot|
      invariant 0 <= i <= |snapshot|
      invariant i > 0 ==> !stopped
      invariant var rest := RunListeners(snapshot[i..], stopped, outcome);
        whole == Run(called + rest.called, rest.stopped, rest.failure)
    {
      assert snapshot[i..][0] == snapshot[i] && snapshot[i..][1..] == snapshot[i + 1..];
      var entry := snapshot[i];
      var o := outcome(entry);
      called := called + [entry.listenerId];
      stopped := stopped || o.stopsPropagation;
      if o.result != Returned {
        return Run(called, stopped, Some(FailureOf(entry, o)));
      }
      if stopped {
        assert called + [] == called;
        return Run(called, true, None);
      }
      i := i + 1;
    }
    assert called + [] == called;
    return Run(called, stopped, None);
  }

  /** The filter loop of `removeListenerById`: the entries without the id,
      and how many were dropped. */
  method FilterListeners(list: seq<Entry>, listenerId: nat) returns (filtered: seq<Entry>, removed: nat)
    ensures filtered == Without(list, listenerId) && removed == |list| - |filtered|
  {
    filtered := [];
    removed := 0;
    var i := 0;
    while i < |list|
      invariant 0 <= i <= |list|
      invariant filtered == Without(list[..i], listenerId)
      invariant removed == i - |filtered|
    {
      assert list[..i + 1][..i] == list[..i];
      if list[i].listenerId == listenerId {
        removed := removed + 1;
      } else {
        filtered := filtered + [list[i]];
      }
      i := i + 1;
    }
    assert list[..i] == list;
  }

  /** The registration loop of `RemoveListener` over the subscribers. */
  method UnregisterAll(registrations: map<nat, seq<SubscriberRegistration>>, eventName: string, listenerId: nat)
    returns (r: map<nat, seq<SubscriberRegistration>>)
    ensures r == Unregister(registrations, eventName, listenerId)
  {
    r := map[];
    var remaining := registrations.Keys;
    while remaining != {}
      invariant remaining <= registrations.Keys
      invariant forall p :: p in r <==> p in registrations && p !in remaining && StripRegistration(registrations[p], eventName, listenerId) != []
      invariant forall p | p in r :: r[p] == StripRegistration(registrations[p], eventName, listenerId)
      decreases |remaining|
    {
      var p :| p in remaining;
      var filtered := StripList(registrations[p], eventName, listenerId);
      if filtered != [] {
        r := r[p := filtered];
      }
      remaining := remaining - {p};
    }
  }

  /** The inner filter of `RemoveListener`: one subscriber's list without the
      registration of the event and id. */
  method StripList(list: seq<SubscriberRegistration>, eventName: string, listenerId: nat) returns (filtered: seq<SubscriberRegistration>)
    ensures filtered == StripRegistration(list, eventName, listenerId)
  {
    filtered := [];
    var i := 0;
    while i < |list|
      invariant 0 <= i <= |list|
      invariant filtered == StripRegistration(list[..i], eventName, listenerId)
    {
      assert list[..i + 1][..i] == list[..i];
      if !(list[i].eventName == eventName && list[i].listenerId == listenerId) {
        filtered := filtered + [list[i]];
      }
      i := i + 1;
    }
    assert list[..i] == list;
  }

  /** `NewEventDispatcher`: a nil clock panics. */
  method NewEventDispatcher(clock: Option<nat>) returns (r: Result<Dispatcher, Panic>)
    ensures clock.None? <==> r.Err?
    ensures r.Err? ==> r.error == ClockRequired
    ensures r.Ok? ==> fresh(r.value) && r.value.Valid() && r.value.Contents() == State(map[], map[], 0)
  {
    if clock.None? {
      return Err(ClockRequired);
    }
    var dispatcher := new Dispatcher();
    return Ok(dispatcher);
  }
}
