/** The in-memory cache backend: a map of items with optional expiry, kept in
    least-recently-used order, bounded by `maxItems` and offering overflow-checked
    integer counters. Times and durations are integer nanoseconds. */
module Cache {
  import opened Wrappers
  import opened Strings
  import opened Strconv

  /** A cached payload with the bookkeeping of the Item type. */
  datatype Item = Item(
    payload: string,
    createdAt: int,
    expiresAt: Option<int>,
    lastAccessedAt: int,
    hitCount: nat)

  /** `NewItem`: an item created at `now`, expiring `ttl` later when `ttl` is positive. */
  function NewItem(payload: string, now: int, ttl: int): (item: Item)
    ensures item.expiresAt.Some? <==> ttl > 0
    ensures item.expiresAt.Some? ==> item.expiresAt.value == now + ttl
    ensures item.lastAccessedAt == now && item.hitCount == 0
  {
    Item(payload, now, if 0 < ttl then Some(now + ttl) else None, now, 0)
  }

  /** `Item.Touch`: records an access. */
  function TouchItem(item: Item, now: int): Item {
    item.(lastAccessedAt := now, hitCount := item.hitCount + 1)
  }

  /** `isExpiredAt`: an item expires once the clock reaches its expiry. */
  function IsExpiredAt(item: Item, now: int): (r: bool)
    ensures r <==> item.expiresAt.Some? && item.expiresAt.value <= now
  {
    match item.expiresAt
    case None => false
    case Some(e) => if now > e then true else now == e
  }

  /** The state of the backend: the entries and the LRU list, most recent first. */
  datatype Store = Store(entries: map<string, Item>, lru: seq<string>)

  /** The list holds every key of the map exactly once. */
  ghost predicate Wellformed(s: Store) {
    NoDuplicates(s.lru) && forall k :: k in s.entries <==> k in s.lru
  }

  predicate WithinCapacity(s: Store, maxItems: int) {
    0 < maxItems ==> |s.entries| <= maxItems
  }

  /** A key that is present and not expired. */
  predicate Live(s: Store, key: string, now: int) {
    key in s.entries && !IsExpiredAt(s.entries[key], now)
  }

  // ---------------------------------------------------------------------------
  // The LRU list

  /** The list without the keys of `ks`, in order. */
  function FilterOut(l: seq<string>, ks: seq<string>): (r: seq<string>)
    ensures forall y :: y in r <==> y in l && y !in ks
    ensures |r| <= |l|
  {
    if l == [] then []
    else if l[0] in ks then FilterOut(l[1..], ks)
    else [l[0]] + FilterOut(l[1..], ks)
  }

  lemma {:induction false} FilterOutNoDuplicates(l: seq<string>, ks: seq<string>)
    requires NoDuplicates(l)
    ensures NoDuplicates(FilterOut(l, ks))
  {
    if l != [] {
      FilterOutNoDuplicates(l[1..], ks);
      assert l[0] !in l[1..];
    }
  }

  lemma {:induction false} FilterOutOne(l: seq<string>, k: string)
    requires NoDuplicates(l) && k in l
    ensures |FilterOut(l, [k])| == |l| - 1
  {
    if l[0] == k {
      FilterOutAbsent(l[1..], [k]);
    } else {
      FilterOutOne(l[1..], k);
    }
  }

  lemma {:induction false} FilterOutAbsent(l: seq<string>, ks: seq<string>)
    requires forall y :: y in l ==> y !in ks
    ensures FilterOut(l, ks) == l
  {
    if l != [] {
      FilterOutAbsent(l[1..], ks);
    }
  }

  lemma {:induction false} FilterOutTwice(l: seq<string>, a: seq<string>, b: seq<string>)
    ensures FilterOut(FilterOut(l, a), b) == FilterOut(l, a + b)
  {
    if l != [] {
      FilterOutTwice(l[1..], a, b);
    }
  }

  lemma {:induction false} DistinctCard(l: seq<string>)
    requires NoDuplicates(l)
    ensures |set x | x in l| == |l|
  {
    if l != [] {
      DistinctCard(l[1..]);
      assert (set x | x in l) == (set x | x in l[1..]) + {l[0]};
      assert l[0] !in l[1..];
    }
  }

  /** A well-formed store has as many entries as list elements. */
  lemma WellformedSize(s: Store)
    requires Wellformed(s)
    ensures |s.entries| == |s.lru|
  {
    assert s.entries.Keys == set x | x in s.lru;
    DistinctCard(s.lru);
  }

  // ---------------------------------------------------------------------------
  // The operations, on store values

  /** `deleteLocked`: removes the key from the map and the list. */
  function DeleteKey(s: Store, key: string): (r: Store)
    requires Wellformed(s)
    ensures Wellformed(r)
    ensures r.entries == s.entries - {key}
    ensures key in s.entries ==> |r.lru| == |s.lru| - 1
  {
    if key !in s.entries then
      assert s.entries - {key} == s.entries;
      s
    else
      FilterOutNoDuplicates(s.lru, [key]);
      FilterOutOne(s.lru, key);
      Store(s.entries - {key}, FilterOut(s.lru, [key]))
  }

  /** A cache hit: the item is touched and its key moves to the front of the list. */
  function Touch(s: Store, key: string, now: int): (r: Store)
    requires Wellformed(s) && key in s.entries
    ensures Wellformed(r)
    ensures r.entries.Keys == s.entries.Keys
    ensures r.lru[0] == key
  {
    FilterOutNoDuplicates(s.lru, [key]);
    Store(s.entries[key := TouchItem(s.entries[key], now)], [key] + FilterOut(s.lru, [key]))
  }

  /** The position of the last expired key among the first `n` of the list. */
  function LastExpiredIndex(s: Store, now: int, n: nat): (r: Option<nat>)
    requires Wellformed(s) && n <= |s.lru|
    ensures r.Some? ==> r.value < n && IsExpiredAt(s.entries[s.lru[r.value]], now)
    ensures r.Some? ==> forall j :: r.value < j < n ==> !IsExpiredAt(s.entries[s.lru[j]], now)
    ensures r.None? ==> forall j :: 0 <= j < n ==> !IsExpiredAt(s.entries[s.lru[j]], now)
  {
    if n == 0 then None
    else if IsExpiredAt(s.entries[s.lru[n - 1]], now) then Some(n - 1)
    else LastExpiredIndex(s, now, n - 1)
  }

  /** Position of the entry `evictOneLocked` removes: the expired entry nearest the
      back of the list, else the back (least recently used) entry. */
  function VictimIndex(s: Store, now: int): (r: Option<nat>)
    requires Wellformed(s)
    ensures r.None? <==> s.lru == []
    ensures r.Some? ==> r.value < |s.lru|
    ensures r.Some? ==> forall j :: r.value < j < |s.lru| ==> !IsExpiredAt(s.entries[s.lru[j]], now)
    ensures r.Some? && !IsExpiredAt(s.entries[s.lru[r.value]], now) ==>
      r.value == |s.lru| - 1 && forall j :: 0 <= j < |s.lru| ==> !IsExpiredAt(s.entries[s.lru[j]], now)
  {
    match LastExpiredIndex(s, now, |s.lru|)
    case Some(i) => Some(i)
    case None => if s.lru == [] then None else Some(|s.lru| - 1)
  }

  /** `evictOneLocked`. */
  function Evict(s: Store, now: int): (r: Store)
    requires Wellformed(s)
    ensures Wellformed(r)
    ensures s.lru != [] ==> |r.entries| == |s.entries| - 1
    ensures r.entries.Keys <= s.entries.Keys
    ensures forall k :: k in r.entries ==> r.entries[k] == s.entries[k]
  {
    match VictimIndex(s, now)
    case None => s
    case Some(i) =>
      WellformedSize(s);
      var r := DeleteKey(s, s.lru[i]);
      WellformedSize(r);
      r
  }

  /** `upsertLocked`: stores a fresh item under `key` as the most recent entry,
      first evicting one entry when a new key would overflow `maxItems`. */
  function Upsert(s: Store, maxItems: int, key: string, payload: string, now: int, ttl: int): (r: Store)
    requires Wellformed(s)
    ensures key in r.entries && r.entries[key] == NewItem(payload, now, ttl)
    ensures r.lru != [] && r.lru[0] == key
    ensures Wellformed(r)
  {
    var present := key in s.entries;
    var s1 := if 0 < maxItems && |s.entries| >= maxItems && !present then Evict(s, now) else s;
    var item := NewItem(payload, now, ttl);
    if present then
      UpsertPresent(s1, key, item);
      Store(s1.entries[key := item], [key] + FilterOut(s1.lru, [key]))
    else
      UpsertAbsent(s1, key, item);
      Store(s1.entries[key := item], [key] + s1.lru)
  }

  /** An upsert keeps the store well formed and within capacity, and keeps every
      other entry unless it was the one evicted; it evicts nothing when the key
      is already present or there is room. */
  lemma UpsertProperties(s: Store, maxItems: int, key: string, payload: string, now: int, ttl: int)
    requires Wellformed(s) && WithinCapacity(s, maxItems)
    ensures var r := Upsert(s, maxItems, key, payload, now, ttl);
      Wellformed(r) && WithinCapacity(r, maxItems)
      && (forall k :: k in r.entries && k != key ==> k in s.entries && r.entries[k] == s.entries[k])
      && (key in s.entries || |s.entries| < maxItems || maxItems <= 0 ==>
            forall k :: k in s.entries ==> k in r.entries)
  {
    UpsertKeepsOthers(s, maxItems, key, payload, now, ttl);
    WellformedSize(s);
    if key in s.entries {
      UpsertPresent(s, key, NewItem(payload, now, ttl));
    } else if 0 < maxItems && |s.entries| >= maxItems {
      var s1 := Evict(s, now);
      UpsertAbsent(s1, key, NewItem(payload, now, ttl));
    } else {
      UpsertAbsent(s, key, NewItem(payload, now, ttl));
    }
  }

  lemma UpsertKeepsOthers(s: Store, maxItems: int, key: string, payload: string, now: int, ttl: int)
    requires Wellformed(s)
    ensures forall k :: k in Upsert(s, maxItems, key, payload, now, ttl).entries && k != key ==>
      k in s.entries && Upsert(s, maxItems, key, payload, now, ttl).entries[k] == s.entries[k]
  {
    var s1 := if 0 < maxItems && |s.entries| >= maxItems && key !in s.entries then Evict(s, now) else s;
    assert Upsert(s, maxItems, key, payload, now, ttl).entries == s1.entries[key := NewItem(payload, now, ttl)];
    assert forall k :: k in s1.entries ==> k in s.entries && s1.entries[k] == s.entries[k];
  }

  lemma UpsertPresent(s: Store, key: string, item: Item)
    requires Wellformed(s) && key in s.entries
    ensures var r := Store(s.entries[key := item], [key] + FilterOut(s.lru, [key]));
      Wellformed(r) && |r.entries| == |s.entries|
  {
    FilterOutNoDuplicates(s.lru, [key]);
    assert s.entries[key := item].Keys == s.entries.Keys;
  }

  lemma UpsertAbsent(s: Store, key: string, item: Item)
    requires Wellformed(s) && key !in s.entries
    ensures var r := Store(s.entries[key := item], [key] + s.lru);
      Wellformed(r) && |r.entries| == |s.entries| + 1
  {
  }

  /** `Has` and the read half of `Get`. */
  function Lookup(s: Store, key: string, now: int): (r: Option<string>)
    ensures r.Some? <==> Live(s, key, now)
    ensures r.Some? ==> r.value == s.entries[key].payload
  {
    if key !in s.entries then None
    else if IsExpiredAt(s.entries[key], now) then None
    else Some(s.entries[key].payload)
  }

  /** The store after a successful `Get`. */
  function GetState(s: Store, key: string, now: int): (r: Store)
    requires Wellformed(s)
    ensures Wellformed(r) && r.entries.Keys == s.entries.Keys
    ensures forall k :: k in s.entries ==>
      r.entries[k].payload == s.entries[k].payload && r.entries[k].expiresAt == s.entries[k].expiresAt
    ensures Live(s, key, now) ==> r.lru[0] == key
    ensures !Live(s, key, now) ==> r == s
  {
    if Live(s, key, now) then Touch(s, key, now) else s
  }

  /** The keys of `keys` that are live, in order. */
  function LiveKeys(s: Store, keys: seq<string>, now: int): (r: seq<string>)
    ensures forall k :: k in r <==> k in keys && Live(s, k, now)
  {
    if keys == [] then []
    else
      var rest := LiveKeys(s, keys[..|keys| - 1], now);
      assert keys == keys[..|keys| - 1] + [keys[|keys| - 1]];
      if Live(s, keys[|keys| - 1], now) then rest + [keys[|keys| - 1]] else rest
  }

  /** Every key of the list has an entry. */
  predicate AllPresent(keys: seq<string>, entries: map<string, Item>) {
    forall i | 0 <= i < |keys| :: keys[i] in entries
  }

  lemma LiveKeysPresent(s: Store, keys: seq<string>, now: int)
    ensures AllPresent(LiveKeys(s, keys, now), s.entries)
  {
    var r := LiveKeys(s, keys, now);
    forall i | 0 <= i < |r| ensures r[i] in s.entries {
      assert r[i] in r;
    }
  }

  /** Touching the given keys one after another, as the write half of `Many` does. */
  function TouchAll(s: Store, keys: seq<string>, now: int): (r: Store)
    requires Wellformed(s) && AllPresent(keys, s.entries)
    ensures Wellformed(r)
    ensures r.entries.Keys == s.entries.Keys
    ensures forall k :: k in s.entries ==>
      (r.entries[k].payload == s.entries[k].payload && r.entries[k].expiresAt == s.entries[k].expiresAt)
  {
    if keys == [] then s
    else
      PrefixPresent(keys, |keys| - 1, s.entries);
      var t := TouchAll(s, keys[..|keys| - 1], now);
      Touch(t, keys[|keys| - 1], now)
  }

  lemma PrefixPresent(keys: seq<string>, n: nat, entries: map<string, Item>)
    requires AllPresent(keys, entries) && n <= |keys|
    ensures AllPresent(keys[..n], entries)
  {
    assert forall i | 0 <= i < n :: keys[..n][i] == keys[i];
  }

  /** Touching the first `j + 1` keys is touching the first `j`, then key `j`. */
  lemma TouchAllSnoc(s: Store, keys: seq<string>, j: nat, now: int)
    requires Wellformed(s) && AllPresent(keys, s.entries) && j < |keys|
    ensures AllPresent(keys[..j], s.entries) && AllPresent(keys[..j + 1], s.entries)
    ensures keys[j] in TouchAll(s, keys[..j], now).entries
    ensures TouchAll(s, keys[..j + 1], now) == Touch(TouchAll(s, keys[..j], now), keys[j], now)
  {
    PrefixPresent(keys, j, s.entries);
    PrefixPresent(keys, j + 1, s.entries);
    assert keys[..j + 1][..j] == keys[..j];
  }

  /** The payloads `Many` returns. */
  function ManyResult(s: Store, keys: seq<string>, now: int): (r: map<string, string>)
    ensures forall k :: k in r <==> k in keys && Live(s, k, now)
    ensures forall k :: k in r ==> k in s.entries && r[k] == s.entries[k].payload
  {
    if keys == [] then map[]
    else
      var rest := ManyResult(s, keys[..|keys| - 1], now);
      var key := keys[|keys| - 1];
      assert keys == keys[..|keys| - 1] + [key];
      if Live(s, key, now) then rest[key := s.entries[key].payload] else rest
  }

  /** `DeleteMultiple`: the keys deleted one after another. */
  function DeleteAll(s: Store, keys: seq<string>): (r: Store)
    requires Wellformed(s)
    ensures Wellformed(r)
    ensures forall k :: k in r.entries <==> k in s.entries && k !in keys
    ensures forall k :: k in r.entries ==> r.entries[k] == s.entries[k]
    ensures r.lru == FilterOut(s.lru, keys)
  {
    if keys == [] then
      FilterOutAbsent(s.lru, []);
      s
    else
      var t := DeleteAll(s, keys[..|keys| - 1]);
      var key := keys[|keys| - 1];
      assert keys == keys[..|keys| - 1] + [key];
      var r := DeleteKey(t, key);
      if key in t.entries then
        FilterOutTwice(s.lru, keys[..|keys| - 1], [key]);
        r
      else
        FilterOutAbsent(t.lru, [key]);
        FilterOutTwice(s.lru, keys[..|keys| - 1], [key]);
        r
  }

  /** `SetMultiple`: the items upserted in the order given. */
  function UpsertAll(s: Store, maxItems: int, items: seq<(string, string)>, now: int, ttl: int): (r: Store)
    requires Wellformed(s) && WithinCapacity(s, maxItems)
    ensures Wellformed(r) && WithinCapacity(r, maxItems)
  {
    if items == [] then s
    else
      var t := UpsertAll(s, maxItems, items[..|items| - 1], now, ttl);
      var (key, payload) := items[|items| - 1];
      UpsertProperties(t, maxItems, key, payload, now, ttl);
      Upsert(t, maxItems, key, payload, now, ttl)
  }

  lemma UpsertAllSnoc(s: Store, maxItems: int, items: seq<(string, string)>, i: nat, now: int, ttl: int)
    requires Wellformed(s) && WithinCapacity(s, maxItems) && i < |items|
    ensures UpsertAll(s, maxItems, items[..i + 1], now, ttl)
      == Upsert(UpsertAll(s, maxItems, items[..i], now, ttl), maxItems, items[i].0, items[i].1, now, ttl)
  {
    assert items[..i + 1][..i] == items[..i];
  }

  lemma DeleteAllSnoc(s: Store, keys: seq<string>, i: nat)
    requires Wellformed(s) && i < |keys|
    ensures DeleteAll(s, keys[..i + 1]) == DeleteKey(DeleteAll(s, keys[..i]), keys[i])
  {
    assert keys[..i + 1][..i] == keys[..i];
  }

  // ---------------------------------------------------------------------------
  // Counters

  datatype ArithError = Overflow | Underflow

  datatype CacheError =
    | NotAnInteger(value: string)
    | IncrementOverflow(cause: ArithError)
    | DeltaOverflow

  /** `addInt64WithOverflowCheck`. */
  function AddInt64Checked(left: int, right: int): (r: Result<int, ArithError>)
    requires InInt64(left) && InInt64(right)
    ensures r.Ok? <==> InInt64(left + right)
    ensures r.Ok? ==> r.value == left + right
    ensures r == Err(Overflow) <==> left + right > MaxInt64
    ensures r == Err(Underflow) <==> left + right < MinInt64
  {
    if 0 < right && left > MaxInt64 - right then Err(Overflow)
    else if 0 > right && left < MinInt64 - right then Err(Underflow)
    else Ok(left + right)
  }

  /** The counter value `incrementWithTtl` reads: zero for a missing, expired or
      blank entry, else the trimmed payload parsed as a 64-bit integer. */
  function CurrentValue(s: Store, key: string, now: int): (r: Result<int, CacheError>)
    ensures r.Ok? ==> InInt64(r.value)
    ensures !Live(s, key, now) ==> r == Ok(0)
    ensures Live(s, key, now) && TrimSpace(s.entries[key].payload) == [] ==> r == Ok(0)
    ensures Live(s, key, now) && TrimSpace(s.entries[key].payload) != [] ==>
      r == match ParseInt64(TrimSpace(s.entries[key].payload))
        case Ok(v) => Ok(v)
        case Err(_) => Err(NotAnInteger(TrimSpace(s.entries[key].payload)))
  {
    if !Live(s, key, now) then Ok(0)
    else
      var trimmed := TrimSpace(s.entries[key].payload);
      if trimmed == [] then Ok(0)
      else match ParseInt64(trimmed)
        case Ok(v) => Ok(v)
        case Err(_) => Err(NotAnInteger(trimmed))
  }

  /** `incrementWithTtl`: the result and the new store. An expired entry is dropped
      even when the increment then fails. */
  function Incremented(s: Store, maxItems: int, key: string, delta: int, now: int, ttl: int): (r: (Result<int, CacheError>, Store))
    requires Wellformed(s) && InInt64(delta)
    ensures Wellformed(r.1)
    ensures r.0.Ok? <==> CurrentValue(s, key, now).Ok? && InInt64(CurrentValue(s, key, now).value + delta)
    ensures r.0.Ok? ==> r.0.value == CurrentValue(s, key, now).value + delta
    ensures r.0.Ok? ==> key in r.1.entries && r.1.entries[key] == NewItem(FormatInt(r.0.value), now, ttl)
    ensures r.0.Err? ==> r.1.entries == if Live(s, key, now) then s.entries else s.entries - {key}
  {
    var s1 := if key in s.entries && IsExpiredAt(s.entries[key], now) then DeleteKey(s, key) else s;
    match CurrentValue(s, key, now)
    case Err(e) => (Err(e), s1)
    case Ok(current) =>
      match AddInt64Checked(current, delta)
      case Err(e) => (Err(IncrementOverflow(e)), s1)
      case Ok(v) => (Ok(v), Upsert(s1, maxItems, key, FormatInt(v), now, ttl))
  }

  /** `Decrement`: negating the smallest 64-bit delta is refused up front. */
  function Decremented(s: Store, maxItems: int, key: string, delta: int, now: int): (Result<int, CacheError>, Store)
    requires Wellformed(s) && InInt64(delta)
  {
    if delta == MinInt64 then (Err(DeltaOverflow), s) else Incremented(s, maxItems, key, -delta, now, 0)
  }

  /** A missing or expired counter starts from zero. */
  lemma IncrementFromNothing(s: Store, maxItems: int, key: string, delta: int, now: int, ttl: int)
    requires Wellformed(s) && InInt64(delta) && !Live(s, key, now)
    ensures Incremented(s, maxItems, key, delta, now, ttl).0 == Ok(delta)
  {
  }

  /** A live counter whose payload is blank also starts from zero. */
  lemma IncrementOfBlank(s: Store, maxItems: int, key: string, delta: int, now: int, ttl: int)
    requires Wellformed(s) && InInt64(delta) && Live(s, key, now)
    requires TrimSpace(s.entries[key].payload) == []
    ensures Incremented(s, maxItems, key, delta, now, ttl).0 == Ok(delta)
    ensures Incremented(s, maxItems, key, delta, now, ttl).1.entries[key].payload == FormatInt(delta)
  {
    assert CurrentValue(s, key, now) == Ok(0);
  }

  /** A payload that is not a blank or a decimal 64-bit integer makes the increment
      fail and leaves the store as it was. */
  lemma IncrementRejectsNonInteger(s: Store, maxItems: int, key: string, delta: int, now: int, ttl: int)
    requires Wellformed(s) && InInt64(delta) && Live(s, key, now)
    requires TrimSpace(s.entries[key].payload) != []
    requires ParseInt64(TrimSpace(s.entries[key].payload)).Err?
    ensures Incremented(s, maxItems, key, delta, now, ttl) == (Err(NotAnInteger(TrimSpace(s.entries[key].payload))), s)
  {
  }

  /** Increments accumulate: the stored counter is read back by the next increment. */
  lemma IncrementTwice(s: Store, maxItems: int, key: string, a: int, b: int, now: int, later: int)
    requires Wellformed(s) && InInt64(a) && InInt64(b)
    requires Incremented(s, maxItems, key, a, now, 0).0.Ok?
    ensures var (r1, s1) := Incremented(s, maxItems, key, a, now, 0);
      Incremented(s1, maxItems, key, b, later, 0).0 == match AddInt64Checked(r1.value, b)
        case Ok(v) => Ok(v)
        case Err(e) => Err(IncrementOverflow(e))
  {
    var s0 := if key in s.entries && IsExpiredAt(s.entries[key], now) then DeleteKey(s, key) else s;
    var current := CurrentValue(s, key, now);
    assert current.Ok?;
    var sum := AddInt64Checked(current.value, a);
    assert sum.Ok?;
    var v := sum.value;
    var s1 := Upsert(s0, maxItems, key, FormatInt(v), now, 0);
    assert Incremented(s, maxItems, key, a, now, 0) == (Ok(v), s1);
    assert s1.entries[key] == NewItem(FormatInt(v), now, 0);
    assert Live(s1, key, later);
    FormatIntTrimmed(v);
    TrimSpaceOfTrimmed(FormatInt(v));
    ParseFormatInt(v);
    assert CurrentValue(s1, key, later) == Ok(v);
  }

  lemma FormatIntTrimmed(n: int)
    ensures Trimmed(FormatInt(n))
  {
    var r := FormatInt(n);
    if n < 0 {
      assert r[0] == '-';
      assert r[|r| - 1] == r[1..][|r| - 2];
    }
  }

  // ---------------------------------------------------------------------------
  // The backend object

  class InMemoryBackend {
    var entries: map<string, Item>
    var lru: seq<string>
    const maxItems: int

    function Contents(): Store
      reads this
    {
      Store(entries, lru)
    }

    ghost predicate Valid()
      reads this
    {
      Wellformed(Contents()) && WithinCapacity(Contents(), maxItems)
    }

    constructor (maxItems: int)
      ensures Valid()
      ensures Contents() == Store(map[], [])
      ensures this.maxItems == maxItems
    {
      this.maxItems := maxItems;
      entries := map[];
      lru := [];
    }

    /** `Has`. */
    function Has(key: string, now: int): (r: bool)
      reads this
      ensures r <==> Live(Contents(), key, now)
    {
      key in entries && !IsExpiredAt(entries[key], now)
    }

    /** `Get`: a hit returns the payload and makes the key the most recent one; a
        missing or expired key is a miss that changes nothing. */
    method Get(key: string, now: int) returns (payload: string, found: bool)
      requires Valid()
      modifies this
      ensures Valid()
      ensures found <==> Live(old(Contents()), key, now)
      ensures found ==> payload == old(entries)[key].payload
      ensures Contents() == GetState(old(Contents()), key, now)
    {
      if key !in entries || IsExpiredAt(entries[key], now) {
        return [], false;
      }
      payload := entries[key].payload;
      TouchLocked(key, now);
      found := true;
    }

    method TouchLocked(key: string, now: int)
      requires Valid() && key in entries
      modifies this
      ensures Valid()
      ensures Contents() == Touch(old(Contents()), key, now)
    {
      FilterOutNoDuplicates(lru, [key]);
      entries := entries[key := TouchItem(entries[key], now)];
      lru := [key] + FilterOut(lru, [key]);
    }

    /** `Set`. */
    method Set(key: string, payload: string, ttl: int, now: int)
      requires Valid()
      modifies this
      ensures Valid()
      ensures Contents() == Upsert(old(Contents()), maxItems, key, payload, now, ttl)
    {
      UpsertLocked(key, payload, now, ttl);
    }

    /** `Delete`. */
    method Delete(key: string)
      requires Valid()
      modifies this
      ensures Valid()
      ensures Contents() == DeleteKey(old(Contents()), key)
    {
      DeleteLocked(key);
    }

    /** `Clear`. */
    method Clear()
      modifies this
      ensures Valid()
      ensures entries == map[] && lru == []
    {
      entries := map[];
      lru := [];
    }

    /** `Many`: the live payloads among `keys`; every hit is touched in order. */
    method Many(keys: seq<string>, now: int) returns (result: map<string, string>)
      requires Valid()
      modifies this
      ensures Valid()
      ensures result == ManyResult(old(Contents()), keys, now)
      ensures Contents() == TouchAll(old(Contents()), LiveKeys(old(Contents()), keys, now), now)
    {
      var hits;
      result, hits := CollectHits(keys, now);
      LiveKeysPresent(Contents(), keys, now);
      if |hits| == 0 {
        return;
      }
      TouchHits(hits, now);
    }

    /** The read-locked half of `Many`. */
    method CollectHits(keys: seq<string>, now: int) returns (result: map<string, string>, hits: seq<string>)
      ensures result == ManyResult(Contents(), keys, now)
      ensures hits == LiveKeys(Contents(), keys, now)
    {
      result := map[];
      hits := [];
      var i := 0;
      while i < |keys|
        invariant 0 <= i <= |keys|
        invariant result == ManyResult(Contents(), keys[..i], now)
        invariant hits == LiveKeys(Contents(), keys[..i], now)
      {
        var key := keys[i];
        assert keys[..i + 1][..i] == keys[..i];
        if key in entries && !IsExpiredAt(entries[key], now) {
          result := result[key := entries[key].payload];
          hits := hits + [key];
        }
        i := i + 1;
      }
      assert keys[..|keys|] == keys;
    }

    /** The write-locked half of `Many`. */
    method TouchHits(hits: seq<string>, now: int)
      requires Valid() && AllPresent(hits, entries)
      modifies this
      ensures Valid()
      ensures Contents() == TouchAll(old(Contents()), hits, now)
    {
      ghost var start := Contents();
      PrefixPresent(hits, 0, entries);
      var j := 0;
      while j < |hits|
        invariant 0 <= j <= |hits|
        invariant Valid() && entries.Keys == start.entries.Keys
        invariant AllPresent(hits[..j], start.entries)
        invariant Contents() == TouchAll(start, hits[..j], now)
      {
        TouchAllSnoc(start, hits, j, now);
        TouchLocked(hits[j], now);
        j := j + 1;
      }
      assert hits[..|hits|] == hits;
    }

    /** `SetMultiple`, with the map's iteration order made explicit. */
    method SetMultiple(items: seq<(string, string)>, ttl: int, now: int)
      requires Valid()
      modifies this
      ensures Valid()
      ensures Contents() == UpsertAll(old(Contents()), maxItems, items, now, ttl)
    {
      ghost var start := Contents();
      var i := 0;
      while i < |items|
        invariant 0 <= i <= |items|
        invariant Valid()
        invariant Contents() == UpsertAll(start, maxItems, items[..i], now, ttl)
      {
        UpsertAllSnoc(start, maxItems, items, i, now, ttl);
        UpsertLocked(items[i].0, items[i].1, now, ttl);
        i := i + 1;
      }
      assert items[..|items|] == items;
    }

    /** `DeleteMultiple`. */
    method DeleteMultiple(keys: seq<string>)
      requires Valid()
      modifies this
      ensures Valid()
      ensures Contents() == DeleteAll(old(Contents()), keys)
    {
      ghost var start := Contents();
      var i := 0;
      while i < |keys|
        invariant 0 <= i <= |keys|
        invariant Valid()
        invariant Contents() == DeleteAll(start, keys[..i])
      {
        DeleteAllSnoc(start, keys, i);
        DeleteLocked(keys[i]);
        i := i + 1;
      }
      assert keys[..|keys|] == keys;
    }

    /** `Increment`. */
    method Increment(key: string, delta: int, now: int) returns (r: Result<int, CacheError>)
      requires Valid() && InInt64(delta)
      modifies this
      ensures Valid()
      ensures (r, Contents()) == Incremented(old(Contents()), maxItems, key, delta, now, 0)
    {
      r := IncrementWithTtl(key, delta, now, 0);
    }

    /** `Decrement`. */
    method Decrement(key: string, delta: int, now: int) returns (r: Result<int, CacheError>)
      requires Valid() && InInt64(delta)
      modifies this
      ensures Valid()
      ensures (r, Contents()) == Decremented(old(Contents()), maxItems, key, delta, now)
    {
      if delta == MinInt64 {
        return Err(DeltaOverflow);
      }
      r := IncrementWithTtl(key, -delta, now, 0);
    }

    method IncrementWithTtl(key: string, delta: int, now: int, ttl: int) returns (r: Result<int, CacheError>)
      requires Valid() && InInt64(delta)
      modifies this
      ensures Valid()
      ensures (r, Contents()) == Incremented(old(Contents()), maxItems, key, delta, now, ttl)
    {
      var present := GetEntryLocked(key, now);
      var current := 0;
      if present {
        var trimmed := TrimSpace(entries[key].payload);
        if trimmed != [] {
          var parsed := ParseInt64(trimmed);
          if parsed.Err? {
            return Err(NotAnInteger(trimmed));
          }
          current := parsed.value;
        }
      }
      var sum := AddInt64Checked(current, delta);
      if sum.Err? {
        return Err(IncrementOverflow(sum.error));
      }
      UpsertLocked(key, FormatInt(sum.value), now, ttl);
      r := Ok(sum.value);
    }

    /** `getEntryLocked`: drops an expired entry and reports whether a live one exists. */
    method GetEntryLocked(key: string, now: int) returns (present: bool)
      requires Valid()
      modifies this
      ensures Valid()
      ensures present <==> Live(old(Contents()), key, now)
      ensures present ==> Contents() == old(Contents())
      ensures Contents() == if key in old(entries) && IsExpiredAt(old(entries)[key], now)
        then DeleteKey(old(Contents()), key) else old(Contents())
    {
      if key !in entries {
        return false;
      }
      if IsExpiredAt(entries[key], now) {
        DeleteLocked(key);
        return false;
      }
      return true;
    }

    /** `deleteLocked`. */
    method DeleteLocked(key: string)
      requires Valid()
      modifies this
      ensures Valid()
      ensures Contents() == DeleteKey(old(Contents()), key)
    {
      if key !in entries {
        return;
      }
      WellformedSize(Contents());
      FilterOutNoDuplicates(lru, [key]);
      FilterOutOne(lru, key);
      lru := FilterOut(lru, [key]);
      entries := entries - {key};
    }

    /** `upsertLocked`. */
    method UpsertLocked(key: string, payload: string, now: int, ttl: int)
      requires Valid()
      modifies this
      ensures Valid()
      ensures Contents() == Upsert(old(Contents()), maxItems, key, payload, now, ttl)
    {
      UpsertProperties(Contents(), maxItems, key, payload, now, ttl);
      var present := key in entries;
      if 0 < maxItems && |entries| >= maxItems && !present {
        EvictOneLocked(now);
      }
      var item := NewItem(payload, now, ttl);
      if present {
        entries := entries[key := item];
        lru := [key] + FilterOut(lru, [key]);
        return;
      }
      lru := [key] + lru;
      entries := entries[key := item];
    }

    /** `evictOneLocked`: scans the list from its back for an expired entry and
        removes the first one found, else removes the back entry. */
    method EvictOneLocked(now: int)
      requires Wellformed(Contents())
      modifies this
      ensures Wellformed(Contents())
      ensures Contents() == Evict(old(Contents()), now)
    {
      ghost var start := Contents();
      var i := |lru|;
      while i > 0
        invariant 0 <= i <= |lru|
        invariant Contents() == start
        invariant LastExpiredIndex(start, now, |lru|) == LastExpiredIndex(start, now, i)
      {
        i := i - 1;
        var key := lru[i];
        if IsExpiredAt(entries[key], now) {
          assert VictimIndex(start, now) == Some(i);
          EvictDelete(key);
          return;
        }
      }
      if |lru| > 0 {
        assert VictimIndex(start, now) == Some(|lru| - 1);
        EvictDelete(lru[|lru| - 1]);
      }
    }

    method EvictDelete(key: string)
      requires Wellformed(Contents()) && key in entries
      modifies this
      ensures Contents() == DeleteKey(old(Contents()), key)
    {
      FilterOutNoDuplicates(lru, [key]);
      FilterOutOne(lru, key);
      lru := FilterOut(lru, [key]);
      entries := entries - {key};
    }
  }

  /** The least-recently-used scenario: with room for two items, after setting
      a and b and reading a, setting c evicts b and keeps a and c. */
  lemma LruEvictionScenario(now: int)
    ensures var s0 := Store(map[], []);
      var s1 := Upsert(s0, 2, "a", "a", now, 0);
      var s2 := Upsert(s1, 2, "b", "b", now, 0);
      var s3 := GetState(s2, "a", now);
      var s4 := Upsert(s3, 2, "c", "c", now, 0);
      "b" !in s4.entries && "a" in s4.entries && "c" in s4.entries
  {
    var s0 := Store(map[], []);
    var s1 := Upsert(s0, 2, "a", "a", now, 0);
    assert s1.lru == ["a"];
    var s2 := Upsert(s1, 2, "b", "b", now, 0);
    assert s2.lru == ["b", "a"];
    assert s2.entries.Keys == {"a", "b"};
    var s3 := GetState(s2, "a", now);
    assert FilterOut(["b", "a"], ["a"]) == ["b"];
    assert s3.lru == ["a", "b"];
    assert |s3.entries| == 2;
    assert VictimIndex(s3, now) == Some(1);
    var s4 := Upsert(s3, 2, "c", "c", now, 0);
  }
}
