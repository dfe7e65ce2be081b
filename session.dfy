/** A session of `v2/session/session.go`: a map of values with two flags that
    tell the manager what to do on save. `modified` is set by every write that
    changes something, `cleared` by `Clear` and reset by `Set`. The flags are
    specified by a pure state and the operations on it; the class's methods are
    proved to perform them. */
module Session {

  /** A stored value, by the one dynamic type `String` tells apart. */
  datatype SessionValue = NilValue | StringValue(s: string) | OtherValue(tag: int)

  /** The state a session's methods read and write. */
  datatype SessionState = SessionState(values: map<string, SessionValue>, modified: bool, cleared: bool)

  /** A freshly loaded or created session. */
  function Fresh(values: map<string, SessionValue>): SessionState {
    SessionState(values, false, false)
  }

  /** `Set`: the key reads back the value, no other key changes, the session
      is modified and no longer cleared. */
  function SetValue(st: SessionState, key: string, value: SessionValue): (r: SessionState)
    ensures GetValue(r, key) == value
    ensures forall k :: k != key ==> GetValue(r, k) == GetValue(st, k)
    ensures r.values.Keys == st.values.Keys + {key}
    ensures r.modified && !r.cleared
  {
    SessionState(st.values[key := value], true, false)
  }

  /** `Delete`: the key reads nil and no other key changes; only a key that was
      present marks the session modified, and `cleared` is left alone. */
  function DeleteValue(st: SessionState, key: string): (r: SessionState)
    ensures GetValue(r, key) == NilValue && key !in r.values
    ensures forall k :: k != key ==> GetValue(r, k) == GetValue(st, k)
    ensures r.values.Keys == st.values.Keys - {key}
    ensures r.modified == (st.modified || key in st.values)
    ensures r.cleared == st.cleared
  {
    if key in st.values then SessionState(st.values - {key}, true, st.cleared) else st
  }

  /** `Clear`: every key reads nil and both flags are set. */
  function ClearValues(st: SessionState): (r: SessionState)
    ensures forall k :: GetValue(r, k) == NilValue
    ensures r.values == map[] && r.modified && r.cleared
  {
    SessionState(map[], true, true)
  }

  /** `Get`: nil for a missing key. */
  function GetValue(st: SessionState, key: string): SessionValue {
    if key in st.values then st.values[key] else NilValue
  }

  /** `String`: the value when it is a string, else "". */
  function StringValueOf(st: SessionState, key: string): (r: string)
    ensures key !in st.values ==> r == ""
    ensures key in st.values && st.values[key].StringValue? ==> r == st.values[key].s
    ensures key in st.values && !st.values[key].StringValue? ==> r == ""
  {
    match GetValue(st, key)
    case StringValue(s) => s
    case _ => ""
  }

  /** The operations a caller can apply to a session. */
  datatype Op = SetOp(key: string, value: SessionValue) | DeleteOp(key: string) | ClearOp

  function Apply(st: SessionState, op: Op): SessionState {
    match op
    case SetOp(key, value) => SetValue(st, key, value)
    case DeleteOp(key) => DeleteValue(st, key)
    case ClearOp => ClearValues(st)
  }

  function ApplyAll(st: SessionState, ops: seq<Op>): SessionState
    decreases |ops|
  {
    if ops == [] then st else Apply(ApplyAll(st, ops[..|ops| - 1]), ops[|ops| - 1])
  }

  /** What the flags promise: a cleared session is modified and empty. */
  predicate FlagsConsistent(st: SessionState) {
    st.cleared ==> st.modified && st.values == map[]
  }

  /** Every operation keeps the flags consistent. */
  lemma ApplyConsistent(st: SessionState, op: Op)
    requires FlagsConsistent(st)
    ensures FlagsConsistent(Apply(st, op))
  {
    if op.DeleteOp? && st.cleared {
      assert op.key !in st.values;
    }
  }

  /** From a fresh session, any sequence of operations keeps the flags
      consistent, and `modified` never turns back to false. */
  lemma {:induction false} ApplyAllConsistent(values: map<string, SessionValue>, ops: seq<Op>)
    ensures FlagsConsistent(ApplyAll(Fresh(values), ops))
    ensures forall n :: 0 <= n <= |ops| && ApplyAll(Fresh(values), ops[..n]).modified ==> ApplyAll(Fresh(values), ops).modified
    decreases |ops|
  {
    if ops != [] {
      var init := ops[..|ops| - 1];
      ApplyAllConsistent(values, init);
      ApplyConsistent(ApplyAll(Fresh(values), init), ops[|ops| - 1]);
      forall n | 0 <= n <= |ops| && ApplyAll(Fresh(values), ops[..n]).modified
        ensures ApplyAll(Fresh(values), ops).modified
      {
        if n < |ops| {
          assert init[..n] == ops[..n];
        } else {
          assert ops[..n] == ops;
        }
      }
    }
  }

  /** Deleting a key that is not there leaves the session, its flags included, as it was. */
  lemma DeleteMissingChangesNothing(st: SessionState, key: string)
    requires key !in st.values
    ensures DeleteValue(st, key) == st
  {
  }

  /** Writing then reading gives the value back; deleting hides it. */
  lemma SetThenGet(st: SessionState, key: string, other: string, value: SessionValue)
    ensures GetValue(SetValue(st, key, value), key) == value
    ensures other != key ==> GetValue(SetValue(st, key, value), other) == GetValue(st, other)
    ensures GetValue(DeleteValue(st, key), key) == NilValue
    ensures other != key ==> GetValue(DeleteValue(st, key), other) == GetValue(st, other)
  {
  }

  /** `Set` after `Clear` leaves a modified session that is no longer cleared. */
  lemma ClearThenSet(st: SessionState, key: string, value: SessionValue)
    ensures var after := SetValue(ClearValues(st), key, value);
      after.modified && !after.cleared && after.values == map[key := value]
  {
  }

  class Session {
    const id: string
    var values: map<string, SessionValue>
    var modified: bool
    var cleared: bool

    /** The state the methods act on. */
    function State(): SessionState
      reads this
    {
      SessionState(values, modified, cleared)
    }

    constructor(id: string, values: map<string, SessionValue>)
      ensures this.id == id && State() == Fresh(values)
    {
      this.id := id;
      this.values := values;
      modified := false;
      cleared := false;
    }

    function Id(): string
      reads this
    {
      id
    }

    function Get(key: string): (r: SessionValue)
      reads this
      ensures r == GetValue(State(), key)
    {
      if key in values then values[key] else NilValue
    }

    function String(key: string): (r: string)
      reads this
      ensures r == StringValueOf(State(), key)
    {
      var value := Get(key);
      if value.StringValue? then value.s else ""
    }

    method Set(key: string, value: SessionValue)
      modifies this
      ensures State() == SetValue(old(State()), key, value)
    {
      values := values[key := value];
      modified := true;
      cleared := false;
    }

    function Has(key: string): bool
      reads this
    {
      key in values
    }

    method Delete(key: string)
      modifies this
      ensures State() == DeleteValue(old(State()), key)
    {
      if key in values {
        values := values - {key};
        modified := true;
      }
    }

    method Clear()
      modifies this
      ensures State() == ClearValues(old(State()))
    {
      values := map[];
      modified := true;
      cleared := true;
    }

    /** `All`: a copy of the values. */
    function All(): map<string, SessionValue>
      reads this
    {
      values
    }

    function IsModified(): bool
      reads this
    {
      modified
    }

    function IsCleared(): bool
      reads this
    {
      cleared
    }
  }
}

/** The session manager of `session/manager.go` over a storage modelled as a
    map from session ids to their saved data (`None` for data saved as nil).
    Session ids are generated outside the model and given as a list. */
module SessionManager {
  import opened Wrappers
  import opened Session

  const MaxAttempts := 128

  datatype ManagerError =
    | NilSession
    | SaveIdRequired
    | DeleteIdRequired
    | NoUniqueId(attempts: nat)

  /** What a save does to the storage: a cleared session is deleted, an
      unmodified one is left alone, and a modified one is written. */
  function SaveEffect(storage: map<string, Option<map<string, SessionValue>>>, id: string, st: SessionState)
    : Result<map<string, Option<map<string, SessionValue>>>, ManagerError>
  {
    if st.cleared then DeleteEffect(storage, id)
    else if !st.modified then Ok(storage)
    else if id == "" then Err(SaveIdRequired)
    else Ok(storage[id := Some(st.values)])
  }

  function DeleteEffect(storage: map<string, Option<map<string, SessionValue>>>, id: string)
    : Result<map<string, Option<map<string, SessionValue>>>, ManagerError>
  {
    if id == "" then Err(DeleteIdRequired) else Ok(storage - {id})
  }

  /** What `Session(id)` loads: nothing for "" or an unknown id, and an empty
      map for data stored as nil. */
  function Loaded(storage: map<string, Option<map<string, SessionValue>>>, id: string): Option<map<string, SessionValue>> {
    if id == "" || id !in storage then None
    else Some(storage[id].GetOr(map[]))
  }

  /** The first generated id the storage does not know, within the attempts. */
  function FirstFree(storage: map<string, Option<map<string, SessionValue>>>, candidates: seq<string>): (r: Option<string>)
    ensures r.Some? ==> r.value !in storage && r.value in candidates
    ensures r.None? ==> forall k :: 0 <= k < |candidates| ==> candidates[k] in storage
    decreases |candidates|
  {
    if candidates == [] then None
    else if candidates[0] !in storage then Some(candidates[0])
    else FirstFree(storage, candidates[1..])
  }

  // ---------------------------------------------------------------------------
  // Properties of the save and load effects

  /** Saving a modified, uncleared session with an id makes it load back. */
  lemma SaveThenLoad(storage: map<string, Option<map<string, SessionValue>>>, id: string, st: SessionState)
    requires id != "" && st.modified && !st.cleared
    ensures SaveEffect(storage, id, st).Ok?
    ensures Loaded(SaveEffect(storage, id, st).value, id) == Some(st.values)
  {
  }

  /** Saving an unmodified session writes nothing, so an unsaved id still loads nothing. */
  lemma SaveUnmodifiedIsNoop(storage: map<string, Option<map<string, SessionValue>>>, id: string, st: SessionState)
    requires !st.modified && !st.cleared
    ensures SaveEffect(storage, id, st) == Ok(storage)
    ensures id !in storage ==> Loaded(SaveEffect(storage, id, st).value, id).None?
  {
  }

  /** Saving a cleared session deletes it: it no longer loads. */
  lemma SaveClearedDeletes(storage: map<string, Option<map<string, SessionValue>>>, id: string, st: SessionState)
    requires st.cleared && id != ""
    ensures SaveEffect(storage, id, st) == Ok(storage - {id})
    ensures Loaded(SaveEffect(storage, id, st).value, id).None?
  {
  }

  /** The id is checked only when something is to be stored or deleted. */
  lemma SaveNeedsId(storage: map<string, Option<map<string, SessionValue>>>, st: SessionState)
    ensures SaveEffect(storage, "", st).Err? <==> st.cleared || st.modified
  {
  }

  /** The manager's whole round trip: a new session, set, save, load, clear,
      save, load. */
  lemma SessionLifecycle(storage: map<string, Option<map<string, SessionValue>>>, id: string, key: string, value: string)
    requires id != "" && id !in storage
    ensures var s0 := Fresh(map[]);
      var s1 := SetValue(s0, key, StringValue(value));
      var after1 := SaveEffect(storage, id, s1).value;
      var s2 := ClearValues(s1);
      SaveEffect(storage, id, s0) == Ok(storage)
      && Loaded(storage, id).None?
      && SaveEffect(storage, id, s1).Ok?
      && Loaded(after1, id) == Some(map[key := StringValue(value)])
      && StringValueOf(Fresh(Loaded(after1, id).value), key) == value
      && SaveEffect(after1, id, s2).Ok?
      && Loaded(SaveEffect(after1, id, s2).value, id).None?
  {
  }

  class Manager {
    var storage: map<string, Option<map<string, SessionValue>>>
    const ttl: int

    constructor(ttl: int)
      ensures storage == map[] && this.ttl == ttl
    {
      storage := map[];
      this.ttl := ttl;
    }

    /** `Session`: a fresh, unmodified session over what the storage holds. */
    method LoadSession(sessionId: string) returns (s: Session?)
      ensures Loaded(storage, sessionId).None? ==> s == null
      ensures Loaded(storage, sessionId).Some? ==>
        s != null && fresh(s) && s.id == sessionId && s.State() == Fresh(Loaded(storage, sessionId).value)
    {
      if sessionId == "" {
        return null;
      }
      if sessionId !in storage {
        return null;
      }
      var data := storage[sessionId];
      var values := if data.None? then map[] else data.value;
      s := new Session(sessionId, values);
    }

    /** `NewSession`: up to 128 generated ids are tried until one is unused;
        running out is an error where the source panics. */
    method NewSession(generated: seq<string>) returns (r: Result<Session, ManagerError>)
      requires |generated| == MaxAttempts
      ensures FirstFree(storage, generated).None? ==> r == Err(NoUniqueId(MaxAttempts))
      ensures FirstFree(storage, generated).Some? ==>
        r.Ok? && fresh(r.value) && r.value.id == FirstFree(storage, generated).value && r.value.State() == Fresh(map[])
    {
      var attempt := 0;
      while attempt < MaxAttempts
        invariant 0 <= attempt <= MaxAttempts
        invariant FirstFree(storage, generated) == FirstFree(storage, generated[attempt..])
      {
        var newId := generated[attempt];
        assert generated[attempt..][1..] == generated[attempt + 1..];
        if newId in storage {
          attempt := attempt + 1;
          continue;
        }
        var s := new Session(newId, map[]);
        return Ok(s);
      }
      return Err(NoUniqueId(MaxAttempts));
    }

    /** `SaveSession`. */
    method SaveSession(s: Session?) returns (err: Option<ManagerError>)
      modifies this
      ensures s == null ==> err == Some(NilSession) && storage == old(storage)
      ensures s != null && SaveEffect(old(storage), s.id, s.State()).Ok? ==>
        err == None && storage == SaveEffect(old(storage), s.id, s.State()).value
      ensures s != null && SaveEffect(old(storage), s.id, s.State()).Err? ==>
        err == Some(SaveEffect(old(storage), s.id, s.State()).error) && storage == old(storage)
    {
      if s == null {
        return Some(NilSession);
      }
      if s.IsCleared() {
        err := DeleteSession(s.Id());
        return;
      }
      if !s.IsModified() {
        return None;
      }
      var sessionId := s.Id();
      if sessionId == "" {
        return Some(SaveIdRequired);
      }
      storage := storage[sessionId := Some(s.All())];
      return None;
    }

    /** `DeleteSession`. */
    method DeleteSession(sessionId: string) returns (err: Option<ManagerError>)
      modifies this
      ensures DeleteEffect(old(storage), sessionId).Ok? ==> err == None && storage == DeleteEffect(old(storage), sessionId).value
      ensures DeleteEffect(old(storage), sessionId).Err? ==> err == Some(DeleteIdRequired) && storage == old(storage)
    {
      if sessionId == "" {
        return Some(DeleteIdRequired);
      }
      storage := storage - {sessionId};
      return None;
    }
  }
}
