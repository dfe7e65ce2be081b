/** The access decision manager: voters that support an attribute vote on it,
    and the strategy turns the tally into a grant or a refusal. A voter is
    modelled by what it answers for one token and subject: whether it
    supports an attribute and the vote it casts. */
module AccessDecisionManager {
  import opened Wrappers

  /** The decision strategies; `Unknown` stands for any other strategy code. */
  datatype DecisionStrategy = Affirmative | Consensus | Unanimous | Unknown(code: int)

  /** `VoteGranted`, `VoteDenied`; every other vote is counted as an abstention. */
  datatype Vote = Granted | Denied | Abstain

  datatype Voter = Voter(supports: string -> bool, vote: string -> Vote)

  datatype ManagerError = InvalidStrategy(code: int) | NilVoter(index: nat)

  /** The only refusal the manager reports. */
  datatype AccessError = Forbidden

  datatype Manager = Manager(voters: seq<Voter>, strategy: DecisionStrategy)

  predicate IsValidStrategy(strategy: DecisionStrategy) {
    !strategy.Unknown?
  }

  /** The first index holding no voter, or -1. */
  function FirstNil(voters: seq<Option<Voter>>): (r: int)
    ensures -1 <= r < |voters|
    ensures r >= 0 ==> voters[r].None? && forall j :: 0 <= j < r ==> voters[j].Some?
    ensures r == -1 ==> forall j :: 0 <= j < |voters| ==> voters[j].Some?
    decreases |voters|
  {
    if voters == [] then -1
    else if voters[0].None? then 0
    else
      var rest := FirstNil(voters[1..]);
      assert forall j :: 1 <= j < |voters| ==> voters[j] == voters[1..][j - 1];
      if rest == -1 then -1 else rest + 1
  }

  /** `NewAccessDecisionManager`: an invalid strategy panics first, then the first nil voter. */
  function NewManager(strategy: DecisionStrategy, voters: seq<Option<Voter>>): (r: Result<Manager, ManagerError>)
    ensures !IsValidStrategy(strategy) ==> r == Err(InvalidStrategy(strategy.code))
    ensures IsValidStrategy(strategy) && (exists j :: 0 <= j < |voters| && voters[j].None?) ==>
      r.Err? && r.error.NilVoter? && r.error.index < |voters| && voters[r.error.index].None?
      && forall j :: 0 <= j < r.error.index ==> voters[j].Some?
    ensures r.Ok? <==> IsValidStrategy(strategy) && forall j :: 0 <= j < |voters| ==> voters[j].Some?
    ensures r.Ok? ==> r.value.strategy == strategy && |r.value.voters| == |voters|
    ensures r.Ok? ==> forall j :: 0 <= j < |voters| ==> voters[j] == Some(r.value.voters[j])
  {
    if !IsValidStrategy(strategy) then Err(InvalidStrategy(strategy.code))
    else
      var nilIndex := FirstNil(voters);
      if nilIndex >= 0 then Err(NilVoter(nilIndex))
      else Ok(Manager(seq(|voters|, j requires 0 <= j < |voters| => voters[j].value), strategy))
  }

  // ---------------------------------------------------------------------------
  // Specification of one attribute

  /** The votes of the voters that support the attribute, in order. */
  function Ballots(voters: seq<Voter>, attribute: string): (r: seq<Vote>)
    ensures |r| <= |voters|
    decreases |voters|
  {
    if voters == [] then []
    else
      var rest := Ballots(voters[1..], attribute);
      if voters[0].supports(attribute) then [voters[0].vote(attribute)] + rest else rest
  }

  function Count(votes: seq<Vote>, v: Vote): (n: nat)
    ensures n <= |votes|
    ensures n == 0 <==> forall k :: 0 <= k < |votes| ==> votes[k] != v
    decreases |votes|
  {
    if votes == [] then 0
    else
      var rest := Count(votes[1..], v);
      assert forall k :: 1 <= k < |votes| ==> votes[k] == votes[1..][k - 1];
      (if votes[0] == v then 1 else 0) + rest
  }

  /** The strategy applied to the tally; true means access is granted. */
  function Verdict(strategy: DecisionStrategy, granted: nat, denied: nat, abstained: nat): (ok: bool)
    ensures granted == 0 && denied == 0 ==> !ok
    ensures strategy.Affirmative? ==> (ok <==> granted > 0)
    ensures strategy.Consensus? ==> (ok <==> granted > denied)
    ensures !strategy.Affirmative? && !strategy.Consensus? ==> (ok <==> denied == 0 && granted > 0)
  {
    if granted == 0 && denied == 0 && abstained > 0 then false
    else if granted == 0 && denied == 0 && abstained == 0 then false
    else if strategy.Affirmative? then granted > 0
    else if strategy.Consensus? then
      if denied > granted then false
      else if granted > denied then true
      else false
    else if denied > 0 then false
    else if granted > 0 then true
    else false
  }

  /** `decideSingleAttribute` as a function: true means it returns no error. */
  function Allows(manager: Manager, attribute: string): bool {
    var votes := Ballots(manager.voters, attribute);
    Verdict(manager.strategy, Count(votes, Granted), Count(votes, Denied), Count(votes, Abstain))
  }

  // ---------------------------------------------------------------------------
  // Methods

  /** `decideSingleAttribute`: the voter loop tallies the votes, then the strategy decides. */
  method DecideSingleAttribute(manager: Manager, attribute: string) returns (err: Option<AccessError>)
    ensures err.None? <==> Allows(manager, attribute)
  {
    var grantedCount := 0;
    var deniedCount := 0;
    var abstainCount := 0;
    var voters := manager.voters;
    var index := 0;
    while index < |voters|
      invariant 0 <= index <= |voters|
      invariant var rest := Ballots(voters[index..], attribute);
        var all := Ballots(voters, attribute);
        grantedCount + Count(rest, Granted) == Count(all, Granted)
        && deniedCount + Count(rest, Denied) == Count(all, Denied)
        && abstainCount + Count(rest, Abstain) == Count(all, Abstain)
    {
      var voter := voters[index];
      assert voters[index..][1..] == voters[index + 1..];
      if voter.supports(attribute) {
        var result := voter.vote(attribute);
        if result == Granted {
          grantedCount := grantedCount + 1;
        } else if result == Denied {
          deniedCount := deniedCount + 1;
        } else {
          abstainCount := abstainCount + 1;
        }
      }
      index := index + 1;
    }
    assert voters[..] == voters[0..];
    if Verdict(manager.strategy, grantedCount, deniedCount, abstainCount) {
      return None;
    }
    return Some(Forbidden);
  }

  /** `DecideAll`: the first attribute refused stops the loop with its error. */
  method DecideAll(manager: Manager, attributes: seq<string>) returns (err: Option<AccessError>)
    ensures err.None? <==> forall k :: 0 <= k < |attributes| ==> Allows(manager, attributes[k])
  {
    var index := 0;
    while index < |attributes|
      invariant 0 <= index <= |attributes|
      invariant forall k :: 0 <= k < index ==> Allows(manager, attributes[k])
    {
      err := DecideSingleAttribute(manager, attributes[index]);
      if err.Some? {
        return err;
      }
      index := index + 1;
    }
    return None;
  }

  /** `DecideAny`: the first attribute granted succeeds; none granted is forbidden. */
  method DecideAny(manager: Manager, attributes: seq<string>) returns (err: Option<AccessError>)
    ensures err.None? <==> exists k :: 0 <= k < |attributes| && Allows(manager, attributes[k])
    ensures err.Some? ==> err == Some(Forbidden)
  {
    var index := 0;
    while index < |attributes|
      invariant 0 <= index <= |attributes|
      invariant forall k :: 0 <= k < index ==> !Allows(manager, attributes[k])
    {
      var attributeErr := DecideSingleAttribute(manager, attributes[index]);
      if attributeErr.None? {
        return None;
      }
      index := index + 1;
    }
    return Some(Forbidden);
  }

  // ---------------------------------------------------------------------------
  // Properties in terms of the voters

  /** Voter `j` supports the attribute and casts `v`. */
  predicate Votes(voters: seq<Voter>, attribute: string, j: int, v: Vote)
    requires 0 <= j < |voters|
  {
    voters[j].supports(attribute) && voters[j].vote(attribute) == v
  }

  /** A vote is in the ballot exactly when some supporting voter casts it. */
  lemma {:induction false} BallotHas(voters: seq<Voter>, attribute: string, v: Vote)
    ensures Count(Ballots(voters, attribute), v) > 0 <==>
      exists j :: 0 <= j < |voters| && Votes(voters, attribute, j, v)
    decreases |voters|
  {
    if voters != [] {
      BallotHas(voters[1..], attribute, v);
      var rest := Ballots(voters[1..], attribute);
      var all := Ballots(voters, attribute);
      assert Count(all, v) == (if voters[0].supports(attribute) && voters[0].vote(attribute) == v then 1 else 0) + Count(rest, v) by {
        if voters[0].supports(attribute) {
          assert all == [voters[0].vote(attribute)] + rest;
          assert all[1..] == rest;
        }
      }
      if exists j :: 0 <= j < |voters| && Votes(voters, attribute, j, v) {
        var j :| 0 <= j < |voters| && Votes(voters, attribute, j, v);
        if j > 0 {
          assert voters[1..][j - 1] == voters[j];
          assert Votes(voters[1..], attribute, j - 1, v);
        }
      }
      if voters[0].supports(attribute) && voters[0].vote(attribute) == v {
        assert Votes(voters, attribute, 0, v);
      }
      if Count(rest, v) > 0 {
        var j :| 0 <= j < |voters[1..]| && Votes(voters[1..], attribute, j, v);
        assert voters[j + 1] == voters[1..][j];
        assert Votes(voters, attribute, j + 1, v);
      }
    }
  }

  /** Without a supporting voter that grants or denies, access is refused. */
  lemma AbstentionsRefuse(manager: Manager, attribute: string)
    requires forall j :: 0 <= j < |manager.voters| ==> !Votes(manager.voters, attribute, j, Granted) && !Votes(manager.voters, attribute, j, Denied)
    ensures !Allows(manager, attribute)
  {
    BallotHas(manager.voters, attribute, Granted);
    BallotHas(manager.voters, attribute, Denied);
  }

  /** Affirmative: granted exactly when some supporting voter grants. */
  lemma AffirmativeGrantsOnAnyGrant(manager: Manager, attribute: string)
    requires manager.strategy.Affirmative?
    ensures Allows(manager, attribute) <==> exists j :: 0 <= j < |manager.voters| && Votes(manager.voters, attribute, j, Granted)
  {
    BallotHas(manager.voters, attribute, Granted);
  }

  /** Consensus: granted exactly when grants outnumber denials; a tie refuses. */
  lemma ConsensusNeedsMajority(manager: Manager, attribute: string)
    requires manager.strategy.Consensus?
    ensures var votes := Ballots(manager.voters, attribute);
      Allows(manager, attribute) <==> Count(votes, Granted) > Count(votes, Denied)
    ensures var votes := Ballots(manager.voters, attribute);
      Count(votes, Granted) == Count(votes, Denied) ==> !Allows(manager, attribute)
  {
  }

  /** Unanimous: refused on any denial, otherwise granted when some voter grants. */
  lemma UnanimousRefusesOnAnyDenial(manager: Manager, attribute: string)
    requires manager.strategy.Unanimous?
    ensures Allows(manager, attribute) <==>
      (forall j :: 0 <= j < |manager.voters| ==> !Votes(manager.voters, attribute, j, Denied))
      && (exists j :: 0 <= j < |manager.voters| && Votes(manager.voters, attribute, j, Granted))
  {
    BallotHas(manager.voters, attribute, Granted);
    BallotHas(manager.voters, attribute, Denied);
  }
}
