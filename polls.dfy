/**
 * The poll store of the local voting backend, as values.
 *
 * The backend keeps three pieces of module-level state: the table of polls,
 * the counter that hands out the next poll id, and, per poll id, the list of
 * principals that have voted on it. This module describes that state as a
 * value (`State`), the two handlers that change it (`CreatePoll`,
 * `VoteOnPoll`) as functions from the old state to the new one, the two
 * searches the handlers use (`FindIndex`, `FindPoll`), and the invariant
 * every handler keeps (`Inv`). The class in module Server performs the same
 * updates in place and is proved against these functions.
 */
module Polls {

  /** An opaque, already identified caller (the `x-principal` header). */
  type Principal = string

  datatype Option<T> = None | Some(value: T)

  /** One poll record, with the fields the backend serialises. */
  datatype Poll = Poll(
    pollId: int,
    pollTitle: string,
    pollDescription: string,
    pollCreator: Principal,
    createdAt: int,
    yesVoteCount: nat,
    noVoteCount: nat)

  /** The two refusals of the vote handler. */
  datatype VoteError = PollNotFound | AlreadyVoted

  /** The `{ success, error }` answer of the vote handler. */
  datatype VoteResult = Success | Failure(error: VoteError)

  /** The backend's whole state: `polls`, `nextPollId`, `votersByPollId`. */
  datatype State = State(
    polls: seq<Poll>,
    nextPollId: int,
    votersByPollId: map<int, seq<Principal>>)

  /** What the create handler leaves behind and answers. */
  datatype Created = Created(next: State, pollId: int)

  /** What the vote handler leaves behind and answers. */
  datatype Voted = Voted(next: State, result: VoteResult)

  /** The state when the server starts: no polls, ids start at 1. */
  function Init(): (s: State)
    ensures Inv(s)
    ensures s.polls == [] && s.nextPollId == 1 && s.votersByPollId == map[]
  {
    State([], 1, map[])
  }

  /** True when some poll in `polls` carries `pollId`. */
  predicate HasPoll(polls: seq<Poll>, pollId: int) {
    exists i :: 0 <= i < |polls| && polls[i].pollId == pollId
  }

  /**
   * `polls.findIndex(p => p.pollId === pollId)`: the index of the first poll
   * with that id, or -1 when there is none.
   */
  function FindIndex(polls: seq<Poll>, pollId: int): (r: int)
    ensures -1 <= r < |polls|
    ensures r == -1 <==> !HasPoll(polls, pollId)
    ensures r >= 0 ==> polls[r].pollId == pollId
    ensures r >= 0 ==> forall i :: 0 <= i < r ==> polls[i].pollId != pollId
  {
    if |polls| == 0 then -1
    else if polls[0].pollId == pollId then 0
    else
      var k := FindIndex(polls[1..], pollId);
      if k == -1 then -1 else k + 1
  }

  /** `polls.find(p => p.pollId === pollId)`: the first poll with that id. */
  function FindPoll(polls: seq<Poll>, pollId: int): (r: Option<Poll>)
    ensures r.Some? <==> HasPoll(polls, pollId)
    ensures r.Some? ==> r.value in polls && r.value.pollId == pollId
    ensures r.Some? ==> exists k :: 0 <= k < |polls| && polls[k] == r.value
                                 && forall i :: 0 <= i < k ==> polls[i].pollId != pollId
  {
    var k := FindIndex(polls, pollId);
    if k == -1 then None else Some(polls[k])
  }

  /**
   * The voter list of a poll id. A missing entry reads as the empty list,
   * which is what the vote handler creates on demand.
   */
  function Voters(s: State, pollId: int): seq<Principal> {
    if pollId in s.votersByPollId then s.votersByPollId[pollId] else []
  }

  predicate NoDuplicates(voters: seq<Principal>) {
    forall i, j :: 0 <= i < j < |voters| ==> voters[i] != voters[j]
  }

  /** Poll ids are 1, 2, 3, ... in table order; the counter is one past the last. */
  predicate IdsSequential(s: State) {
    && s.nextPollId == |s.polls| + 1
    && forall i :: 0 <= i < |s.polls| ==> s.polls[i].pollId == i + 1
  }

  /** Exactly the ids of existing polls have a voter list. */
  ghost predicate VoterListsExist(s: State) {
    forall id :: id in s.votersByPollId <==> 1 <= id <= |s.polls|
  }

  /** A poll's voters are distinct and the yes plus no count is their number. */
  predicate TallyMatches(p: Poll, voters: seq<Principal>) {
    && NoDuplicates(voters)
    && p.yesVoteCount + p.noVoteCount == |voters|
  }

  predicate TalliesMatchVoters(s: State) {
    forall i :: 0 <= i < |s.polls| ==> TallyMatches(s.polls[i], Voters(s, i + 1))
  }

  /**
   * The invariant of the store: ids are sequential, exactly the existing
   * polls have a voter list, and every tally matches its voter list.
   */
  ghost predicate Inv(s: State) {
    IdsSequential(s) && VoterListsExist(s) && TalliesMatchVoters(s)
  }

  /**
   * The create handler: a poll with the next id, the caller as creator and
   * zero counts goes at the end of the table, the counter moves on by one,
   * and the new id gets an empty voter list.
   */
  function CreatePoll(s: State, pollTitle: string, pollDescription: string,
                      caller: Principal, createdAt: int): (r: Created)
    ensures r.pollId == s.nextPollId
    ensures r.next.nextPollId == s.nextPollId + 1
    ensures |r.next.polls| == |s.polls| + 1 && r.next.polls[..|s.polls|] == s.polls
    ensures r.next.polls[|s.polls|]
         == Poll(r.pollId, pollTitle, pollDescription, caller, createdAt, 0, 0)
    ensures r.next.votersByPollId.Keys == s.votersByPollId.Keys + {r.pollId}
    ensures Voters(r.next, r.pollId) == []
    ensures forall id :: id != r.pollId ==> Voters(r.next, id) == Voters(s, id)
  {
    var newPoll := Poll(s.nextPollId, pollTitle, pollDescription, caller, createdAt, 0, 0);
    var next := State(s.polls + [newPoll], s.nextPollId + 1,
                      s.votersByPollId[newPoll.pollId := []]);
    Created(next, newPoll.pollId)
  }

  /** The poll after one vote: exactly one of its two counters goes up. */
  function Tallied(p: Poll, voteChoice: bool): (q: Poll)
    ensures q.yesVoteCount + q.noVoteCount == p.yesVoteCount + p.noVoteCount + 1
    ensures q.yesVoteCount == p.yesVoteCount + (if voteChoice then 1 else 0)
    ensures q.noVoteCount == p.noVoteCount + (if voteChoice then 0 else 1)
    ensures q.pollId == p.pollId && q.pollTitle == p.pollTitle
    ensures q.pollDescription == p.pollDescription && q.pollCreator == p.pollCreator
    ensures q.createdAt == p.createdAt
  {
    if voteChoice then p.(yesVoteCount := p.yesVoteCount + 1)
    else p.(noVoteCount := p.noVoteCount + 1)
  }

  /**
   * The vote handler: an unknown poll id is refused, then a caller already
   * on that poll's voter list is refused, and both refusals leave the state
   * as it was; otherwise the first poll with that id gets the vote counted
   * and the caller goes at the end of its voter list, and nothing else
   * changes.
   */
  function VoteOnPoll(s: State, pollId: int, voteChoice: bool, caller: Principal): (r: Voted)
    ensures r.result == Failure(PollNotFound) <==> !HasPoll(s.polls, pollId)
    ensures r.result == Failure(AlreadyVoted)
        <==> HasPoll(s.polls, pollId) && caller in Voters(s, pollId)
    ensures r.result.Failure? ==> r.next == s
    ensures r.result == Success ==>
      var k := FindIndex(s.polls, pollId);
      && 0 <= k < |s.polls|
      && r.next.nextPollId == s.nextPollId
      && |r.next.polls| == |s.polls|
      && r.next.polls[k] == Tallied(s.polls[k], voteChoice)
      && (forall i :: 0 <= i < |s.polls| && i != k ==> r.next.polls[i] == s.polls[i])
      && Voters(r.next, pollId) == Voters(s, pollId) + [caller]
      && r.next.votersByPollId.Keys == s.votersByPollId.Keys + {pollId}
      && (forall id :: id != pollId ==> Voters(r.next, id) == Voters(s, id))
  {
    var pollIndex := FindIndex(s.polls, pollId);
    if pollIndex == -1 then Voted(s, Failure(PollNotFound))
    else
      var voters := Voters(s, pollId);
      if caller in voters then Voted(s, Failure(AlreadyVoted))
      else
        var polls := s.polls[pollIndex := Tallied(s.polls[pollIndex], voteChoice)];
        Voted(State(polls, s.nextPollId, s.votersByPollId[pollId := voters + [caller]]), Success)
  }

  // ---------------------------------------------------------------------
  // Consequences of the invariant

  /** Under the invariant, poll ids are unique and increase with position. */
  lemma IdsStrictlyIncreasing(s: State, i: int, j: int)
    requires Inv(s)
    requires 0 <= i < j < |s.polls|
    ensures s.polls[i].pollId < s.polls[j].pollId < s.nextPollId
  {
  }

  /** Under the invariant, a poll id names its poll at position `id - 1`. */
  lemma {:induction false} FindIndexOfId(s: State, pollId: int)
    requires Inv(s)
    ensures FindIndex(s.polls, pollId) == if 1 <= pollId < s.nextPollId then pollId - 1 else -1
  {
    if 1 <= pollId < s.nextPollId {
      assert s.polls[pollId - 1].pollId == pollId;
    }
  }

  /**
   * The lookup by id answers the one poll with that id, and not-found
   * exactly when the id was never handed out.
   */
  lemma FindPollOfId(s: State, pollId: int)
    requires Inv(s)
    ensures FindPoll(s.polls, pollId)
         == if 1 <= pollId < s.nextPollId then Some(s.polls[pollId - 1]) else None
    ensures forall p :: p in s.polls && p.pollId == pollId ==> FindPoll(s.polls, pollId) == Some(p)
  {
    FindIndexOfId(s, pollId);
  }

  /** Creating a poll keeps the invariant. */
  lemma CreatePreservesInv(s: State, pollTitle: string, pollDescription: string,
                           caller: Principal, createdAt: int)
    requires Inv(s)
    ensures Inv(CreatePoll(s, pollTitle, pollDescription, caller, createdAt).next)
  {
    var t := CreatePoll(s, pollTitle, pollDescription, caller, createdAt).next;
    forall i | 0 <= i < |t.polls|
      ensures t.polls[i].pollId == i + 1
      ensures TallyMatches(t.polls[i], Voters(t, i + 1))
    {
      if i < |s.polls| {
        assert t.polls[i] == s.polls[i];
      }
    }
    assert IdsSequential(t);
    assert VoterListsExist(t);
    assert TalliesMatchVoters(t);
  }

  /** A fresh poll can be found by the id the create handler answered. */
  lemma CreateThenFind(s: State, pollTitle: string, pollDescription: string,
                       caller: Principal, createdAt: int)
    requires Inv(s)
    ensures var r := CreatePoll(s, pollTitle, pollDescription, caller, createdAt);
            && !HasPoll(s.polls, r.pollId)
            && FindPoll(r.next.polls, r.pollId)
               == Some(Poll(r.pollId, pollTitle, pollDescription, caller, createdAt, 0, 0))
  {
    var r := CreatePoll(s, pollTitle, pollDescription, caller, createdAt);
    CreatePreservesInv(s, pollTitle, pollDescription, caller, createdAt);
    FindIndexOfId(s, r.pollId);
    FindPollOfId(r.next, r.pollId);
  }

  lemma {:induction false} AppendKeepsNoDuplicates(voters: seq<Principal>, caller: Principal)
    requires NoDuplicates(voters) && caller !in voters
    ensures NoDuplicates(voters + [caller])
  {
    var w := voters + [caller];
    forall i, j | 0 <= i < j < |w| ensures w[i] != w[j] {
      if j == |voters| {
        assert w[i] == voters[i];
      } else {
        assert w[i] == voters[i] && w[j] == voters[j];
      }
    }
  }

  /** Voting keeps the invariant: the tally still equals the voter count. */
  lemma VotePreservesInv(s: State, pollId: int, voteChoice: bool, caller: Principal)
    requires Inv(s)
    ensures Inv(VoteOnPoll(s, pollId, voteChoice, caller).next)
  {
    var r := VoteOnPoll(s, pollId, voteChoice, caller);
    if r.result == Success {
      FindIndexOfId(s, pollId);
      var k := pollId - 1;
      var voters := Voters(s, pollId);
      var polls := s.polls[k := Tallied(s.polls[k], voteChoice)];
      var t := State(polls, s.nextPollId, s.votersByPollId[pollId := voters + [caller]]);
      assert r.next == t;
      assert caller !in voters;
      AppendKeepsNoDuplicates(voters, caller);
      assert t.nextPollId == |t.polls| + 1;
      forall i | 0 <= i < |t.polls|
        ensures t.polls[i].pollId == i + 1
        ensures TallyMatches(t.polls[i], Voters(t, i + 1))
      {
        if i != k {
          assert t.polls[i] == s.polls[i];
          assert Voters(t, i + 1) == Voters(s, i + 1);
        } else {
          assert t.polls[i] == Tallied(s.polls[k], voteChoice);
          assert Voters(t, i + 1) == voters + [caller];
        }
      }
      assert IdsSequential(t);
      assert TalliesMatchVoters(t);
      forall id ensures id in t.votersByPollId <==> 1 <= id <= |t.polls| {
        assert id in t.votersByPollId <==> id in s.votersByPollId || id == pollId;
      }
      assert VoterListsExist(t);
      assert Inv(t);
    }
  }

  /**
   * One vote per principal and poll: once a vote has been counted, the same
   * caller's next vote on that poll is refused, whatever its choice.
   */
  lemma VoteTwiceRejected(s: State, pollId: int, first: bool, second: bool, caller: Principal)
    requires VoteOnPoll(s, pollId, first, caller).result == Success
    ensures var t := VoteOnPoll(s, pollId, first, caller).next;
            VoteOnPoll(t, pollId, second, caller) == Voted(t, Failure(AlreadyVoted))
  {
    var t := VoteOnPoll(s, pollId, first, caller).next;
    var k := FindIndex(s.polls, pollId);
    assert t.polls[k].pollId == pollId;
    assert caller in Voters(t, pollId);
  }
}
