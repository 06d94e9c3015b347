/**
 * The local voting backend's handlers, over its module-level state.
 *
 * `PollStore` holds the three variables the server mutates in place: the
 * poll table, the id counter and the voter lists. Each handler method does
 * what its route does once the request has been decoded: the caller's
 * principal and the clock reading arrive as parameters, and the answer is
 * returned instead of being written to a response. Each state-changing
 * method is proved to leave exactly the state that the matching function
 * of module Polls describes, and to keep the store invariant.
 */
module Server {
  import opened Polls

  class PollStore {
    var polls: seq<Poll>
    var nextPollId: int
    var votersByPollId: map<int, seq<Principal>>

    /** The store's state as a value. */
    function Snapshot(): State
      reads this
    {
      State(polls, nextPollId, votersByPollId)
    }

    ghost predicate Valid()
      reads this
    {
      Inv(Snapshot())
    }

    /** The state at start-up: no polls, the first id to hand out is 1. */
    constructor ()
      ensures Valid()
      ensures Snapshot() == Init()
    {
      polls := [];
      nextPollId := 1;
      votersByPollId := map[];
    }

    /**
     * Route `POST /api/createPoll`: records a new poll for `caller` and
     * answers its id.
     */
    method CreatePoll(pollTitle: string, pollDescription: string,
                      caller: Principal, createdAt: int) returns (pollId: int)
      requires Valid()
      modifies this
      ensures Valid()
      ensures Created(Snapshot(), pollId)
           == Polls.CreatePoll(old(Snapshot()), pollTitle, pollDescription, caller, createdAt)
      ensures pollId == old(nextPollId) && nextPollId == pollId + 1
      ensures polls == old(polls) + [Poll(pollId, pollTitle, pollDescription, caller, createdAt, 0, 0)]
    {
      ghost var s := Snapshot();
      var newPoll := Poll(nextPollId, pollTitle, pollDescription, caller, createdAt, 0, 0);
      nextPollId := nextPollId + 1;
      polls := polls + [newPoll];
      votersByPollId := votersByPollId[newPoll.pollId := []];
      pollId := newPoll.pollId;
      CreatePreservesInv(s, pollTitle, pollDescription, caller, createdAt);
    }

    /** Route `GET /api/getAllPolls`: the whole table, oldest poll first. */
    method GetAllPolls() returns (r: seq<Poll>)
      requires Valid()
      ensures r == polls
      ensures |r| == nextPollId - 1
      ensures forall i :: 0 <= i < |r| ==> r[i].pollId == i + 1
    {
      r := polls;
    }

    /**
     * Route `GET /api/getPollById/:id`: the poll with that id, or `None`
     * (the 404 answer) when no poll has it. Nothing changes.
     */
    method GetPollById(pollId: int) returns (r: Option<Poll>)
      requires Valid()
      ensures r.Some? <==> 1 <= pollId < nextPollId
      ensures r.Some? ==> r.value == polls[pollId - 1] && r.value.pollId == pollId
      ensures r.None? ==> forall p :: p in polls ==> p.pollId != pollId
    {
      r := FindPoll(polls, pollId);
      FindPollOfId(Snapshot(), pollId);
    }

    /**
     * Route `POST /api/voteOnPoll`: counts `caller`'s vote on the poll with
     * that id, unless there is no such poll or `caller` already voted on it.
     */
    method VoteOnPoll(pollId: int, voteChoice: bool, caller: Principal) returns (r: VoteResult)
      requires Valid()
      modifies this
      ensures Valid()
      ensures Voted(Snapshot(), r) == Polls.VoteOnPoll(old(Snapshot()), pollId, voteChoice, caller)
    {
      ghost var s := Snapshot();
      VotePreservesInv(s, pollId, voteChoice, caller);
      var pollIndex := FindIndex(polls, pollId);
      if pollIndex == -1 {
        assert Polls.VoteOnPoll(s, pollId, voteChoice, caller) == Voted(s, Failure(PollNotFound));
        return Failure(PollNotFound);
      }
      // a missing voter list is created on demand, i.e. read as empty
      var voters := if pollId in votersByPollId then votersByPollId[pollId] else [];
      assert voters == Voters(s, pollId);
      if caller in voters {
        assert Polls.VoteOnPoll(s, pollId, voteChoice, caller) == Voted(s, Failure(AlreadyVoted));
        return Failure(AlreadyVoted);
      }
      var poll := polls[pollIndex];
      if voteChoice {
        polls := polls[pollIndex := poll.(yesVoteCount := poll.yesVoteCount + 1)];
      } else {
        polls := polls[pollIndex := poll.(noVoteCount := poll.noVoteCount + 1)];
      }
      assert polls == s.polls[pollIndex := Tallied(poll, voteChoice)];
      votersByPollId := votersByPollId[pollId := voters + [caller]];
      assert Polls.VoteOnPoll(s, pollId, voteChoice, caller) == Voted(Snapshot(), Success);
      r := Success;
    }
  }
}
