/**
 * Runs of the poll store: the state after any sequence of create and vote
 * requests handled one after the other, as the single-threaded server
 * handles them.
 *
 * Every reachable state satisfies the store invariant, and a run only ever
 * adds: polls stay where they are with their title, description, creator
 * and creation time, counts never go down, and voter lists only grow at
 * the end. So a counted vote stays counted, and the principal who cast it
 * is refused on that poll for the rest of the run.
 */
module History {
  import opened Polls

  /** A request that changes the store, with its caller and clock reading. */
  datatype Request =
    | CreateRequest(pollTitle: string, pollDescription: string, caller: Principal, createdAt: int)
    | VoteRequest(pollId: int, voteChoice: bool, caller: Principal)

  /** The state after handling one request. */
  function Step(s: State, req: Request): State {
    match req
    case CreateRequest(title, description, caller, createdAt) =>
      CreatePoll(s, title, description, caller, createdAt).next
    case VoteRequest(pollId, voteChoice, caller) =>
      VoteOnPoll(s, pollId, voteChoice, caller).next
  }

  /** The state after handling `reqs` in order. */
  function Run(s: State, reqs: seq<Request>): State
    decreases |reqs|
  {
    if reqs == [] then s else Run(Step(s, reqs[0]), reqs[1..])
  }

  /** `q` is `p` with possibly more votes counted on either side. */
  predicate PollGrown(p: Poll, q: Poll) {
    && q.(yesVoteCount := p.yesVoteCount, noVoteCount := p.noVoteCount) == p
    && p.yesVoteCount <= q.yesVoteCount
    && p.noVoteCount <= q.noVoteCount
  }

  /**
   * `t` only adds to `s`: the poll table and the counter only grow, every
   * existing poll keeps its identity and its counts, and every voter list
   * is a prefix of its later self.
   */
  ghost predicate Extends(s: State, t: State) {
    && |s.polls| <= |t.polls|
    && s.nextPollId <= t.nextPollId
    && (forall i :: 0 <= i < |s.polls| ==> PollGrown(s.polls[i], t.polls[i]))
    && (forall id :: Voters(s, id) <= Voters(t, id))
  }

  lemma ExtendsTransitive(s: State, t: State, u: State)
    requires Extends(s, t) && Extends(t, u)
    ensures Extends(s, u)
  {
  }

  /** Creating a poll only adds to the state. */
  lemma CreateExtends(s: State, pollTitle: string, pollDescription: string,
                      caller: Principal, createdAt: int)
    requires Inv(s)
    ensures Extends(s, CreatePoll(s, pollTitle, pollDescription, caller, createdAt).next)
  {
    var t := CreatePoll(s, pollTitle, pollDescription, caller, createdAt).next;
    forall i | 0 <= i < |s.polls| ensures PollGrown(s.polls[i], t.polls[i]) {
      assert t.polls[..|s.polls|][i] == t.polls[i];
    }
    forall id ensures Voters(s, id) <= Voters(t, id) {
      if id == s.nextPollId {
        assert id !in s.votersByPollId;
      }
    }
  }

  /** Voting only adds to the state. */
  lemma VoteExtends(s: State, pollId: int, voteChoice: bool, caller: Principal)
    ensures Extends(s, VoteOnPoll(s, pollId, voteChoice, caller).next)
  {
    var r := VoteOnPoll(s, pollId, voteChoice, caller);
    if r.result == Success {
      var t := r.next;
      var k := FindIndex(s.polls, pollId);
      forall i | 0 <= i < |s.polls| ensures PollGrown(s.polls[i], t.polls[i]) {
        if i == k {
          assert t.polls[i] == Tallied(s.polls[i], voteChoice);
        }
      }
      forall id ensures Voters(s, id) <= Voters(t, id) {
        if id == pollId {
          assert Voters(t, id) == Voters(s, id) + [caller];
        }
      }
    }
  }

  /** One request keeps the invariant and only adds to the state. */
  lemma StepExtends(s: State, req: Request)
    requires Inv(s)
    ensures Inv(Step(s, req))
    ensures Extends(s, Step(s, req))
  {
    match req
    case CreateRequest(title, description, caller, createdAt) =>
      CreatePreservesInv(s, title, description, caller, createdAt);
      CreateExtends(s, title, description, caller, createdAt);
    case VoteRequest(pollId, voteChoice, caller) =>
      VotePreservesInv(s, pollId, voteChoice, caller);
      VoteExtends(s, pollId, voteChoice, caller);
  }

  /** Every run from a valid state keeps the invariant and only adds. */
  lemma {:induction false} RunExtends(s: State, reqs: seq<Request>)
    requires Inv(s)
    ensures Inv(Run(s, reqs))
    ensures Extends(s, Run(s, reqs))
    decreases |reqs|
  {
    if reqs != [] {
      var t := Step(s, reqs[0]);
      StepExtends(s, reqs[0]);
      RunExtends(t, reqs[1..]);
      ExtendsTransitive(s, t, Run(t, reqs[1..]));
    }
  }

  /** Every state the server can reach from start-up satisfies the invariant. */
  lemma Reachable(reqs: seq<Request>)
    ensures Inv(Run(Init(), reqs))
    ensures forall i :: 0 <= i < |Run(Init(), reqs).polls| ==> Run(Init(), reqs).polls[i].pollId == i + 1
  {
    RunExtends(Init(), reqs);
  }

  /**
   * A counted vote is final: after it, whatever else happens, the same
   * principal is refused on that poll and the state is left alone.
   */
  lemma VoteIsFinal(s: State, pollId: int, voteChoice: bool, caller: Principal,
                    reqs: seq<Request>, laterChoice: bool)
    requires Inv(s)
    requires VoteOnPoll(s, pollId, voteChoice, caller).result == Success
    ensures var u := Run(VoteOnPoll(s, pollId, voteChoice, caller).next, reqs);
            VoteOnPoll(u, pollId, laterChoice, caller) == Voted(u, Failure(AlreadyVoted))
  {
    var t := VoteOnPoll(s, pollId, voteChoice, caller).next;
    VotePreservesInv(s, pollId, voteChoice, caller);
    VoteTwiceRejected(s, pollId, voteChoice, voteChoice, caller);
    var u := Run(t, reqs);
    RunExtends(t, reqs);
    assert caller in Voters(t, pollId);
    assert Voters(t, pollId) <= Voters(u, pollId);
    var k := FindIndex(s.polls, pollId);
    assert u.polls[k].pollId == pollId;
  }
}
