# Poll store of the distributed voting backend, in Dafny

The local backend server (`src/voting_backend_server/server.js`) stands in for
an Internet Computer canister. It keeps every poll in memory, in three
module-level variables:

- `polls`, the table of poll records;
- `nextPollId`, the counter that hands out poll ids starting at 1;
- `votersByPollId`, the list of principals that have voted, for each poll id.

Four routes work on that state, and `/api/health` only reads the poll count. `createPoll` appends a poll with the
next id, the caller as its creator and zero yes/no counts, and opens an empty
voter list for it. `voteOnPoll` refuses an unknown poll id ("Poll not found")
and a principal who already voted on that poll ("Already voted"). Otherwise it
adds one to the yes or the no count and puts the caller on the poll's voter
list. `getPollById` and `getAllPolls` only read.

The model has three modules:

- `Polls` (polls.dfy) describes the state as a value, `State`. It has the two
  searches the handlers use (`FindIndex` for `findIndex`, `FindPoll` for
  `find`), the two handlers as functions from the old state to the new state
  plus the answer (`CreatePoll`, `VoteOnPoll`), and the store invariant `Inv`.
  `Inv` says that poll ids are 1, 2, 3, … in creation order and the counter is
  one past the last id. It also says that exactly the existing ids have a voter
  list, and that each voter list has no duplicates and is as long as the
  poll's yes count plus its no count. The lemmas prove that both handlers keep
  `Inv`, that lookups find the one poll with a given id, and that a principal's
  second vote on the same poll is refused.
- `History` (history.dfy) covers any sequence of create and vote requests run
  one after the other, as the single-threaded server runs them. Every state
  reachable from start-up satisfies `Inv`. A run only adds to the state: polls
  keep their identity, counts never go down, and voter lists only grow at the
  end. So a counted vote is final: from then on, the same principal is always
  refused on that poll.
- `Server` (server.dfy) is the class `PollStore`. Its fields are the three
  variables, and its methods are the four routes, updating those fields in
  place. Each method that changes state is proved to leave exactly the state
  the matching `Polls` function describes and to keep `Inv`. The read-only
  routes are methods that change nothing.

The caller's principal (the `x-principal` header) and the creation time
(`Date.now()`) are parameters of the methods.

## Model

| member | source | states |
|---|---|---|
| `Polls.Init` | src/voting_backend_server/server.js:10-12 | the start-up state has no polls, counter 1 and no voter lists, and it satisfies the store invariant |
| `Polls.FindIndex` | src/voting_backend_server/server.js:91 | the result is -1 exactly when no poll has the id; otherwise it is the index of the first poll with that id |
| `Polls.FindPoll` | src/voting_backend_server/server.js:72 | the result is a poll exactly when some poll has the id, and then it is the first poll in the table that carries the id |
| `Polls.CreatePoll` | src/voting_backend_server/server.js:36-47 | the new id is the old counter and the counter goes up by one; exactly one poll is appended (caller as creator, given time, zero counts) and the existing polls are kept; the new id gets an empty voter list and every other id's list is unchanged |
| `Polls.Tallied` | src/voting_backend_server/server.js:108-112 | a vote raises exactly one counter by one: yes when the choice is true, no otherwise; the other fields are unchanged |
| `Polls.VoteOnPoll` | src/voting_backend_server/server.js:91-115 | "Poll not found" exactly when no poll has the id; "Already voted" exactly when the poll exists and the caller is on its voter list; both refusals leave the state unchanged; a success counts the vote on the first poll with that id, appends the caller to that poll's voter list, and leaves every other poll, every other list and the counter unchanged |
| `Polls.IdsStrictlyIncreasing` | src/voting_backend_server/server.js:36-37 | under the invariant, poll ids strictly increase in table order, and all of them are below the counter, so they are unique |
| `Polls.FindIndexOfId` | src/voting_backend_server/server.js:91 | under the invariant, the search answers position id-1 for an id that has been handed out, and -1 for any other id |
| `Polls.FindPollOfId` | src/voting_backend_server/server.js:71-77 | under the invariant, the lookup answers the one poll carrying the id, and not-found exactly when the id was never handed out |
| `Polls.CreatePreservesInv` | src/voting_backend_server/server.js:46-47 | creating a poll keeps the store invariant |
| `Polls.CreateThenFind` | src/voting_backend_server/server.js:37-50 | the id a create answers was not used before, and looking it up afterwards finds exactly the new poll with zero counts |
| `Polls.VotePreservesInv` | src/voting_backend_server/server.js:102-115 | voting keeps the store invariant: each voter list stays duplicate-free and as long as the yes plus no count |
| `Polls.VoteTwiceRejected` | src/voting_backend_server/server.js:102-105 | once a principal's vote on a poll is counted, their next vote on that poll is refused with "Already voted" and changes nothing, whatever its choice |
| `History.CreateExtends` | src/voting_backend_server/server.js:46-47 | under the invariant, creating a poll only adds: every existing poll, count and voter list is kept as it was |
| `History.VoteExtends` | src/voting_backend_server/server.js:108-115 | a vote only adds: counts never go down, other fields of every poll are kept, and the voted poll's list grows only at the end |
| `History.StepExtends` | src/voting_frontend/src/pages/HomePage.tsx:46 | handling one request keeps the invariant, and it only adds: poll records and counts are never lost, and voter lists only grow at the end |
| `History.RunExtends` | src/voting_frontend/src/pages/HomePage.tsx:46 | the same holds for any sequence of requests handled one after the other |
| `History.Reachable` | src/voting_backend_server/server.js:10-12 | every state reachable from start-up satisfies the invariant, and the i-th poll ever created has id i+1 |
| `History.VoteIsFinal` | src/voting_frontend/src/pages/HomePage.tsx:47 | after a counted vote, whatever requests follow, that principal's later vote on that poll is refused and changes nothing |
| `Server.PollStore.constructor` | src/voting_backend_server/server.js:10-12 | the store starts with no polls, counter 1 and no voter lists |
| `Server.PollStore.CreatePoll` | src/voting_backend_server/server.js:31-55 | updates the three fields in place exactly as `Polls.CreatePoll` says, answers the old counter as the new id, and keeps the invariant |
| `Server.PollStore.GetAllPolls` | src/voting_backend_server/server.js:58-66 | answers the whole table, oldest first, with ids 1 to counter-1; changes nothing |
| `Server.PollStore.GetPollById` | src/voting_backend_server/server.js:69-83 | answers the poll with the id exactly when that id has been handed out; otherwise not-found, and then no poll carries the id; changes nothing |
| `Server.PollStore.VoteOnPoll` | src/voting_backend_server/server.js:86-123 | updates the fields in place and answers exactly as `Polls.VoteOnPoll` says, and keeps the invariant |

## Left out

- Express routing, CORS, JSON body parsing, HTTP status codes, `app.listen` and console logging: these are I/O around the handlers. Each answer is returned as a value (`Created.pollId`, `VoteResult`, `Option<Poll>`).
- The `catch` branches that answer status 500: nothing in the modelled handlers can throw once the request is decoded.
- `generatePrincipal` and `getCallerPrincipal` (random principal or header lookup): the caller's principal is a parameter. A request without an `x-principal` header gets a fresh random principal every time, so the one-vote rule (`Polls.VoteTwiceRejected`, `History.VoteIsFinal`) limits each principal, not each client: a client that sends no header is never refused with "Already voted".
- `Date.now()`: the creation time is a parameter.
- `parseInt` in `getPollById`: the id is an integer parameter. A non-numeric path gives `NaN` in the source, which matches no poll; the model gives the same not-found answer for every id that was never handed out.
- JSON value types in `voteOnPoll`: `pollId` is an integer and `voteChoice` a boolean. A `pollId` sent as a string fails the strict `===` comparison in the source, and a non-boolean `voteChoice` is read by JavaScript truthiness; neither is modelled.
- JavaScript number precision: ids and counts are unbounded integers. The source loses precision above 2^53, which a running server never reaches.
- The lazy creation of a missing voter list in `voteOnPoll` is modelled as reading a missing list as empty. The difference cannot be observed: a missing list never holds the caller, so the vote goes through and the list is written anyway.
- `GET /api/getPrincipal` and `GET /api/health`: they only echo the caller's principal and the poll count.
- The React pages and components, the HTTP client, the IC agent wrapper and the mocked blockchain client: UI and network code, with no store logic.
- The token-staking resolution engine (weights, balances, faucet, settlement): its source is not part of this model. Only its remote calls in the resolution frontend are visible.
