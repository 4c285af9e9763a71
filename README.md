# Secret Hitler room engine — a Dafny model

This project models the server-side room of an online Secret Hitler game,
`server/src/rooms/SecretHitlerRoom.ts`. The room is a Colyseus room whose
synchronised state holds:

- the players (a map from session id to a player record: name, role, dead,
  ready, voted, ballot);
- the policy draw and discard piles, and the enacted policies;
- the election tracker and the phase;
- the president and the chancellor.

The model covers the lobby (joining, leaving, "ready"), the game start
(dealing roles, preparing the policy deck, choosing the first president), a
nomination and its vote, and the first draw of the legislative session.

Layout, one module per file:

- `entities.dfy` (`Entities`): ids, roles, policies, phases, the player
  record, the public player view, and the messages the room sends.
- `shuffling.dfy` (`Shuffling`): the backwards Fisher–Yates shuffle that both
  `generateRoles` and `preparePolicyDeck` use. It is a specification
  function plus an in-place array method proved equal to it. The random
  numbers are a `Draws` sequence: draw `i` is the index `j <= i` that
  `Math.floor(Math.random() * (i + 1))` would produce at step `i`.
- `setup.dfy` (`Setup`): `getNumFascists`, the role pool, `generateRoles`,
  and the 17-tile policy deck.
- `election.dfy` (`Election`): `getNextPresidentId` and the presidential
  rotation, and the tally of `checkVotingComplete`.
- `rules.dfy` (`Rules`): the room state as a value (`GameState`) and one pure
  function per handler and helper. Also the well-formedness invariant
  `Valid`: the roster lists every key of the player map once, ids are
  non-empty, each record carries its own id, there are at most ten
  players, and nobody is president while the room waits for its first
  game. The lemmas here state what the room promises.
- `room.dfy` (`Room`): the class `SecretHitlerRoom`. Its fields are the
  state, and its methods update them in place as the TypeScript methods
  do. Each method is proved to keep `Valid()` and to leave
  `State() == Rules.<Step>(old(State()), …)`. The loops of `assignRoles`
  and `resetVotes` are `while` loops with invariants; the shuffles work in
  place on arrays.

The player map's iteration order (the order in which ids joined) is the
sequence `order`. The messages the room sends (broadcasts and private
messages) are appended to an `events` log. Everywhere else, the number of
connected clients is taken to be the number of seated players: the
framework adds and removes the client, and the room's own `onJoin` and
`onLeave` set and delete the matching player record. In `onJoin` the
client count is a parameter instead, since it is read while the new client
is already connected.

## Model

| member | source | states |
|---|---|---|
| Setup.NumFascists | server/src/rooms/SecretHitlerRoom.ts:139-143 | two fascists (Hitler included) up to six players, three up to eight, four from nine; at five to ten players the fascists are always a minority |
| Setup.RolePoolCounts | server/src/rooms/SecretHitlerRoom.ts:115-129 | the unshuffled pool has exactly one Hitler, `NumFascists(n) - 1` fascists and liberals for the remaining seats; it has one role per player from two players up, and still holds all fascist roles when `n` is smaller |
| Setup.GenerateRoles | server/src/rooms/SecretHitlerRoom.ts:115-137 | the method builds the pool with push loops and shuffles it in place; its result is the pool shuffled with the given draws |
| Setup.ShuffledRoleCounts | server/src/rooms/SecretHitlerRoom.ts:115-137 | the roles `generateRoles` returns have the pool's counts: one Hitler, `NumFascists(n) - 1` fascists, liberals for every other seat and no unassigned role, and one role per player from two players up |
| Shuffling.Swap | server/src/rooms/SecretHitlerRoom.ts:133 | swapping exchanges the two positions and leaves every other position alone |
| Shuffling.SwapPermutes | server/src/rooms/SecretHitlerRoom.ts:133 | a swap keeps the multiset of elements |
| Shuffling.ShuffleFromPermutes | server/src/rooms/SecretHitlerRoom.ts:131-134 | every tail of the Fisher–Yates loop keeps the length and the multiset of elements |
| Shuffling.ShufflePermutes | server/src/rooms/SecretHitlerRoom.ts:131-134 | the shuffle is a permutation of its input, whatever the draws |
| Shuffling.ShuffleInPlace | server/src/rooms/SecretHitlerRoom.ts:151-154 | the in-place loop over the array produces exactly the specified shuffle and a permutation of the original contents |
| Setup.ShuffledDeckCounts | server/src/rooms/SecretHitlerRoom.ts:145-154 | the shuffled deck has 17 tiles: 6 liberal and 11 fascist |
| Room.SecretHitlerRoom.PreparePolicyDeck | server/src/rooms/SecretHitlerRoom.ts:145-157 | the draw pile becomes the shuffled 17-tile deck and the discard pile becomes empty; nothing else changes |
| Election.IndexOf | server/src/rooms/SecretHitlerRoom.ts:163 | `indexOf` returns the first position of the id (no earlier seat holds it), or -1 exactly when the id is not in the roster |
| Election.WrapIsModulo | server/src/rooms/SecretHitlerRoom.ts:159-165 | for a set president id, the next president is `playerIds[(indexOf + 1) % length]`, as the source computes it |
| Election.NextPresidentIsNextSeat | server/src/rooms/SecretHitlerRoom.ts:159-165 | the next president is always seated; with no president yet, or one who has left, it is the first seat; otherwise it is the seat after the president's, wrapping to the first |
| Election.NextIsSuccessor | server/src/rooms/SecretHitlerRoom.ts:159-165 | in a roster without repeats, the president at seat `m` hands over to seat `m + 1`, or to seat 0 after the last seat |
| Election.RotateSeat | server/src/rooms/SecretHitlerRoom.ts:159-165 | after `k` hand-overs starting at seat `i`, the presidency is at seat `(i + k)` wrapped round the table |
| Election.RotationReturns | server/src/rooms/SecretHitlerRoom.ts:159-165 | after as many hand-overs as there are seats, the presidency is back where it started |
| Election.RotationReachesEveryone | server/src/rooms/SecretHitlerRoom.ts:159-165 | from any seat, every seated player becomes president within fewer hand-overs than there are seats |
| Election.TallyCounts | server/src/rooms/SecretHitlerRoom.ts:179-185 | the Ja count of the living votes is the number of living Ja voters, the Nein count is the number of living Nein voters, and the election is won exactly when Ja outnumbers Nein |
| Election.VotersPartitionLiving | server/src/rooms/SecretHitlerRoom.ts:179-183 | every living player is in exactly one of the Ja and Nein voter sets |
| Election.UnanimityDecides | server/src/rooms/SecretHitlerRoom.ts:179-185 | a unanimous Ja among a non-empty set of living players wins; with no Ja voter, or with as many Ja as Nein voters (a tie), the election is lost |
| Election.DistinctCard | server/src/rooms/SecretHitlerRoom.ts:161 | the keys of the player map, listed once each, are as many as the players |
| Rules.ElectionOutcome | server/src/rooms/SecretHitlerRoom.ts:174-200 | nothing happens until every living player has voted. A Ja majority then opens the legislative session without resetting the tracker. Otherwise the tracker goes up by one, the presidency passes to the next seat, the nomination reopens and the new tracker value is broadcast. In both cases the roster, the records, the chancellor, the discard pile, the enacted policies and the previous government are unchanged, and the state stays well formed |
| Rules.LegislativeDraw | server/src/rooms/SecretHitlerRoom.ts:202-211 | up to three tiles come off the top of the pile in order (all of them when fewer remain). They are sent to the president only when the president is connected. Nothing else changes |
| Room.SecretHitlerRoom.StartLegislativeSession | server/src/rooms/SecretHitlerRoom.ts:202-211 | the fields change exactly as the draw step says, and the state stays well formed |
| Rules.Initial | server/src/rooms/SecretHitlerRoom.ts:14-26 | a new room has no players, empty draw, discard and enacted piles, tracker 0, no president, chancellor or previous government, an empty outbox, and is waiting |
| Room.SecretHitlerRoom.constructor | server/src/rooms/SecretHitlerRoom.ts:32-33 | `onCreate` sets the initial state |
| Rules.NatToString | server/src/rooms/SecretHitlerRoom.ts:71 | the client count in the default name is written in decimal: a non-empty string of digits, with no leading zero, whose value (`DigitsValue`) is the count |
| Rules.JoinSeatsPlayer | server/src/rooms/SecretHitlerRoom.ts:68-78 | a join seats a fresh record (no role, alive, not ready, no vote) under the session id. Its name is the requested one, or `Player<count>` when none was given. The join is announced, nobody else's record changes, a new id goes to the end of the roster, and the state stays well formed |
| Room.SecretHitlerRoom.OnJoin | server/src/rooms/SecretHitlerRoom.ts:68-78 | the fields change as the join step says, and the state stays well formed |
| Rules.LeaveUnseats | server/src/rooms/SecretHitlerRoom.ts:80-83 | a departure deletes the id's record and closes its seat, keeping the others' records and order (the reference `Without` filter). It is announced even for an id that was never seated, and nothing else changes |
| Room.SecretHitlerRoom.OnLeave | server/src/rooms/SecretHitlerRoom.ts:80-83 | the fields change as the leave step says, and the state stays well formed |
| Rules.StartsOnlyWhenAllReady | server/src/rooms/SecretHitlerRoom.ts:36-42 | from the lobby, "ready" starts the game exactly when the sender is seated, there are at least five players and every other player is ready. The game then starts from the table with the sender marked ready, and the first seat presides. Otherwise only the sender's ready flag changes |
| Rules.MarkReady | server/src/rooms/SecretHitlerRoom.ts:37-39 | "ready" flags the sender's own record and changes nothing else: no other record, and none of the roster, piles, tracker, phase, government or outbox; the state stays well formed |
| Rules.ReadyRestartsMidGame | server/src/rooms/SecretHitlerRoom.ts:36-42 | "ready" has no phase check: during a game of five or more where every other player is ready, any seated player's "ready" deals again from the table with the sender marked ready, and reopens the nomination. This includes a repeated "ready" and the first one from a player who joined mid-game |
| Rules.ReadyWithoutStartOnlyFlags | server/src/rooms/SecretHitlerRoom.ts:85-92 | in any phase, a "ready" sent when the sender is not seated, there are fewer than five players, or another player is not ready only flags the sender's record (and changes nothing at all for an unseated sender) |
| Rules.ReadyKeepsValid | server/src/rooms/SecretHitlerRoom.ts:36-42 | whatever "ready" triggers, the roster is unchanged and the state stays well formed |
| Room.SecretHitlerRoom.Ready | server/src/rooms/SecretHitlerRoom.ts:36-42 | the fields change as the ready step says, and the state stays well formed |
| Room.SecretHitlerRoom.CheckAllReady | server/src/rooms/SecretHitlerRoom.ts:85-92 | the game starts exactly when every player is ready and at least five are connected; otherwise nothing changes |
| Rules.StartGameOpensNomination | server/src/rooms/SecretHitlerRoom.ts:94-100 | starting a game lays out a 17-tile deck (6 liberal, 11 fascist), empties the discard pile and opens the nomination. The new president is `getNextPresidentId()` of the old one: a seated player, and the first seat when there was no president. The tracker, the enacted policies, the chancellor and the previous government are unchanged. The role messages come first and then the public roster, and the state stays well formed |
| Rules.StartGameDealsRoles | server/src/rooms/SecretHitlerRoom.ts:94-113 | at a table of five or more, the seated players receive exactly one Hitler, `NumFascists(n) - 1` fascists and liberals for every other seat; only the role changes in each record |
| Room.SecretHitlerRoom.StartGame | server/src/rooms/SecretHitlerRoom.ts:94-100 | the fields change as the start step says, and the state stays well formed |
| Room.SecretHitlerRoom.OpenNomination | server/src/rooms/SecretHitlerRoom.ts:97-99 | the phase becomes nomination, the presidency passes on and the public roster is broadcast |
| Rules.AssignRolesKeepsTable | server/src/rooms/SecretHitlerRoom.ts:102-113 | dealing changes nothing but the roles, sends each player their own role in roster order, and keeps the state well formed |
| Rules.AssignRolesFollowsRoster | server/src/rooms/SecretHitlerRoom.ts:102-107 | the player in seat `k` gets role `k` of the shuffled pool |
| Rules.DealtRolesFitTable | server/src/rooms/SecretHitlerRoom.ts:103-107 | from two players up, the shuffled pool is exactly one role per seat, with one Hitler and `NumFascists(n) - 1` fascists |
| Room.DealToSeats | server/src/rooms/SecretHitlerRoom.ts:104-112 | the loop over the player ids sets each seat's role and queues that player's private message, exactly as the dealing function and the message list say |
| Room.SecretHitlerRoom.AssignRoles | server/src/rooms/SecretHitlerRoom.ts:102-113 | the fields change as the dealing step says, and the state stays well formed |
| Rules.NominateOpensVote | server/src/rooms/SecretHitlerRoom.ts:44-54 | only the president, during the nomination, opens a vote. The named id (checked against nothing) becomes chancellor, every ballot is cleared with nothing else in the records changing, and the nominee is announced. The president, the piles, the tracker and the previous government are unchanged. Any other "nominate" changes nothing |
| Room.SecretHitlerRoom.Nominate | server/src/rooms/SecretHitlerRoom.ts:44-54 | the fields change as the nominate step says, and the state stays well formed |
| Room.SecretHitlerRoom.ResetVotes | server/src/rooms/SecretHitlerRoom.ts:167-172 | the loop over the players sets every record to not voted and Nein, and leaves the rest of each record alone |
| Rules.FreshVoteIsOpen | server/src/rooms/SecretHitlerRoom.ts:167-177 | right after the ballots are cleared, the vote cannot be complete while anyone is alive |
| Rules.CastCompletes | server/src/rooms/SecretHitlerRoom.ts:56-63 | recording a ballot keeps the state well formed; afterwards everyone has voted exactly when no other living player is still to vote |
| Rules.VoteCastsBallot | server/src/rooms/SecretHitlerRoom.ts:56-63 | only a seated player who has not voted yet, during the vote, has a ballot counted; any other "vote" changes nothing. A counted ballot is recorded, and the vote stays open exactly while some other living player has not voted |
| Rules.VoteOnce | server/src/rooms/SecretHitlerRoom.ts:56-63 | voting is idempotent: a player's second "vote" in the same election changes nothing, whatever its ballot |
| Room.SecretHitlerRoom.Vote | server/src/rooms/SecretHitlerRoom.ts:56-63 | the fields change as the vote step says, and the state stays well formed |
| Room.SecretHitlerRoom.CheckVotingComplete | server/src/rooms/SecretHitlerRoom.ts:174-200 | the counting in the method (living votes, Ja count, Nein as the rest) reaches the same outcome as the election step, and the state stays well formed |
| Rules.SerializeListsRoster | server/src/rooms/SecretHitlerRoom.ts:215-221 | the public roster lists each seated player exactly once, under their own id, with their name and death flag, and no role |
| Entities.RepeatCount | server/src/rooms/SecretHitlerRoom.ts:146-149 | `Array(k).fill(x)` holds `k` copies of `x` and nothing else |

## Step functions

The functions below define each handler's effect on the state. Their own
contracts say no more than their callers need; the rows above state their
properties.

- `Rules.Join` (`onJoin`, lines 68-78), `Rules.DisplayName` (line 71), `Rules.NewPlayer` (lines 69-70)
- `Rules.Leave` (`onLeave`, lines 80-83)
- `Rules.Ready` ("ready", lines 36-42), `Rules.CheckAllReady` (lines 85-92)
- `Rules.StartGame` (lines 94-100), `Rules.OpenNomination` (lines 97-99)
- `Rules.AssignRoles` (lines 102-113), `Rules.DealtRoles` (lines 103, 115-137), `Rules.DealRoles` and `Rules.RoleMessages` (lines 104-112)
- `Setup.RolePool` (lines 116-129), `Setup.InitialDeck` (lines 146-149), `Rules.PreparePolicyDeck` (lines 145-157)
- `Election.NextPresidentId` (lines 159-165)
- `Rules.Nominate` ("nominate", lines 44-54), `Rules.ResetVotes` and `Rules.ClearVotes` (lines 167-172)
- `Rules.Vote` and `Rules.Cast` ("vote", lines 56-63)
- `Rules.CheckVotingComplete` (lines 174-200), `Rules.FailElection` (lines 190-196), `Election.AllVoted`, `Election.LivingVotes`, `Election.JaCount` and `Election.ElectionWon` (lines 175-185)
- `Rules.StartLegislativeSession` (lines 202-211)
- `Rules.SerializePlayers` (lines 215-221)

## Left out

- Message delivery: `broadcast` and `send` become entries appended to an `events` log, and a private message addresses its player by id. Colyseus state synchronisation and the schema decorators are not modelled.
- Randomness: `Math.random` is replaced by the `Draws` sequence. Each draw `i` is some index `j <= i`, which is exactly the range that `Math.floor(Math.random() * (i + 1))` produces.
- Framework guarantees are taken as preconditions: session ids are non-empty and unique, joins beyond `maxClients = 10` are refused, and the client list matches the roster.
- Room.SecretHitlerRoom.OnJoin: the number of connected clients used in the default name is a parameter; the framework's client list is not part of this model.
- Message payloads are typed: the "vote" payload is a boolean and the "nominate" payload is an id string. Arbitrary JSON payloads are not modelled.
- The election tracker is an unbounded natural number; the floating-point range of a JavaScript number is not modelled.
- The source never writes `lastPresidentId`, `lastChancellorId`, the enacted-policy piles, the discard pile after setup, or `isDead`. The model carries these fields and leaves them unchanged in the same places.
- The game rules the source does not yet implement: the chancellor's discard and enactment, the veto, chaos when the tracker reaches three, executive actions and win conditions. The comments at lines 65, 197, 210 and 213 mark the legislative steps, the tracker at three, executive actions and the end of the game as future work. Term limits are not mentioned anywhere in the source.
- The written rules disagree with the code in places: the tracker is not reset after a successful election, and no term limit is checked. The model follows the code.
- The client (`client/src/`) and the test file (`server/test/`) are not part of this model.
