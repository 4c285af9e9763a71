/** The room's state and what each handler does to it, as pure functions from
    the state before a message to the state after it. The room class is
    proved against these functions; the properties of the game are lemmas
    about them. */
module Rules {
  import opened Entities
  import opened Shuffling
  import opened Setup
  import opened Election

  /** The room's seat limits: joins beyond ten are refused by the framework,
      and a game needs five connected clients to start. */
  const MaxClients: nat := 10
  const MinClients: nat := 5

  /** The synchronised room state. `order` is the iteration order of the
      player map (the order in which the players joined); `events` is every
      message the room has sent, in order. */
  datatype GameState = GameState(
    order: seq<Id>,
    players: map<Id, Player>,
    drawPile: seq<Policy>,
    discardPile: seq<Policy>,
    enactedLiberalPolicies: seq<Policy>,
    enactedFascistPolicies: seq<Policy>,
    electionTracker: nat,
    phase: Phase,
    presidentId: Id,
    chancellorId: Id,
    lastPresidentId: Id,
    lastChancellorId: Id,
    events: seq<Event>)

  /** The shape every reachable state has: the roster lists each key of the
      player map exactly once, no session id is empty, each record carries
      its own key, there are never more than ten players, and nobody holds
      the presidency while the room is still waiting for its first game. */
  ghost predicate Valid(s: GameState) {
    && Distinct(s.order)
    && "" !in s.order
    && |s.order| <= MaxClients
    && (forall id :: id in s.players <==> id in s.order)
    && (forall id | id in s.players :: s.players[id].id == id)
    && (s.phase == Waiting ==> s.presidentId == "")
  }

  /** Everything but the roster, the player records and the outbox is as in `s`. */
  ghost predicate SameTable(s: GameState, t: GameState) {
    && t.drawPile == s.drawPile
    && t.discardPile == s.discardPile
    && t.enactedLiberalPolicies == s.enactedLiberalPolicies
    && t.enactedFascistPolicies == s.enactedFascistPolicies
    && t.electionTracker == s.electionTracker
    && t.phase == s.phase
    && t.presidentId == s.presidentId
    && t.chancellorId == s.chancellorId
    && t.lastPresidentId == s.lastPresidentId
    && t.lastChancellorId == s.lastChancellorId
  }

  /** The discard pile, the enacted policies and the previous government are as in `s`. */
  ghost predicate KeepsHistory(s: GameState, t: GameState) {
    && t.discardPile == s.discardPile
    && t.enactedLiberalPolicies == s.enactedLiberalPolicies
    && t.enactedFascistPolicies == s.enactedFascistPolicies
    && t.lastPresidentId == s.lastPresidentId
    && t.lastChancellorId == s.lastChancellorId
  }

  /** A freshly created room: nobody seated, empty piles, waiting. */
  function Initial(): (s: GameState)
    ensures Valid(s)
    ensures s.phase == Waiting && s.order == [] && s.players == map[] && s.events == []
    ensures s.presidentId == "" && s.chancellorId == "" && s.electionTracker == 0
    ensures s.drawPile == [] && s.discardPile == []
    ensures s.enactedLiberalPolicies == [] && s.enactedFascistPolicies == []
    ensures s.lastPresidentId == "" && s.lastChancellorId == ""
  {
    GameState([], map[], [], [], [], [], 0, Waiting, "", "", "", "", [])
  }

  /** The number a string of decimal digits spells, most significant digit first. */
  function DigitsValue(r: string): nat
    requires forall i | 0 <= i < |r| :: '0' <= r[i] <= '9'
    decreases |r|
  {
    if |r| == 0 then 0
    else DigitsValue(r[..|r| - 1]) * 10 + (r[|r| - 1] as int - '0' as int)
  }

  /** A natural number in decimal, as a template literal prints it: the
      digits spell `n` and there is no leading zero. */
  function NatToString(n: nat): (r: string)
    ensures |r| > 0
    ensures forall i | 0 <= i < |r| :: '0' <= r[i] <= '9'
    ensures DigitsValue(r) == n
    ensures r[0] == '0' ==> r == "0"
    decreases n
  {
    var digit := ('0' as int + n % 10) as char;
    if n < 10 then [digit]
    else
      var prefix := NatToString(n / 10);
      assert (prefix + [digit])[..|prefix|] == prefix;
      prefix + [digit]
  }

  /** The player record a join creates: no role, alive, not ready, no vote. */
  function NewPlayer(id: Id, username: string): Player {
    Player(id, username, Unassigned, false, false, false, false)
  }

  /** The name a joining client gets: the one it asked for, or, when it asked
      for none (or for the empty name), `Player` followed by the number of
      connected clients. */
  function DisplayName(username: string, clientCount: nat): string {
    if username == "" then "Player" + NatToString(clientCount) else username
  }

  /** `onJoin`: seat a new player under the session id and announce it. Setting
      an existing key of a map keeps its position, so a repeated id is not
      appended to the roster again. */
  function Join(s: GameState, id: Id, username: string, clientCount: nat): GameState {
    var name := DisplayName(username, clientCount);
    s.(order := if id in s.players then s.order else s.order + [id],
       players := s.players[id := NewPlayer(id, name)],
       events := s.events + [PlayerJoined(id, name)])
  }

  /** Reference definition of the roster after a departure: every seat but `id`'s,
      in the same order. */
  function Without(order: seq<Id>, id: Id): seq<Id> {
    if |order| == 0 then []
    else (if order[0] == id then [] else [order[0]]) + Without(order[1..], id)
  }

  /** `onLeave`: remove the player record (deleting a map key closes the gap in
      the iteration order) and announce the departure, even for an id that had
      no record. */
  function Leave(s: GameState, id: Id): GameState {
    var k := IndexOf(s.order, id);
    s.(order := if k < 0 then s.order else s.order[..k] + s.order[k + 1..],
       players := s.players - {id},
       events := s.events + [PlayerLeft(id)])
  }

  /** A join by a client with a non-empty session id, while the room has a free
      seat, seats a fresh record under that id at the end of the roster (or in
      place, for an id already seated) and announces it under its display name;
      nobody else and nothing else changes, and the state stays well formed. */
  lemma JoinSeatsPlayer(s: GameState, id: Id, username: string, clientCount: nat)
    requires Valid(s)
    requires id != "" && (id in s.players || |s.order| < MaxClients)
    ensures var t := Join(s, id, username, clientCount);
      && Valid(t)
      && SameTable(s, t)
      && t.players[id] == NewPlayer(id, DisplayName(username, clientCount))
      && (username != "" ==> t.players[id].username == username)
      && (forall x | x != id :: (x in t.players <==> x in s.players))
      && (forall x | x != id && x in s.players :: t.players[x] == s.players[x])
      && t.order == (if id in s.players then s.order else s.order + [id])
      && t.events == s.events + [PlayerJoined(id, t.players[id].username)]
  {
    var t := Join(s, id, username, clientCount);
    if id !in s.players {
      forall i, j | 0 <= i < j < |t.order|
        ensures t.order[i] != t.order[j]
      {
        if j == |s.order| {
          assert t.order[i] == s.order[i];
        }
      }
    }
  }

  lemma {:induction false} WithoutAbsent(order: seq<Id>, id: Id)
    requires id !in order
    ensures Without(order, id) == order
  {
    if |order| > 0 {
      WithoutAbsent(order[1..], id);
      assert order == [order[0]] + order[1..];
    }
  }

  lemma {:induction false} RemoveAtIsWithout(order: seq<Id>, id: Id, k: nat)
    requires Distinct(order) && k < |order| && order[k] == id
    ensures order[..k] + order[k + 1..] == Without(order, id)
  {
    HeadNotInTail(order);
    if k == 0 {
      WithoutAbsent(order[1..], id);
    } else {
      RemoveAtIsWithout(order[1..], id, k - 1);
      assert order[1..][..k - 1] + order[1..][k..] == Without(order[1..], id);
      assert order[..k] + order[k + 1..] == [order[0]] + (order[1..][..k - 1] + order[1..][k..]);
    }
  }

  lemma {:induction false} WithoutMembers(order: seq<Id>, id: Id)
    ensures forall x :: x in Without(order, id) <==> x in order && x != id
  {
    if |order| > 0 {
      WithoutMembers(order[1..], id);
      assert order == [order[0]] + order[1..];
    }
  }

  lemma {:induction false} WithoutDistinct(order: seq<Id>, id: Id)
    requires Distinct(order)
    ensures Distinct(Without(order, id))
  {
    if |order| > 0 {
      HeadNotInTail(order);
      WithoutDistinct(order[1..], id);
      WithoutMembers(order[1..], id);
      var rest := Without(order[1..], id);
      if order[0] != id {
        var w := [order[0]] + rest;
        forall i, j | 0 <= i < j < |w|
          ensures w[i] != w[j]
        {
          if i == 0 {
            assert w[j] == rest[j - 1];
            assert rest[j - 1] in rest;
          } else {
            assert w[i] == rest[i - 1] && w[j] == rest[j - 1];
          }
        }
      }
    }
  }

  /** A departure unseats the id (whether or not it was seated) and announces
      it; the other players keep their records and their order, nothing else
      changes, and the state stays well formed. */
  lemma LeaveUnseats(s: GameState, id: Id)
    requires Valid(s)
    ensures var t := Leave(s, id);
      && Valid(t)
      && SameTable(s, t)
      && id !in t.players
      && (forall x | x != id :: (x in t.players <==> x in s.players))
      && (forall x | x != id && x in s.players :: t.players[x] == s.players[x])
      && t.order == Without(s.order, id)
      && |t.order| == (if id in s.players then |s.order| - 1 else |s.order|)
      && t.events == s.events + [PlayerLeft(id)]
  {
    var t := Leave(s, id);
    var k := IndexOf(s.order, id);
    if k < 0 {
      WithoutAbsent(s.order, id);
    } else {
      RemoveAtIsWithout(s.order, id, k);
    }
    WithoutMembers(s.order, id);
    WithoutDistinct(s.order, id);
  }

  /** Every seated player has sent "ready" (vacuously so at an empty table). */
  predicate AllReady(players: map<Id, Player>) {
    forall id | id in players :: players[id].ready
  }

  /** Every record, with the ballot cleared: not voted, and Nein. */
  function ClearVotes(players: map<Id, Player>): map<Id, Player> {
    map id | id in players :: players[id].(hasVoted := false, vote := false)
  }

  /** Seat `k` of the roster gets role `k` of the dealt sequence. */
  function DealRoles(players: map<Id, Player>, order: seq<Id>, roles: seq<Role>): map<Id, Player>
    requires |order| <= |roles|
  {
    map id | id in players ::
      var k := IndexOf(order, id);
      if k < 0 then players[id] else players[id].(role := roles[k])
  }

  /** The private role messages, one per seat in roster order. */
  function RoleMessages(order: seq<Id>, roles: seq<Role>): seq<Event>
    requires |order| <= |roles|
  {
    seq(|order|, i requires 0 <= i < |order| => RoleAssignment(order[i], roles[i]))
  }

  /** The public view of the table: id, name and whether dead, in roster order. */
  function SerializePlayers(order: seq<Id>, players: map<Id, Player>): seq<PublicPlayer>
    requires Seated(order, players)
  {
    seq(|order|, i requires 0 <= i < |order| =>
      var p := players[order[i]];
      PublicPlayer(p.id, p.username, p.isDead))
  }

  /** Entry `i` of the public roster describes the player in seat `i`. */
  lemma SerializedSeats(order: seq<Id>, players: map<Id, Player>)
    requires Seated(order, players)
    requires forall id | id in players :: players[id].id == id
    ensures var r := SerializePlayers(order, players);
      && |r| == |order|
      && (forall i | 0 <= i < |r| :: r[i].id == order[i])
      && (forall i | 0 <= i < |r| ::
            r[i].username == players[order[i]].username && r[i].isDead == players[order[i]].isDead)
  {
  }

  /** The public roster lists every seated player exactly once, under the
      player's own id and with that player's name and death flag; roles stay
      private. */
  lemma SerializeListsRoster(s: GameState)
    requires Valid(s)
    ensures Seated(s.order, s.players)
    ensures var r := SerializePlayers(s.order, s.players);
      && |r| == |s.players|
      && (forall id :: id in s.players <==> exists i | 0 <= i < |r| :: r[i].id == id)
      && (forall i, j | 0 <= i < j < |r| :: r[i].id != r[j].id)
      && (forall i | 0 <= i < |r| ::
            r[i].username == s.players[r[i].id].username && r[i].isDead == s.players[r[i].id].isDead)
  {
    var order, players := s.order, s.players;
    assert Seated(order, players);
    var r := SerializePlayers(order, players);
    SerializedSeats(order, players);
    forall id | id in players
      ensures exists i | 0 <= i < |r| :: r[i].id == id
    {
      var i :| 0 <= i < |order| && order[i] == id;
      assert r[i].id == id;
    }
    assert |r| == |players| by {
      assert players.Keys == set id | id in order;
      DistinctCard(order);
    }
  }

  /** The roles of the seated players, in roster order. */
  function RolesOf(order: seq<Id>, players: map<Id, Player>): seq<Role>
    requires Seated(order, players)
  {
    seq(|order|, i requires 0 <= i < |order| => players[order[i]].role)
  }

  /** The role pool of a well-formed table is never larger than ten and covers every seat. */
  lemma PoolFitsTable(n: nat)
    requires n <= MaxClients
    ensures n <= |RolePool(n)| <= MaxClients
  {
    RolePoolCounts(n);
  }

  /** The roles `generateRoles` returns for a table of `n`: the pool, shuffled. */
  function DealtRoles(n: nat, roleDraws: Draws): (roles: seq<Role>)
    requires n <= MaxClients <= |roleDraws|
    ensures n <= |roles|
  {
    PoolFitsTable(n);
    ShufflePermutes(RolePool(n), roleDraws);
    Shuffle(RolePool(n), roleDraws)
  }

  /** `assignRoles`: deal the shuffled pool (sized by the number of connected
      clients) to the seats in roster order and tell each player their role. */
  function AssignRoles(s: GameState, roleDraws: Draws): GameState
    requires Valid(s) && MaxClients <= |roleDraws|
  {
    var roles := DealtRoles(|s.order|, roleDraws);
    s.(players := DealRoles(s.players, s.order, roles),
       events := s.events + RoleMessages(s.order, roles))
  }

  /** `preparePolicyDeck`: a freshly shuffled 17-tile draw pile and an empty discard pile. */
  function PreparePolicyDeck(s: GameState, deckDraws: Draws): GameState
    requires DeckSize <= |deckDraws|
  {
    s.(drawPile := Shuffle(InitialDeck(), deckDraws), discardPile := [])
  }

  /** The end of `startGame`: open the nomination, pass the presidency on and
      broadcast the table. */
  function OpenNomination(s: GameState): GameState
    requires Seated(s.order, s.players) && |s.order| > 0
  {
    var chosen := s.(phase := Nomination, presidentId := NextPresidentId(s.order, s.presidentId));
    chosen.(events := chosen.events + [GameStarted(SerializePlayers(chosen.order, chosen.players))])
  }

  /** `startGame`: deal roles, prepare the deck, open the nomination, pass the
      presidency on and broadcast the table. */
  function StartGame(s: GameState, roleDraws: Draws, deckDraws: Draws): GameState
    requires Valid(s) && MinClients <= |s.order|
    requires MaxClients <= |roleDraws| && DeckSize <= |deckDraws|
  {
    OpenNomination(PreparePolicyDeck(AssignRoles(s, roleDraws), deckDraws))
  }

  /** The first half of the "ready" handler: flag the sender's record. */
  function MarkReady(s: GameState, sender: Id): (t: GameState)
    requires Valid(s) && sender in s.players
    ensures Valid(t) && t.order == s.order && t.phase == s.phase && t.presidentId == s.presidentId
    ensures t.players.Keys == s.players.Keys && t.players[sender] == s.players[sender].(ready := true)
    ensures forall id | id in s.players && id != sender :: t.players[id] == s.players[id]
    ensures t == s.(players := t.players)
  {
    s.(players := s.players[sender := s.players[sender].(ready := true)])
  }

  /** `checkAllReady`: start once every player is ready and at least five clients are connected. */
  function CheckAllReady(s: GameState, roleDraws: Draws, deckDraws: Draws): GameState
    requires Valid(s)
    requires MaxClients <= |roleDraws| && DeckSize <= |deckDraws|
  {
    if AllReady(s.players) && MinClients <= |s.order| then StartGame(s, roleDraws, deckDraws) else s
  }

  /** The "ready" handler: a seated sender is marked ready and the room checks
      whether to start; there is no phase check. */
  function Ready(s: GameState, sender: Id, roleDraws: Draws, deckDraws: Draws): GameState
    requires Valid(s)
    requires MaxClients <= |roleDraws| && DeckSize <= |deckDraws|
  {
    if sender in s.players then CheckAllReady(MarkReady(s, sender), roleDraws, deckDraws) else s
  }

  /** `resetVotes`: clear every ballot. */
  function ResetVotes(s: GameState): GameState {
    s.(players := ClearVotes(s.players))
  }

  /** The "nominate" handler: only the president, and only during the
      nomination, names a chancellor (any id at all) and opens the vote. */
  function Nominate(s: GameState, sender: Id, chancellorId: Id): GameState {
    if sender == s.presidentId && s.phase == Nomination then
      var named := s.(chancellorId := chancellorId, phase := Voting);
      var cleared := ResetVotes(named);
      cleared.(events := cleared.events + [VotingStarted(chancellorId)])
    else s
  }

  /** `startLegislativeSession`: take up to three tiles off the top of the draw
      pile and send them to the president, if the president is connected. */
  function StartLegislativeSession(s: GameState): GameState {
    var k := if |s.drawPile| < 3 then |s.drawPile| else 3;
    var drawn := s.drawPile[..k];
    var t := s.(drawPile := s.drawPile[k..]);
    if t.presidentId in t.players then t.(events := t.events + [PresidentPolicies(t.presidentId, drawn)])
    else t
  }

  /** The failed-election branch of `checkVotingComplete`: advance the
      tracker, pass the presidency on, reopen the nomination and announce the
      new tracker value. */
  function FailElection(s: GameState): GameState
    requires |s.order| > 0
  {
    var counted := s.(electionTracker := s.electionTracker + 1);
    var passed := counted.(presidentId := NextPresidentId(counted.order, counted.presidentId), phase := Nomination);
    passed.(events := passed.events + [ElectionFailed(passed.electionTracker)])
  }

  /** `checkVotingComplete`: once every living player has voted, a Ja majority
      opens the legislative session; anything else fails the election, advances
      the tracker and the presidency, and reopens the nomination. */
  function CheckVotingComplete(s: GameState): GameState
    requires Valid(s) && |s.order| > 0
  {
    if !AllVoted(s.order, s.players) then s
    else if ElectionWon(s.order, s.players) then StartLegislativeSession(s.(phase := Legislative))
    else FailElection(s)
  }

  /** The ballot with the sender's vote recorded. */
  function Cast(s: GameState, sender: Id, ballot: bool): GameState
    requires sender in s.players
  {
    s.(players := s.players[sender := s.players[sender].(hasVoted := true, vote := ballot)])
  }

  /** The "vote" handler: a seated player who has not voted yet, during the
      vote, casts a ballot (dead players included) and the room checks the tally. */
  function Vote(s: GameState, sender: Id, ballot: bool): GameState
    requires Valid(s)
  {
    if sender in s.players && s.phase == Voting && !s.players[sender].hasVoted then
      CheckVotingComplete(Cast(s, sender, ballot))
    else s
  }

  /** Dealing changes nothing but the roles, tells each seated player their
      own role in roster order, and keeps the state well formed. */
  lemma AssignRolesKeepsTable(s: GameState, roleDraws: Draws)
    requires Valid(s) && MaxClients <= |roleDraws|
    ensures var t := AssignRoles(s, roleDraws);
      && Valid(t)
      && SameTable(s, t)
      && t.order == s.order
      && t.players.Keys == s.players.Keys
      && (forall id | id in s.players :: t.players[id] == s.players[id].(role := t.players[id].role))
      && t.events == s.events + RoleMessages(s.order, DealtRoles(|s.order|, roleDraws))
  {
  }

  /** Seat `k` of the roster gets role `k` of the shuffled pool. */
  lemma AssignRolesFollowsRoster(s: GameState, roleDraws: Draws)
    requires Valid(s) && MaxClients <= |roleDraws|
    ensures var t := AssignRoles(s, roleDraws);
      Seated(s.order, t.players) && RolesOf(s.order, t.players) == DealtRoles(|s.order|, roleDraws)[..|s.order|]
  {
    var n := |s.order|;
    var roles := DealtRoles(n, roleDraws);
    var t := AssignRoles(s, roleDraws);
    forall i | 0 <= i < n
      ensures t.players[s.order[i]].role == roles[i]
    {
      IndexOfDistinct(s.order, i);
    }
  }

  /** At a table of at least two, the pool is exactly one role per seat, and
      the message list tells every seat its role. */
  lemma DealtRolesFitTable(n: nat, roleDraws: Draws)
    requires 2 <= n <= MaxClients <= |roleDraws|
    ensures var roles := DealtRoles(n, roleDraws);
      && |roles| == n
      && roles[..n] == roles
      && multiset(roles)[Hitler] == 1
      && multiset(roles)[Fascist] == NumFascists(n) - 1
      && multiset(roles)[Liberal] == n - NumFascists(n)
      && multiset(roles)[Unassigned] == 0
  {
    ShuffledRoleCounts(n, roleDraws);
  }

  /** Starting a game at a table of five or more deals exactly one Hitler,
      `NumFascists(n) - 1` other fascists and liberals for every other seat,
      and touches nothing else in the player records. */
  lemma StartGameDealsRoles(s: GameState, roleDraws: Draws, deckDraws: Draws)
    requires Valid(s) && MinClients <= |s.order|
    requires MaxClients <= |roleDraws| && DeckSize <= |deckDraws|
    ensures var t := StartGame(s, roleDraws, deckDraws);
      var n := |s.order|;
      && Seated(s.order, t.players)
      && t.players.Keys == s.players.Keys
      && (forall id | id in s.players :: t.players[id] == s.players[id].(role := t.players[id].role))
      && multiset(RolesOf(s.order, t.players))[Hitler] == 1
      && multiset(RolesOf(s.order, t.players))[Fascist] == NumFascists(n) - 1
      && multiset(RolesOf(s.order, t.players))[Liberal] == n - NumFascists(n)
      && multiset(RolesOf(s.order, t.players))[Unassigned] == 0
  {
    var t := StartGame(s, roleDraws, deckDraws);
    var dealt := AssignRoles(s, roleDraws);
    AssignRolesKeepsTable(s, roleDraws);
    AssignRolesFollowsRoster(s, roleDraws);
    DealtRolesFitTable(|s.order|, roleDraws);
    assert t.players == dealt.players;
  }

  /** Starting a game lays out a shuffled deck of six liberal and eleven
      fascist tiles with an empty discard pile, opens the nomination under the
      next president (the first seat when there was none), leaves the tracker,
      the enacted policies and the chancellor alone, tells each player their
      role and then broadcasts the table; the state stays well formed. */
  lemma StartGameOpensNomination(s: GameState, roleDraws: Draws, deckDraws: Draws)
    requires Valid(s) && MinClients <= |s.order|
    requires MaxClients <= |roleDraws| && DeckSize <= |deckDraws|
    ensures var t := StartGame(s, roleDraws, deckDraws);
      && Valid(t)
      && t.order == s.order
      && |t.drawPile| == DeckSize
      && multiset(t.drawPile)[LiberalPolicy] == LiberalTiles
      && multiset(t.drawPile)[FascistPolicy] == FascistTiles
      && t.discardPile == []
      && t.phase == Nomination
      && t.presidentId == NextPresidentId(s.order, s.presidentId)
      && t.presidentId in t.order
      && (s.presidentId == "" ==> t.presidentId == s.order[0])
      && t.chancellorId == s.chancellorId
      && t.lastPresidentId == s.lastPresidentId
      && t.lastChancellorId == s.lastChancellorId
      && t.electionTracker == s.electionTracker
      && t.enactedLiberalPolicies == s.enactedLiberalPolicies
      && t.enactedFascistPolicies == s.enactedFascistPolicies
      && t.events == s.events + RoleMessages(s.order, DealtRoles(|s.order|, roleDraws))
                     + [GameStarted(SerializePlayers(t.order, t.players))]
  {
    AssignRolesKeepsTable(s, roleDraws);
    ShuffledDeckCounts(deckDraws);
    NextPresidentIsNextSeat(s.order, s.presidentId);
  }

  /** From the lobby, a "ready" starts the game exactly when its sender is
      seated, the table has at least five players and every other player is
      already ready. The game then starts from the table with the sender
      marked ready, and the first seat presides. Otherwise at most the
      sender's flag changes. */
  lemma StartsOnlyWhenAllReady(s: GameState, sender: Id, roleDraws: Draws, deckDraws: Draws)
    requires Valid(s) && s.phase == Waiting
    requires MaxClients <= |roleDraws| && DeckSize <= |deckDraws|
    ensures var t := Ready(s, sender, roleDraws, deckDraws);
      && (t.phase != Waiting <==>
            && sender in s.players
            && MinClients <= |s.order|
            && (forall id | id in s.players && id != sender :: s.players[id].ready))
      && (t.phase == Waiting ==>
            && SameTable(s, t)
            && t.order == s.order
            && t.events == s.events
            && t.players.Keys == s.players.Keys
            && (forall id | id in s.players && id != sender :: t.players[id] == s.players[id])
            && (sender in s.players ==> t.players[sender] == s.players[sender].(ready := true)))
    ensures var t := Ready(s, sender, roleDraws, deckDraws);
      t.phase != Waiting ==>
        && sender in s.players
        && MinClients <= |s.order|
        && t == StartGame(MarkReady(s, sender), roleDraws, deckDraws)
        && t.phase == Nomination
        && t.presidentId == s.order[0]
  {
    if sender in s.players {
      var marked := MarkReady(s, sender);
      if forall id | id in s.players && id != sender :: s.players[id].ready {
        forall id | id in marked.players
          ensures marked.players[id].ready
        {
          if id != sender {
            assert marked.players[id] == s.players[id];
          }
        }
      } else {
        var id :| id in s.players && id != sender && !s.players[id].ready;
        assert marked.players[id] == s.players[id];
      }
      if AllReady(marked.players) && MinClients <= |marked.order| {
        StartGameOpensNomination(marked, roleDraws, deckDraws);
      }
    }
  }

  /** "ready" is not tied to the lobby: once a game of five or more is under
      way and every other player is ready, any seated player's "ready" (a
      repeated one, or the first one of a player who joined mid-game) deals
      new roles and a new deck and reopens the nomination. */
  lemma ReadyRestartsMidGame(s: GameState, sender: Id, roleDraws: Draws, deckDraws: Draws)
    requires Valid(s) && s.phase != Waiting
    requires sender in s.players && MinClients <= |s.order|
    requires forall id | id in s.players && id != sender :: s.players[id].ready
    requires MaxClients <= |roleDraws| && DeckSize <= |deckDraws|
    ensures Ready(s, sender, roleDraws, deckDraws) == StartGame(MarkReady(s, sender), roleDraws, deckDraws)
    ensures Ready(s, sender, roleDraws, deckDraws).phase == Nomination
  {
    var marked := MarkReady(s, sender);
    forall id | id in marked.players
      ensures marked.players[id].ready
    {
      if id != sender {
        assert marked.players[id] == s.players[id];
      }
    }
    StartGameOpensNomination(marked, roleDraws, deckDraws);
  }

  /** Only the president, during the nomination, opens a vote: the named id
      (checked against nothing) becomes chancellor, every ballot is cleared and
      everyone hears who is standing. Any other "nominate" changes nothing. */
  lemma NominateOpensVote(s: GameState, sender: Id, chancellorId: Id)
    requires Valid(s)
    ensures var t := Nominate(s, sender, chancellorId);
      && Valid(t)
      && (sender == s.presidentId && s.phase == Nomination ==>
            && t.phase == Voting
            && t.chancellorId == chancellorId
            && t.presidentId == s.presidentId
            && t.order == s.order
            && t.players.Keys == s.players.Keys
            && (forall id | id in t.players ::
                  && !t.players[id].hasVoted
                  && !t.players[id].vote
                  && t.players[id].(hasVoted := s.players[id].hasVoted, vote := s.players[id].vote) == s.players[id])
            && t.drawPile == s.drawPile
            && t.electionTracker == s.electionTracker
            && KeepsHistory(s, t)
            && t.events == s.events + [VotingStarted(chancellorId)])
      && (sender != s.presidentId || s.phase != Nomination ==> t == s)
  {
  }

  /** Before anyone has voted, no tally is complete unless every player is dead. */
  lemma FreshVoteIsOpen(s: GameState)
    requires Valid(s)
    requires forall id | id in s.players :: !s.players[id].hasVoted
    requires exists id | id in s.players :: !s.players[id].isDead
    ensures !AllVoted(s.order, s.players)
  {
    var id :| id in s.players && !s.players[id].isDead;
    var i :| 0 <= i < |s.order| && s.order[i] == id;
    assert !(s.players[s.order[i]].isDead || s.players[s.order[i]].hasVoted);
  }

  /** The draw: up to three tiles come off the top of the pile, in order, and
      go to the president when the president is connected; nothing else changes. */
  lemma LegislativeDraw(s: GameState)
    ensures var t := StartLegislativeSession(s);
      var drawn := |s.drawPile| - |t.drawPile|;
      && |t.drawPile| == (if |s.drawPile| < 3 then 0 else |s.drawPile| - 3)
      && s.drawPile == s.drawPile[..drawn] + t.drawPile
      && (s.presidentId in s.players ==>
            t.events == s.events + [PresidentPolicies(s.presidentId, s.drawPile[..drawn])])
      && (s.presidentId !in s.players ==> t.events == s.events)
      && t == s.(drawPile := t.drawPile, events := t.events)
  {
    var t := StartLegislativeSession(s);
    var k := if |s.drawPile| < 3 then |s.drawPile| else 3;
    assert s.drawPile == s.drawPile[..k] + s.drawPile[k..];
  }

  /** Once every living player has voted, the election is decided: it succeeds
      exactly when more living players voted Ja than Nein. Success opens the
      legislative session (the tracker is not reset); failure advances the
      tracker by one, passes the presidency to the next seat and reopens the
      nomination. Until everyone has voted nothing happens. */
  lemma ElectionOutcome(s: GameState)
    requires Valid(s) && |s.order| > 0
    ensures var t := CheckVotingComplete(s);
      && Valid(t)
      && (!AllVoted(s.order, s.players) ==> t == s)
      && (AllVoted(s.order, s.players) ==>
            && t.order == s.order
            && t.players == s.players
            && t.chancellorId == s.chancellorId
            && KeepsHistory(s, t)
            && (t.phase == Legislative <==> |JaVoters(s.order, s.players)| > |NeinVoters(s.order, s.players)|)
            && (t.phase != Legislative ==> t.phase == Nomination))
      && (AllVoted(s.order, s.players) && |JaVoters(s.order, s.players)| > |NeinVoters(s.order, s.players)| ==>
            && t.electionTracker == s.electionTracker
            && t.presidentId == s.presidentId
            && t == StartLegislativeSession(s.(phase := Legislative)))
      && (AllVoted(s.order, s.players) && |JaVoters(s.order, s.players)| <= |NeinVoters(s.order, s.players)| ==>
            && t.electionTracker == s.electionTracker + 1
            && t.presidentId == NextPresidentId(s.order, s.presidentId)
            && t.drawPile == s.drawPile
            && t.events == s.events + [ElectionFailed(t.electionTracker)])
  {
    TallyCounts(s.order, s.players);
  }

  /** Recording a ballot keeps the state well formed; afterwards everyone has
      voted exactly when no other living player is still to vote. */
  lemma CastCompletes(s: GameState, sender: Id, ballot: bool)
    requires Valid(s) && sender in s.players
    ensures Valid(Cast(s, sender, ballot))
    ensures AllVoted(s.order, Cast(s, sender, ballot).players) <==>
              !exists id | id in s.players && id != sender :: !s.players[id].isDead && !s.players[id].hasVoted
  {
    var c := Cast(s, sender, ballot);
    if exists id | id in s.players && id != sender :: !s.players[id].isDead && !s.players[id].hasVoted {
      var id :| id in s.players && id != sender && !s.players[id].isDead && !s.players[id].hasVoted;
      var i :| 0 <= i < |s.order| && s.order[i] == id;
      assert !(c.players[s.order[i]].isDead || c.players[s.order[i]].hasVoted);
    } else {
      forall i | 0 <= i < |s.order|
        ensures c.players[s.order[i]].isDead || c.players[s.order[i]].hasVoted
      {
        if s.order[i] != sender {
          assert c.players[s.order[i]] == s.players[s.order[i]];
        }
      }
    }
  }

  /** A ballot counts only from a seated player who has not voted yet, during
      the vote; any other "vote" changes nothing. A counted ballot is recorded
      and the vote stays open exactly while some other living player has not
      voted yet; the tally then decides the election. */
  lemma VoteCastsBallot(s: GameState, sender: Id, ballot: bool)
    requires Valid(s)
    ensures var t := Vote(s, sender, ballot);
      && Valid(t)
      && t.order == s.order
      && (!(sender in s.players && s.phase == Voting && !s.players[sender].hasVoted) ==> t == s)
      && (sender in s.players && s.phase == Voting && !s.players[sender].hasVoted ==>
            && Valid(Cast(s, sender, ballot))
            && (t.phase == Voting <==>
                  exists id | id in s.players && id != sender :: !s.players[id].isDead && !s.players[id].hasVoted)
            && (t.phase == Voting ==> t == Cast(s, sender, ballot))
            && (t.phase != Voting ==> t == CheckVotingComplete(Cast(s, sender, ballot))))
  {
    if sender in s.players && s.phase == Voting && !s.players[sender].hasVoted {
      CastCompletes(s, sender, ballot);
      ElectionOutcome(Cast(s, sender, ballot));
    }
  }

  /** A player votes at most once per election: repeating the message, with
      any ballot, changes nothing. */
  lemma VoteOnce(s: GameState, sender: Id, ballot: bool, again: bool)
    requires Valid(s)
    ensures Valid(Vote(s, sender, ballot))
    ensures Vote(Vote(s, sender, ballot), sender, again) == Vote(s, sender, ballot)
  {
    VoteCastsBallot(s, sender, ballot);
  }

  /** In any phase, a "ready" sent while the start conditions fail (the sender
      is not seated, fewer than five players, or another player not ready)
      only flags the sender's record, or changes nothing for an unseated sender. */
  lemma ReadyWithoutStartOnlyFlags(s: GameState, sender: Id, roleDraws: Draws, deckDraws: Draws)
    requires Valid(s)
    requires MaxClients <= |roleDraws| && DeckSize <= |deckDraws|
    requires !(&& sender in s.players
               && MinClients <= |s.order|
               && (forall id | id in s.players && id != sender :: s.players[id].ready))
    ensures Ready(s, sender, roleDraws, deckDraws) == (if sender in s.players then MarkReady(s, sender) else s)
  {
  }

  /** Whatever it triggers, a "ready" keeps the state well formed. */
  lemma ReadyKeepsValid(s: GameState, sender: Id, roleDraws: Draws, deckDraws: Draws)
    requires Valid(s)
    requires MaxClients <= |roleDraws| && DeckSize <= |deckDraws|
    ensures Valid(Ready(s, sender, roleDraws, deckDraws))
    ensures Ready(s, sender, roleDraws, deckDraws).order == s.order
  {
    if sender in s.players {
      var marked := MarkReady(s, sender);
      if AllReady(marked.players) && MinClients <= |marked.order| {
        StartGameOpensNomination(marked, roleDraws, deckDraws);
      }
    }
  }

  /** One more role message as the walk over the roster advances a seat. */
  lemma RoleMessagesGrow(ids: seq<Id>, roles: seq<Role>, i: nat)
    requires i < |ids| <= |roles|
    ensures RoleMessages(ids[..i + 1], roles) == RoleMessages(ids[..i], roles) + [RoleAssignment(ids[i], roles[i])]
  {
    assert ids[..i + 1][..i] == ids[..i];
  }

  /** A walk over the whole roster that gave seat `j` role `j` has dealt the roles. */
  lemma DealtByRoster(players: map<Id, Player>, order: seq<Id>, roles: seq<Role>, dealt: map<Id, Player>)
    requires Distinct(order) && |order| <= |roles|
    requires forall id :: id in players <==> id in order
    requires forall id :: id in dealt <==> id in players
    requires forall j | 0 <= j < |order| :: dealt[order[j]] == players[order[j]].(role := roles[j])
    ensures dealt == DealRoles(players, order, roles)
  {
    forall id | id in players
      ensures dealt[id] == DealRoles(players, order, roles)[id]
    {
      var j :| 0 <= j < |order| && order[j] == id;
      IndexOfDistinct(order, j);
    }
  }

  /** A walk over the whole roster that cleared every seat's ballot has cleared them all. */
  lemma ClearedByRoster(players: map<Id, Player>, order: seq<Id>, cleared: map<Id, Player>)
    requires forall id :: id in players <==> id in order
    requires forall id :: id in cleared <==> id in players
    requires forall j | 0 <= j < |order| :: cleared[order[j]] == players[order[j]].(hasVoted := false, vote := false)
    ensures cleared == ClearVotes(players)
  {
    forall id | id in players
      ensures cleared[id] == ClearVotes(players)[id]
    {
      var j :| 0 <= j < |order| && order[j] == id;
    }
  }

  /** Clearing the ballots leaves the roster and the player ids alone. */
  lemma ResetKeepsValid(s: GameState)
    requires Valid(s)
    ensures Valid(ResetVotes(s))
  {
  }

  /** The last steps of a game start and of a failed election touch neither
      the roster nor the player records, so the state stays well formed. */
  lemma TailStepsKeepValid(s: GameState)
    requires Valid(s) && |s.order| > 0
    ensures Valid(OpenNomination(s)) && Valid(FailElection(s))
    ensures Valid(s.(phase := Legislative))
  {
  }
}
