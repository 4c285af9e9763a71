/** The room object itself: the synchronised state as fields that the message
    handlers and the helper methods update in place. Every method is proved to
    leave the fields as the matching function of `Rules` says. */
module Room {
  import opened Entities
  import opened Shuffling
  import opened Setup
  import opened Election
  import Rules

  class SecretHitlerRoom {
    var order: seq<Id>
    var players: map<Id, Player>
    var drawPile: seq<Policy>
    var discardPile: seq<Policy>
    var enactedLiberalPolicies: seq<Policy>
    var enactedFascistPolicies: seq<Policy>
    var electionTracker: nat
    var phase: Phase
    var presidentId: Id
    var chancellorId: Id
    var lastPresidentId: Id
    var lastChancellorId: Id
    var events: seq<Event>

    /** The fields as one value. */
    function State(): Rules.GameState
      reads this
    {
      Rules.GameState(order, players, drawPile, discardPile, enactedLiberalPolicies,
        enactedFascistPolicies, electionTracker, phase, presidentId, chancellorId,
        lastPresidentId, lastChancellorId, events)
    }

    ghost predicate Valid()
      reads this
    {
      Rules.Valid(State())
    }

    /** `onCreate`: a fresh state. */
    constructor ()
      ensures Valid() && State() == Rules.Initial()
    {
      order := [];
      players := map[];
      drawPile := [];
      discardPile := [];
      enactedLiberalPolicies := [];
      enactedFascistPolicies := [];
      electionTracker := 0;
      phase := Waiting;
      presidentId := "";
      chancellorId := "";
      lastPresidentId := "";
      lastChancellorId := "";
      events := [];
    }

    /** `onJoin`; the framework supplies a non-empty session id, refuses joins
        beyond ten clients and reports how many clients are connected. */
    method OnJoin(id: Id, username: string, clientCount: nat)
      requires Valid()
      requires id != "" && (id in players || |order| < Rules.MaxClients)
      modifies this
      ensures Valid() && State() == Rules.Join(old(State()), id, username, clientCount)
    {
      ghost var s0 := State();
      var player := Rules.NewPlayer(id, Rules.DisplayName(username, clientCount));
      if id !in players {
        order := order + [id];
      }
      players := players[id := player];
      events := events + [PlayerJoined(id, player.username)];
      assert State() == Rules.Join(s0, id, username, clientCount);
      assert Valid() by {
        Rules.JoinSeatsPlayer(s0, id, username, clientCount);
      }
    }

    /** `onLeave`. */
    method OnLeave(id: Id)
      requires Valid()
      modifies this
      ensures Valid() && State() == Rules.Leave(old(State()), id)
    {
      ghost var s0 := State();
      var k := IndexOf(order, id);
      if 0 <= k {
        order := order[..k] + order[k + 1..];
      }
      players := players - {id};
      events := events + [PlayerLeft(id)];
      assert State() == Rules.Leave(s0, id);
      assert Valid() by {
        Rules.LeaveUnseats(s0, id);
      }
    }

    /** The "ready" handler. The two draw sequences stand for the random
        numbers the role shuffle and the deck shuffle would take. */
    method Ready(sender: Id, roleDraws: Draws, deckDraws: Draws)
      requires Valid()
      requires Rules.MaxClients <= |roleDraws| && DeckSize <= |deckDraws|
      modifies this
      ensures Valid() && State() == Rules.Ready(old(State()), sender, roleDraws, deckDraws)
    {
      if sender in players {
        var player := players[sender].(ready := true);
        players := players[sender := player];
        CheckAllReady(roleDraws, deckDraws);
      }
    }

    /** `checkAllReady`. */
    method CheckAllReady(roleDraws: Draws, deckDraws: Draws)
      requires Valid()
      requires Rules.MaxClients <= |roleDraws| && DeckSize <= |deckDraws|
      modifies this
      ensures Valid() && State() == Rules.CheckAllReady(old(State()), roleDraws, deckDraws)
    {
      var allReady := Rules.AllReady(players);
      if allReady && Rules.MinClients <= |order| {
        StartGame(roleDraws, deckDraws);
      }
    }

    /** `startGame`. */
    method StartGame(roleDraws: Draws, deckDraws: Draws)
      requires Valid() && Rules.MinClients <= |order|
      requires Rules.MaxClients <= |roleDraws| && DeckSize <= |deckDraws|
      modifies this
      ensures Valid() && State() == Rules.StartGame(old(State()), roleDraws, deckDraws)
    {
      AssignRoles(roleDraws);
      PreparePolicyDeck(deckDraws);
      OpenNomination();
    }

    /** The tail of `startGame`: hand the presidency on, open the nomination
        phase and broadcast the public roster. */
    method OpenNomination()
      requires Valid() && |order| > 0
      modifies this
      ensures Valid() && State() == Rules.OpenNomination(old(State()))
    {
      ghost var s0 := State();
      Rules.TailStepsKeepValid(s0);
      var serialized := Rules.SerializePlayers(order, players);
      phase := Nomination;
      presidentId := NextPresidentId(order, presidentId);
      events := events + [GameStarted(serialized)];
      assert State() == Rules.OpenNomination(s0);
    }

    /** `assignRoles`: deal the roles `generateRoles` returns to the seats. */
    method AssignRoles(roleDraws: Draws)
      requires Valid() && Rules.MaxClients <= |roleDraws|
      modifies this
      ensures Valid() && State() == Rules.AssignRoles(old(State()), roleDraws)
    {
      ghost var s0 := State();
      Rules.PoolFitsTable(|order|);
      var roles := GenerateRoles(|order|, roleDraws);
      assert roles == Rules.DealtRoles(|s0.order|, roleDraws);
      var dealt, messages := DealToSeats(players, order, roles);
      players := dealt;
      events := events + messages;
      assert State() == s0.(players := dealt, events := s0.events + messages);
      assert Valid() by {
        Rules.AssignRolesKeepsTable(s0, roleDraws);
      }
    }

    /** `preparePolicyDeck`: lay out six liberal and eleven fascist tiles,
        shuffle them in place and empty the discard pile. */
    method PreparePolicyDeck(deckDraws: Draws)
      requires Valid() && DeckSize <= |deckDraws|
      modifies this
      ensures Valid() && State() == Rules.PreparePolicyDeck(old(State()), deckDraws)
    {
      var deck := InitialDeck();
      var policies := new Policy[|deck|](k requires 0 <= k < |deck| => deck[k]);
      assert policies[..] == deck;
      ShuffleInPlace(policies, deckDraws);
      drawPile := policies[..];
      discardPile := [];
    }

    /** The "nominate" handler. */
    method Nominate(sender: Id, nominee: Id)
      requires Valid()
      modifies this
      ensures Valid() && State() == Rules.Nominate(old(State()), sender, nominee)
    {
      if sender == presidentId && phase == Nomination {
        chancellorId := nominee;
        phase := Voting;
        ResetVotes();
        events := events + [VotingStarted(nominee)];
      }
    }

    /** `resetVotes`: walk the players and clear each ballot. */
    method ResetVotes()
      requires Valid()
      modifies this
      ensures Valid() && State() == Rules.ResetVotes(old(State()))
    {
      ghost var s0 := State();
      var playerIds := order;
      var ps0 := players;
      assert forall j | 0 <= j < |playerIds| :: playerIds[j] in ps0;
      var ps := ps0;
      var i := 0;
      while i < |playerIds|
        modifies {}
        invariant 0 <= i <= |playerIds|
        invariant forall id :: id in ps <==> id in ps0
        invariant forall j | 0 <= j < i :: ps[playerIds[j]] == ps0[playerIds[j]].(hasVoted := false, vote := false)
        invariant forall j | i <= j < |playerIds| :: ps[playerIds[j]] == ps0[playerIds[j]]
      {
        var player := ps[playerIds[i]].(hasVoted := false, vote := false);
        ps := ps[playerIds[i] := player];
        i := i + 1;
      }
      Rules.ClearedByRoster(ps0, playerIds, ps);
      players := ps;
      assert State() == Rules.ResetVotes(s0);
      assert Valid() by {
        Rules.ResetKeepsValid(s0);
      }
    }

    /** The "vote" handler. */
    method Vote(sender: Id, ballot: bool)
      requires Valid()
      modifies this
      ensures Valid() && State() == Rules.Vote(old(State()), sender, ballot)
    {
      if sender in players && phase == Voting && !players[sender].hasVoted {
        Rules.CastCompletes(State(), sender, ballot);
        var player := players[sender].(hasVoted := true, vote := ballot);
        players := players[sender := player];
        CheckVotingComplete();
      }
    }

    /** `checkVotingComplete`. */
    method CheckVotingComplete()
      requires Valid() && |order| > 0
      modifies this
      ensures Valid() && State() == Rules.CheckVotingComplete(old(State()))
    {
      ghost var s0 := State();
      Rules.TailStepsKeepValid(s0);
      var allVoted := AllVoted(order, players);
      if allVoted {
        var votes := LivingVotes(order, players);
        var jaVotes := JaCount(votes);
        var neinVotes := |votes| - jaVotes;
        assert jaVotes > neinVotes <==> ElectionWon(s0.order, s0.players);
        if jaVotes > neinVotes {
          phase := Legislative;
          assert State() == s0.(phase := Legislative);
          StartLegislativeSession();
        } else {
          electionTracker := electionTracker + 1;
          presidentId := NextPresidentId(order, presidentId);
          phase := Nomination;
          events := events + [ElectionFailed(electionTracker)];
          assert State() == Rules.FailElection(s0);
        }
      }
    }

    /** `startLegislativeSession`. */
    method StartLegislativeSession()
      requires Valid()
      modifies this
      ensures Valid() && State() == Rules.StartLegislativeSession(old(State()))
    {
      var k := if |drawPile| < 3 then |drawPile| else 3;
      var drawnPolicies := drawPile[..k];
      drawPile := drawPile[k..];
      if presidentId in players {
        events := events + [PresidentPolicies(presidentId, drawnPolicies)];
      }
    }
  }

  /** The loop of `assignRoles`: walk the roster, give seat `i` role `i` and
      queue the private message that tells the player. */
  method DealToSeats(players: map<Id, Player>, playerIds: seq<Id>, roles: seq<Role>)
    returns (dealt: map<Id, Player>, messages: seq<Event>)
    requires Distinct(playerIds) && |playerIds| <= |roles|
    requires forall id :: id in players <==> id in playerIds
    requires forall id | id in players :: players[id].id == id
    ensures dealt == Rules.DealRoles(players, playerIds, roles)
    ensures messages == Rules.RoleMessages(playerIds, roles)
  {
    dealt := players;
    messages := [];
    var i := 0;
    while i < |playerIds|
      invariant 0 <= i <= |playerIds|
      invariant forall id :: id in dealt <==> id in players
      invariant forall j | 0 <= j < i :: dealt[playerIds[j]] == players[playerIds[j]].(role := roles[j])
      invariant forall j | i <= j < |playerIds| :: dealt[playerIds[j]] == players[playerIds[j]]
      invariant messages == Rules.RoleMessages(playerIds[..i], roles)
    {
      var player := dealt[playerIds[i]].(role := roles[i]);
      dealt := dealt[playerIds[i] := player];
      Rules.RoleMessagesGrow(playerIds, roles, i);
      messages := messages + [RoleAssignment(player.id, player.role)];
      i := i + 1;
    }
    Rules.DealtByRoster(players, playerIds, roles, dealt);
    assert playerIds[..i] == playerIds;
  }
}
