/** The records of the game room: players, roles, policy tiles, phases and the
    messages the room sends out. */
module Entities {

  /** A Colyseus session id; the empty string stands for "no player". */
  type Id = string

  /** A player's secret role; `Unassigned` is the empty string a player has until the deal. */
  datatype Role = Unassigned | Liberal | Fascist | Hitler

  /** A policy tile of the 17-tile deck. */
  datatype Policy = LiberalPolicy | FascistPolicy

  /** The phases the room's code ever sets. */
  datatype Phase = Waiting | Nomination | Voting | Legislative

  /** One seat at the table. `vote` is true for Ja and false for Nein. */
  datatype Player = Player(
    id: Id,
    username: string,
    role: Role,
    isDead: bool,
    ready: bool,
    hasVoted: bool,
    vote: bool)

  /** The public part of a player that the game-start broadcast carries. */
  datatype PublicPlayer = PublicPlayer(id: Id, username: string, isDead: bool)

  /** Outbound messages, in the order the room emits them. `RoleAssignment` and
      `PresidentPolicies` go to one client only; the others are broadcasts. */
  datatype Event =
    | PlayerJoined(id: Id, username: string)
    | PlayerLeft(id: Id)
    | GameStarted(players: seq<PublicPlayer>)
    | RoleAssignment(to: Id, role: Role)
    | VotingStarted(chancellorId: Id)
    | ElectionFailed(electionTracker: nat)
    | PresidentPolicies(to: Id, policies: seq<Policy>)

  /** `k` copies of `x`. */
  function Repeat<T>(x: T, k: nat): (r: seq<T>)
    ensures |r| == k
    ensures forall i :: 0 <= i < k ==> r[i] == x
  {
    if k == 0 then [] else Repeat(x, k - 1) + [x]
  }

  lemma {:induction false} RepeatCount<T>(x: T, y: T, k: nat)
    ensures multiset(Repeat(x, k))[y] == if x == y then k else 0
  {
    if k > 0 {
      RepeatCount(x, y, k - 1);
      assert Repeat(x, k) == Repeat(x, k - 1) + [x];
    }
  }
}
