/** Presidential rotation over the roster and the tally of an election.
    The roster is the players' ids in join order (the iteration order of the
    room's player map). */
module Election {
  import opened Entities

  /** No id appears twice in the roster (map keys are unique). */
  ghost predicate Distinct(order: seq<Id>) {
    forall i, j :: 0 <= i < j < |order| ==> order[i] != order[j]
  }

  /** Every roster id has a player record. */
  ghost predicate Seated(order: seq<Id>, players: map<Id, Player>) {
    forall id | id in order :: id in players
  }

  /** `Array.prototype.indexOf`: the first position of `id`, or -1. */
  function IndexOf(order: seq<Id>, id: Id): (k: int)
    ensures -1 <= k < |order|
    ensures 0 <= k ==> order[k] == id
    ensures 0 <= k ==> forall j | 0 <= j < k :: order[j] != id
    ensures k < 0 ==> forall j | 0 <= j < |order| :: order[j] != id
  {
    IndexFrom(order, id, 0)
  }

  /** The search behind `IndexOf`, from position `from` on. */
  function IndexFrom(order: seq<Id>, id: Id, from: nat): (k: int)
    requires from <= |order|
    ensures -1 <= k < |order|
    ensures 0 <= k ==> from <= k && order[k] == id
    ensures 0 <= k ==> forall j | from <= j < k :: order[j] != id
    ensures k < 0 ==> forall j | from <= j < |order| :: order[j] != id
    decreases |order| - from
  {
    if from == |order| then -1
    else if order[from] == id then from
    else IndexFrom(order, id, from + 1)
  }

  /** The next president: the first roster id when there is no president yet
      (or the president is no longer seated, since `indexOf` then gives -1),
      otherwise the id after the current one, wrapping round at the end. The
      source computes the seat as `(currentIndex + 1) % length`; for an index
      in [-1, length - 1] that is the conditional below (see `WrapIsModulo`). */
  function NextPresidentId(order: seq<Id>, presidentId: Id): Id
    requires |order| > 0
  {
    if presidentId == "" then order[0]
    else
      var currentIndex := IndexOf(order, presidentId);
      order[if currentIndex + 1 < |order| then currentIndex + 1 else 0]
  }

  /** The seat chosen is the source's `(currentIndex + 1) % playerIds.length`. */
  lemma WrapIsModulo(order: seq<Id>, presidentId: Id)
    requires |order| > 0 && presidentId != ""
    ensures NextPresidentId(order, presidentId) == order[(IndexOf(order, presidentId) + 1) % |order|]
  {
    var x := IndexOf(order, presidentId) + 1;
    if x == |order| {
      assert x % |order| == 0;
    }
  }

  /** The next president is always seated; it is the first seat when there is no
      president or the president has left, and otherwise the seat after the
      president's, the last seat handing over to the first. */
  lemma NextPresidentIsNextSeat(order: seq<Id>, presidentId: Id)
    requires |order| > 0
    ensures NextPresidentId(order, presidentId) in order
    ensures presidentId == "" || presidentId !in order ==> NextPresidentId(order, presidentId) == order[0]
    ensures presidentId != "" && presidentId in order ==>
              var i := IndexOf(order, presidentId);
              NextPresidentId(order, presidentId) == order[if i + 1 < |order| then i + 1 else 0]
  {
  }

  /** In a roster without repeats, the position `indexOf` finds is the only one. */
  lemma IndexOfDistinct(order: seq<Id>, i: nat)
    requires Distinct(order) && i < |order|
    ensures IndexOf(order, order[i]) == i
  {
  }

  /** Seat `m` hands the presidency to seat `m + 1`, and the last seat to the first. */
  lemma NextIsSuccessor(order: seq<Id>, m: nat)
    requires Distinct(order) && "" !in order
    requires m < |order|
    ensures NextPresidentId(order, order[m]) == order[if m + 1 < |order| then m + 1 else 0]
  {
    IndexOfDistinct(order, m);
  }

  /** The president after `k` failed elections in a row, starting from `p`. */
  function Rotate(order: seq<Id>, p: Id, k: nat): Id
    requires |order| > 0
  {
    if k == 0 then p else NextPresidentId(order, Rotate(order, p, k - 1))
  }

  /** Seat `x` counted round a table of `n`: `x` wrapped into [0, n). */
  function Seat(x: nat, n: nat): (r: nat)
    requires n > 0
    ensures r < n
    decreases x
  {
    if x < n then x else Seat(x - n, n)
  }

  /** One seat further round the table is the next seat, or the first after the last. */
  lemma {:induction false} SeatStep(x: nat, n: nat)
    requires n > 0
    ensures Seat(x + 1, n) == if Seat(x, n) + 1 < n then Seat(x, n) + 1 else 0
    decreases x
  {
    if n <= x {
      SeatStep(x - n, n);
    }
  }

  /** `k` failed elections after seat `i` presided, seat `i + k` (counted round
      the table) presides. */
  lemma {:induction false} RotateSeat(order: seq<Id>, i: nat, k: nat)
    requires Distinct(order) && "" !in order
    requires i < |order|
    ensures Rotate(order, order[i], k) == order[Seat(i + k, |order|)]
  {
    if k > 0 {
      var n, m := |order|, Seat(i + k - 1, |order|);
      RotateSeat(order, i, k - 1);
      assert Rotate(order, order[i], k) == NextPresidentId(order, order[m]);
      NextIsSuccessor(order, m);
      SeatStep(i + k - 1, n);
    }
  }

  /** After one failed election per seat the presidency is back where it started. */
  lemma RotationReturns(order: seq<Id>, i: nat)
    requires Distinct(order) && "" !in order
    requires i < |order|
    ensures Rotate(order, order[i], |order|) == order[i]
  {
    RotateSeat(order, i, |order|);
    assert Seat(i + |order|, |order|) == Seat(i, |order|);
  }

  /** Failed elections needed to pass the presidency from seat `i` to seat `j`
      of a table of `n`, counted round the table. */
  function Turns(i: nat, j: nat, n: nat): nat
    requires i < n && j < n
  {
    if i <= j then j - i else n - i + j
  }

  /** Starting from seat `i`, seat `j` presides after `Turns(i, j, n)` failed
      elections (fewer than `n`): everyone presides within one round. */
  lemma RotationReachesEveryone(order: seq<Id>, i: nat, j: nat)
    requires Distinct(order) && "" !in order
    requires i < |order| && j < |order|
    ensures Turns(i, j, |order|) < |order|
    ensures Rotate(order, order[i], Turns(i, j, |order|)) == order[j]
  {
    var n := |order|;
    var k := Turns(i, j, n);
    RotateSeat(order, i, k);
    assert Seat(i + k, n) == j by {
      if i > j {
        assert Seat(i + k, n) == Seat(j, n);
      }
    }
  }

  /** Every player counts as having voted once dead or once their vote is in. */
  predicate AllVoted(order: seq<Id>, players: map<Id, Player>)
    requires Seated(order, players)
  {
    forall i | 0 <= i < |order| :: players[order[i]].isDead || players[order[i]].hasVoted
  }

  /** The votes of the living players, in roster order. */
  function LivingVotes(order: seq<Id>, players: map<Id, Player>): seq<bool>
    requires Seated(order, players)
  {
    if |order| == 0 then []
    else
      var p := players[order[0]];
      (if p.isDead then [] else [p.vote]) + LivingVotes(order[1..], players)
  }

  /** The number of Ja votes. */
  function JaCount(votes: seq<bool>): (r: nat)
    ensures r <= |votes|
  {
    if |votes| == 0 then 0 else (if votes[0] then 1 else 0) + JaCount(votes[1..])
  }

  /** Ja wins only with strictly more Ja than Nein votes; a tie fails. */
  predicate ElectionWon(order: seq<Id>, players: map<Id, Player>)
    requires Seated(order, players)
  {
    var votes := LivingVotes(order, players);
    var jaVotes := JaCount(votes);
    var neinVotes := |votes| - jaVotes;
    jaVotes > neinVotes
  }

  /** Reference sets: the living players, and those of them who voted Ja and Nein. */
  function Living(order: seq<Id>, players: map<Id, Player>): set<Id>
    requires Seated(order, players)
  {
    set id | id in order && !players[id].isDead
  }

  function JaVoters(order: seq<Id>, players: map<Id, Player>): set<Id>
    requires Seated(order, players)
  {
    set id | id in order && !players[id].isDead && players[id].vote
  }

  function NeinVoters(order: seq<Id>, players: map<Id, Player>): set<Id>
    requires Seated(order, players)
  {
    set id | id in order && !players[id].isDead && !players[id].vote
  }

  /** The reference sets of a roster are those of its tail plus its head when the head qualifies. */
  lemma SplitVoters(order: seq<Id>, players: map<Id, Player>)
    requires |order| > 0 && Seated(order, players)
    ensures var p := players[order[0]];
      && Living(order, players) == (if p.isDead then {} else {order[0]}) + Living(order[1..], players)
      && JaVoters(order, players) == (if !p.isDead && p.vote then {order[0]} else {}) + JaVoters(order[1..], players)
      && NeinVoters(order, players) == (if !p.isDead && !p.vote then {order[0]} else {}) + NeinVoters(order[1..], players)
  {
    assert order == [order[0]] + order[1..];
  }

  /** The head of a roster without repeats is not in its tail, which has no repeats either. */
  lemma HeadNotInTail(order: seq<Id>)
    requires Distinct(order) && |order| > 0
    ensures order[0] !in order[1..]
    ensures Distinct(order[1..])
  {
    forall j | 0 <= j < |order[1..]|
      ensures order[1..][j] != order[0]
    {
      assert order[1..][j] == order[j + 1];
    }
  }

  /** A roster without repeats has as many distinct ids as seats. */
  lemma {:induction false} DistinctCard(order: seq<Id>)
    requires Distinct(order)
    ensures |set id | id in order| == |order|
  {
    if |order| > 0 {
      HeadNotInTail(order);
      DistinctCard(order[1..]);
      assert (set id | id in order) == {order[0]} + (set id | id in order[1..]);
    }
  }

  /** There is one living vote per living player. */
  lemma {:induction false} LivingCountMatches(order: seq<Id>, players: map<Id, Player>)
    requires Distinct(order) && Seated(order, players)
    ensures |LivingVotes(order, players)| == |Living(order, players)|
  {
    if |order| > 0 {
      var rest := order[1..];
      var x := order[0];
      HeadNotInTail(order);
      LivingCountMatches(rest, players);
      SplitVoters(order, players);
      if !players[x].isDead {
        assert x !in Living(rest, players);
        assert |{x} + Living(rest, players)| == 1 + |Living(rest, players)|;
      }
    }
  }

  /** Counting Ja over a vote prepended to others. */
  lemma JaCountCons(v: bool, votes: seq<bool>)
    ensures JaCount([v] + votes) == (if v then 1 else 0) + JaCount(votes)
  {
    assert ([v] + votes)[1..] == votes;
  }

  /** There is one Ja among the living votes per living player who voted Ja. */
  lemma {:induction false} JaCountMatches(order: seq<Id>, players: map<Id, Player>)
    requires Distinct(order) && Seated(order, players)
    ensures JaCount(LivingVotes(order, players)) == |JaVoters(order, players)|
  {
    if |order| > 0 {
      var rest := order[1..];
      var x := order[0];
      HeadNotInTail(order);
      JaCountMatches(rest, players);
      SplitVoters(order, players);
      var p := players[x];
      if p.isDead {
        assert LivingVotes(order, players) == LivingVotes(rest, players);
        assert JaVoters(order, players) == JaVoters(rest, players);
      } else {
        assert LivingVotes(order, players) == [p.vote] + LivingVotes(rest, players);
        JaCountCons(p.vote, LivingVotes(rest, players));
        if p.vote {
          assert x !in JaVoters(rest, players);
          assert JaVoters(order, players) == {x} + JaVoters(rest, players);
          assert |{x} + JaVoters(rest, players)| == 1 + |JaVoters(rest, players)|;
        } else {
          assert JaVoters(order, players) == JaVoters(rest, players);
        }
      }
    }
  }

  /** Every living player voted exactly one of Ja and Nein. */
  lemma VotersPartitionLiving(order: seq<Id>, players: map<Id, Player>)
    requires Seated(order, players)
    ensures Living(order, players) == JaVoters(order, players) + NeinVoters(order, players)
    ensures JaVoters(order, players) * NeinVoters(order, players) == {}
    ensures |Living(order, players)| == |JaVoters(order, players)| + |NeinVoters(order, players)|
  {
    assert Living(order, players) == JaVoters(order, players) + NeinVoters(order, players);
    assert JaVoters(order, players) * NeinVoters(order, players) == {};
  }

  /** The tally counts each living player once: Ja is the number of living
      players who voted Ja, Nein the number who voted Nein, and together they
      are the number of living players. */
  lemma TallyCounts(order: seq<Id>, players: map<Id, Player>)
    requires Distinct(order) && Seated(order, players)
    ensures JaCount(LivingVotes(order, players)) == |JaVoters(order, players)|
    ensures |LivingVotes(order, players)| - JaCount(LivingVotes(order, players)) == |NeinVoters(order, players)|
    ensures |LivingVotes(order, players)| == |Living(order, players)|
    ensures ElectionWon(order, players) <==> |JaVoters(order, players)| > |NeinVoters(order, players)|
  {
    LivingCountMatches(order, players);
    JaCountMatches(order, players);
    VotersPartitionLiving(order, players);
  }

  /** A unanimous Ja from a non-empty living table always elects; a table
      where no living player voted Ja never does. */
  lemma UnanimityDecides(order: seq<Id>, players: map<Id, Player>)
    requires Distinct(order) && Seated(order, players)
    ensures Living(order, players) != {} && NeinVoters(order, players) == {} ==> ElectionWon(order, players)
    ensures JaVoters(order, players) == {} ==> !ElectionWon(order, players)
    ensures |JaVoters(order, players)| == |NeinVoters(order, players)| ==> !ElectionWon(order, players)
  {
    TallyCounts(order, players);
    if Living(order, players) != {} && NeinVoters(order, players) == {} {
      var x :| x in Living(order, players);
      assert x in order && !players[x].isDead;
      assert x !in NeinVoters(order, players);
      assert x in JaVoters(order, players);
    }
  }
}
