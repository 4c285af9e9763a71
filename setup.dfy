/** Game setup: the fascist-count table, the role pool and its shuffle, and the
    17-tile policy deck. */
module Setup {
  import opened Entities
  import opened Shuffling

  /** Tiles in a fresh deck: 6 liberal and 11 fascist. */
  const LiberalTiles: nat := 6
  const FascistTiles: nat := 11
  const DeckSize: nat := LiberalTiles + FascistTiles

  /** Members of the fascist team, Hitler included, at a table of `n` players:
      2 up to 6 players, 3 for 7 or 8, 4 otherwise. At every legal table size
      (5 to 10) the fascists are a strict minority. */
  function NumFascists(n: nat): (r: nat)
    ensures 2 <= r <= 4
    ensures 5 <= n <= 10 ==> 2 * r < n
    ensures n <= 6 <==> r == 2
    ensures 9 <= n <==> r == 4
  {
    if n <= 6 then 2
    else if n <= 8 then 3
    else 4
  }

  /** Liberals still to push once Hitler and the other fascists are in the pool;
      negative when the table is smaller than the fascist team, in which case
      the push loop runs zero times. */
  function NumLiberals(n: nat): int {
    n - NumFascists(n)
  }

  /** The pool before shuffling: Hitler, then the other fascists, then the liberals. */
  function RolePool(n: nat): seq<Role> {
    [Hitler] + Repeat(Fascist, NumFascists(n) - 1)
      + Repeat(Liberal, if NumLiberals(n) < 0 then 0 else NumLiberals(n))
  }

  /** One role per player (for any table of at least 2), exactly one Hitler,
      `NumFascists(n) - 1` further fascists, liberals for every remaining seat. */
  lemma RolePoolCounts(n: nat)
    ensures |RolePool(n)| == if n < NumFascists(n) then NumFascists(n) else n
    ensures 2 <= n ==> |RolePool(n)| == n
    ensures multiset(RolePool(n))[Hitler] == 1
    ensures multiset(RolePool(n))[Fascist] == NumFascists(n) - 1
    ensures multiset(RolePool(n))[Liberal] == |RolePool(n)| - NumFascists(n)
    ensures multiset(RolePool(n))[Unassigned] == 0
  {
    var f := NumFascists(n) - 1;
    var l := if NumLiberals(n) < 0 then 0 else NumLiberals(n);
    RepeatCount(Fascist, Hitler, f);
    RepeatCount(Fascist, Fascist, f);
    RepeatCount(Fascist, Liberal, f);
    RepeatCount(Fascist, Unassigned, f);
    RepeatCount(Liberal, Hitler, l);
    RepeatCount(Liberal, Fascist, l);
    RepeatCount(Liberal, Liberal, l);
    RepeatCount(Liberal, Unassigned, l);
  }

  /** Builds the pool with push loops and shuffles it in place with the picks `draws`.
      The result holds the same roles as the pool, only in the order the picks choose. */
  method GenerateRoles(n: nat, draws: Draws) returns (roles: seq<Role>)
    requires |RolePool(n)| <= |draws|
    ensures roles == Shuffle(RolePool(n), draws)
  {
    var pool := [Hitler];
    var numFascists := NumFascists(n) - 1;
    var i := 0;
    while i < numFascists
      invariant 0 <= i <= numFascists
      invariant pool == [Hitler] + Repeat(Fascist, i)
    {
      pool := pool + [Fascist];
      i := i + 1;
    }
    var numLiberals := n - |pool|;
    assert numLiberals == NumLiberals(n);
    i := 0;
    while i < numLiberals
      invariant 0 <= i && (0 <= numLiberals ==> i <= numLiberals) && (numLiberals < 0 ==> i == 0)
      invariant pool == [Hitler] + Repeat(Fascist, numFascists) + Repeat(Liberal, i)
    {
      pool := pool + [Liberal];
      i := i + 1;
    }
    assert pool == RolePool(n);
    var a := new Role[|pool|](k requires 0 <= k < |pool| => pool[k]);
    assert a[..] == pool;
    ShuffleInPlace(a, draws);
    roles := a[..];
  }

  /** Whatever the picks, the dealt roles are the pool's: one per player (for
      any table of at least 2), one Hitler, `NumFascists(n) - 1` further
      fascists and liberals for every other seat. */
  lemma ShuffledRoleCounts(n: nat, draws: Draws)
    requires |RolePool(n)| <= |draws|
    ensures 2 <= n ==> |Shuffle(RolePool(n), draws)| == n
    ensures |Shuffle(RolePool(n), draws)| == if n < NumFascists(n) then NumFascists(n) else n
    ensures multiset(Shuffle(RolePool(n), draws))[Hitler] == 1
    ensures multiset(Shuffle(RolePool(n), draws))[Fascist] == NumFascists(n) - 1
    ensures multiset(Shuffle(RolePool(n), draws))[Liberal] == |RolePool(n)| - NumFascists(n)
    ensures multiset(Shuffle(RolePool(n), draws))[Unassigned] == 0
  {
    ShufflePermutes(RolePool(n), draws);
    RolePoolCounts(n);
  }

  /** The deck before shuffling: six liberal tiles, then eleven fascist tiles. */
  function InitialDeck(): seq<Policy>
  {
    Repeat(LiberalPolicy, LiberalTiles) + Repeat(FascistPolicy, FascistTiles)
  }

  /** Whatever the picks, the shuffled deck holds exactly 17 tiles, 6 liberal and 11 fascist. */
  lemma ShuffledDeckCounts(draws: Draws)
    requires DeckSize <= |draws|
    ensures |Shuffle(InitialDeck(), draws)| == DeckSize
    ensures multiset(Shuffle(InitialDeck(), draws))[LiberalPolicy] == LiberalTiles
    ensures multiset(Shuffle(InitialDeck(), draws))[FascistPolicy] == FascistTiles
  {
    ShufflePermutes(InitialDeck(), draws);
    RepeatCount(LiberalPolicy, LiberalPolicy, LiberalTiles);
    RepeatCount(LiberalPolicy, FascistPolicy, LiberalTiles);
    RepeatCount(FascistPolicy, LiberalPolicy, FascistTiles);
    RepeatCount(FascistPolicy, FascistPolicy, FascistTiles);
  }
}
