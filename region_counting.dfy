/**
  The medium computer player of src/ai/region_counting_player.rs. Among the walls that
  complete a cell it prefers the one whose completing run gains the most cells; failing
  that it plays a safe wall; failing that it gives away the smallest region it can.
*/
module RegionCounting {
  import opened Wrappers
  import opened Game
  import opened GameInvariants
  import opened AI
  import opened Greedy
  import opened Region
  import opened Extrema

  /** One wall chosen from a bucket of the map whose walls all pass the filter. */
  function ChooseFromBucket(bucket: seq<WallStatistics>, keep: WallStatistics -> bool, draw: nat): (r: WallStatistics)
    requires |bucket| >= 1 && forall x :: x in bucket ==> keep(x)
    ensures r in bucket
  {
    assert bucket[0] in bucket;
    ChooseWallIndex(bucket, keep, draw).value
  }

  /** No entry of the list passes the filter. */
  predicate NoWallIs(walls: seq<WallStatistics>, keep: WallStatistics -> bool)
  {
    forall x :: x in walls ==> !keep(x)
  }

  /** The map is empty exactly when no wall passes the filter. */
  lemma MapEmptyIff(walls: seq<WallStatistics>, keep: WallStatistics -> bool, m: map<nat, seq<WallStatistics>>)
    requires MapsKept(walls, keep, m)
    ensures m == map[] <==> NoWallIs(walls, keep)
  {
    if m != map[] {
      var k :| k in m;
      var x := m[k][0];
      assert x in m[k];
      assert x in walls && keep(x);
    } else {
      forall x | x in walls
        ensures !keep(x)
      {
        if keep(x) {
          assert false;
        }
      }
    }
  }

  /** The decision of `next_move` once both region maps are known: the largest region among the
      completing walls, else a safe wall, else the smallest region among the walls that give a
      cell away. The `unreachable!` after the third choice is never reached. */
  function RegionChoice(walls: seq<WallStatistics>, completing: map<nat, seq<WallStatistics>>,
                        giving: map<nat, seq<WallStatistics>>, firstDraw: nat, lastDraw: nat): (r: WallStatistics)
    requires exists x :: x in walls && x.maxAdjacentCounter <= 3
    requires MapsKept(walls, Completes, completing) && MapsKept(walls, GivesAway, giving)
    ensures r in walls
    ensures completing != map[] ==> Completes(r) && r in completing[MaxKey(completing)]
    ensures completing != map[] ==>
              exists k :: k in completing && r in completing[k] && forall k' :: k' in completing ==> k' <= k
    ensures completing == map[] && !NoWallIs(walls, Safe) ==> Safe(r)
    ensures completing == map[] && NoWallIs(walls, Safe) ==>
              GivesAway(r) && giving != map[] && r in giving[MinKey(giving)]
    ensures completing == map[] && NoWallIs(walls, Safe) ==>
              exists k :: k in giving && r in giving[k] && forall k' :: k' in giving ==> k <= k'
  {
    if completing != map[] then
      ChooseFromBucket(completing[MaxKey(completing)], Completes, firstDraw)
    else
      match ChooseWallIndex(walls, Safe, firstDraw)
      case Some(ws) => ws
      case None =>
        assert giving != map[] by {
          MapEmptyIff(walls, Completes, completing);
          MapEmptyIff(walls, GivesAway, giving);
          var x :| x in walls && x.maxAdjacentCounter <= 3;
          assert GivesAway(x);
        }
        ChooseFromBucket(giving[MinKey(giving)], GivesAway, lastDraw)
  }

  /** The listed walls that complete a cell, in list order. */
  ghost function CompletingWalls(b: BoardState): seq<WallStatistics>
    requires Playable(b)
  {
    PlayableFacts(b);
    FilterWalls(CollectWallStatistics(b), Completes)
  }

  /** The listed walls that give a cell away, in list order. */
  ghost function GivingWalls(b: BoardState): seq<WallStatistics>
    requires Playable(b)
  {
    PlayableFacts(b);
    FilterWalls(CollectWallStatistics(b), GivesAway)
  }

  /** The region map of the walls that complete a cell, simulated on the first stream: each is
      filed under the region size simulated for it. */
  function CompletingMap(b: BoardState, draws: nat -> nat): (r: (map<nat, seq<WallStatistics>>, nat))
    requires Playable(b)
    ensures Collectable(b) && MapsKept(CollectWallStatistics(b), Completes, r.0)
    ensures KeyedBySize(CompletingWalls(b), RegionSizes(b, CompletingWalls(b), draws, 0).0, r.0)
  {
    PlayableFacts(b);
    BuildRegionSizeMap(b, CollectWallStatistics(b), Completes, draws, 0)
  }

  /** The region map of the walls that give a cell away, simulated on the second stream. */
  function GivingMap(b: BoardState, later: nat -> nat): (r: (map<nat, seq<WallStatistics>>, nat))
    requires Playable(b)
    ensures Collectable(b) && MapsKept(CollectWallStatistics(b), GivesAway, r.0)
    ensures KeyedBySize(GivingWalls(b), RegionSizes(b, GivingWalls(b), later, 0).0, r.0)
  {
    PlayableFacts(b);
    BuildRegionSizeMap(b, CollectWallStatistics(b), GivesAway, later, 0)
  }

  /** A wall taken from the statistics list is open. */
  lemma ListedWallIsOpen(b: BoardState, ws: WallStatistics)
    requires Playable(b) && Collectable(b) && ws in CollectWallStatistics(b)
    ensures IsUnclickedWall(b, Pos(ws)) && OpenStat(b, Pos(ws)) == ws
  {
    CollectMembers(b, ws);
  }

  /** The statistic of an open wall, as the statistics list holds it. */
  ghost function OpenStat(b: BoardState, m: (nat, nat)): (ws: WallStatistics)
    requires Playable(b) && IsUnclickedWall(b, m)
    ensures Collectable(b) && ws in CollectWallStatistics(b)
    ensures Pos(ws) == m && ws.maxAdjacentCounter == OpenMax(b, m)
  {
    StatNamesWall(b, m);
    WallStat(b, m)
  }

  /** The wall `next_move` picks on a board that is not finished. The map of the third branch
      is written as if it were always built; it is read only in that branch. */
  function Choice(b: BoardState, draws: nat -> nat, later: nat -> nat): (ws: WallStatistics)
    requires Playable(b) && !AllClicked(b)
    ensures Collectable(b) && ws in CollectWallStatistics(b)
  {
    StatisticsNonEmpty(b);
    var completing := CompletingMap(b, draws);
    var giving := GivingMap(b, later);
    RegionChoice(CollectWallStatistics(b), completing.0, giving.0, draws(completing.1), later(giving.1))
  }

  /** `next_move` of the region-counting player. The random generator is two streams: the
      first is read by the completing map and the first two choices, the second by the map and
      the choice of the third branch. */
  function NextMove(b: BoardState, draws: nat -> nat, later: nat -> nat): (m: Option<(nat, nat)>)
    requires Playable(b)
    ensures m.None? <==> AllClicked(b)
    ensures m.Some? ==> IsUnclickedWall(b, m.value)
  {
    if AllClicked(b) then None
    else
      var ws := Choice(b, draws, later);
      ListedWallIsOpen(b, ws);
      Some(Pos(ws))
  }

  /** When some wall completes a cell, the move completes a cell too, and it is one of the
      walls whose simulated region is the largest. */
  lemma NextMoveTakesLargestRegion(b: BoardState, draws: nat -> nat, later: nat -> nat, o: (nat, nat))
    requires Playable(b) && IsUnclickedWall(b, o) && OpenMax(b, o) == 3
    ensures NextMove(b, draws, later).Some?
    ensures var m := NextMove(b, draws, later).value;
      var regions := CompletingMap(b, draws).0;
      && OpenMax(b, m) == 3
      && regions != map[] && OpenStat(b, m) in regions[MaxKey(regions)]
    ensures var m := NextMove(b, draws, later).value;
      var kept := CompletingWalls(b);
      var sizes := RegionSizes(b, kept, draws, 0).0;
      exists i :: 0 <= i < |kept| && kept[i] == OpenStat(b, m) && forall j :: 0 <= j < |kept| ==> sizes[j] <= sizes[i]
  {
    StatNamesWall(b, o);
    var walls := CollectWallStatistics(b);
    var regions := CompletingMap(b, draws).0;
    MapEmptyIff(walls, Completes, regions);
    assert Completes(OpenStat(b, o));
    var ws := Choice(b, draws, later);
    ListedWallIsOpen(b, ws);
    LargestBucket(CompletingWalls(b), RegionSizes(b, CompletingWalls(b), draws, 0).0, regions, MaxKey(regions), ws);
  }

  /** No listed wall completes a cell when no open wall does. */
  lemma NoCompletingWall(b: BoardState)
    requires Playable(b)
    requires forall o :: IsUnclickedWall(b, o) ==> OpenMax(b, o) != 3
    ensures Collectable(b) && NoWallIs(CollectWallStatistics(b), Completes)
  {
    PlayableFacts(b);
    forall x | x in CollectWallStatistics(b)
      ensures !Completes(x)
    {
      ListedWallIsOpen(b, x);
    }
  }

  /** Every listed wall gives a cell away when every open wall does. */
  lemma OnlyGivingWalls(b: BoardState)
    requires Playable(b)
    requires forall o :: IsUnclickedWall(b, o) ==> OpenMax(b, o) == 2
    ensures Collectable(b) && NoWallIs(CollectWallStatistics(b), Completes)
    ensures NoWallIs(CollectWallStatistics(b), Safe)
  {
    PlayableFacts(b);
    forall x | x in CollectWallStatistics(b)
      ensures GivesAway(x)
    {
      ListedWallIsOpen(b, x);
    }
  }

  /** When no wall completes a cell but some wall is safe, the move is safe. */
  lemma NextMoveSafe(b: BoardState, draws: nat -> nat, later: nat -> nat, o: (nat, nat))
    requires Playable(b) && IsUnclickedWall(b, o) && OpenMax(b, o) <= 1
    requires forall o' :: IsUnclickedWall(b, o') ==> OpenMax(b, o') != 3
    ensures NextMove(b, draws, later).Some? && OpenMax(b, NextMove(b, draws, later).value) <= 1
  {
    NoCompletingWall(b);
    var walls := CollectWallStatistics(b);
    assert Safe(OpenStat(b, o));
    MapEmptyIff(walls, Completes, CompletingMap(b, draws).0);
    var ws := Choice(b, draws, later);
    ListedWallIsOpen(b, ws);
  }

  /** The third branch's wall lies in the bucket of the smallest region given away. */
  lemma ThirdTier(b: BoardState, draws: nat -> nat, later: nat -> nat)
    requires Playable(b) && !AllClicked(b) && Collectable(b) && CompletingMap(b, draws).0 == map[]
    requires NoWallIs(CollectWallStatistics(b), Safe)
    ensures var giving := GivingMap(b, later).0;
      giving != map[] && Choice(b, draws, later) in giving[MinKey(giving)]
    ensures var kept := GivingWalls(b);
      var sizes := RegionSizes(b, kept, later, 0).0;
      exists i :: 0 <= i < |kept| && kept[i] == Choice(b, draws, later) && forall j :: 0 <= j < |kept| ==> sizes[i] <= sizes[j]
  {
    StatisticsNonEmpty(b);
    var walls := CollectWallStatistics(b);
    var completing := CompletingMap(b, draws);
    var giving := GivingMap(b, later);
    var ws := RegionChoice(walls, completing.0, giving.0, draws(completing.1), later(giving.1));
    assert Choice(b, draws, later) == ws;
    SmallestBucket(GivingWalls(b), RegionSizes(b, GivingWalls(b), later, 0).0, giving.0, MinKey(giving.0), ws);
  }

  /** When every open wall gives a cell away, the move gives away one of the smallest simulated
      regions. */
  lemma NextMoveGivesSmallestRegion(b: BoardState, draws: nat -> nat, later: nat -> nat)
    requires Playable(b) && !AllClicked(b)
    requires forall o :: IsUnclickedWall(b, o) ==> OpenMax(b, o) == 2
    ensures NextMove(b, draws, later).Some?
    ensures var regions := GivingMap(b, later).0;
      regions != map[] && OpenStat(b, NextMove(b, draws, later).value) in regions[MinKey(regions)]
    ensures var kept := GivingWalls(b);
      var sizes := RegionSizes(b, kept, later, 0).0;
      exists i :: 0 <= i < |kept| && kept[i] == OpenStat(b, NextMove(b, draws, later).value)
        && forall j :: 0 <= j < |kept| ==> sizes[i] <= sizes[j]
  {
    OnlyGivingWalls(b);
    MapEmptyIff(CollectWallStatistics(b), Completes, CompletingMap(b, draws).0);
    ThirdTier(b, draws, later);
    ListedWallIsOpen(b, Choice(b, draws, later));
  }
}
