/**
  The move order of the minimax players: `available_moves` of src/ai/minimax_player.rs sorts
  the statistics list by `wall_priority` and keeps the positions. `sort_by_key` is a stable
  sort, and the key takes only the values 0, 1 and 2, so its result is the entries of priority
  0, then those of priority 1, then those of priority 2, each group in list order.
*/
module MoveOrder {
  import opened Game
  import opened GameInvariants
  import opened AI
  import opened Greedy

  /** The entry can be ranked and its `wall_priority` is p. */
  predicate InTier(p: nat, ws: WallStatistics)
  {
    ws.maxAdjacentCounter <= 3 && WallPriority(ws) == p
  }

  function TierFilter(p: nat): WallStatistics -> bool
  {
    ws => InTier(p, ws)
  }

  /** The entries of priority p, in list order. */
  function Tier(walls: seq<WallStatistics>, p: nat): seq<WallStatistics>
  {
    FilterWalls(walls, TierFilter(p))
  }

  /** Every entry can be ranked (an unclicked wall never has a complete cell). */
  predicate Rankable(walls: seq<WallStatistics>)
  {
    forall i :: 0 <= i < |walls| ==> walls[i].maxAdjacentCounter <= 3
  }

  /** `sort_by_key(wall_priority)`. */
  function SortByPriority(walls: seq<WallStatistics>): seq<WallStatistics>
  {
    Tier(walls, 0) + Tier(walls, 1) + Tier(walls, 2)
  }

  /** Non-decreasing priority. */
  predicate Prioritized(s: seq<WallStatistics>)
  {
    Rankable(s) && forall i, j :: 0 <= i < j < |s| ==> WallPriority(s[i]) <= WallPriority(s[j])
  }

  lemma TierMembers(walls: seq<WallStatistics>, p: nat)
    ensures forall x :: x in Tier(walls, p) <==> x in walls && InTier(p, x)
  {
    FilterWallsMembers(walls, TierFilter(p));
  }

  /** One block of equal priority in front of a sorted list of no smaller priority. */
  lemma PrioritizedAppend(a: seq<WallStatistics>, c: seq<WallStatistics>, p: nat, q: nat)
    requires forall x :: x in a ==> InTier(p, x)
    requires Prioritized(c) && p <= q && forall x :: x in c ==> WallPriority(x) >= q
    ensures Prioritized(a + c)
  {
    var s := a + c;
    forall i | 0 <= i < |s|
      ensures s[i].maxAdjacentCounter <= 3
    {
      if i < |a| {
        assert s[i] in a;
      } else {
        assert s[i] == c[i - |a|];
      }
    }
    forall i, j | 0 <= i < j < |s|
      ensures WallPriority(s[i]) <= WallPriority(s[j])
    {
      if j < |a| {
        assert s[i] in a && s[j] in a;
      } else if i < |a| {
        assert s[i] in a && s[j] in c;
      } else {
        assert s[i] == c[i - |a|] && s[j] == c[j - |a|];
      }
    }
  }

  /** The sorted list is ordered by priority. */
  lemma SortIsPrioritized(walls: seq<WallStatistics>)
    ensures Prioritized(SortByPriority(walls))
  {
    var t0, t1, t2 := Tier(walls, 0), Tier(walls, 1), Tier(walls, 2);
    TierMembers(walls, 0);
    TierMembers(walls, 1);
    TierMembers(walls, 2);
    PrioritizedAppend(t2, [], 2, 2);
    assert t2 + [] == t2;
    PrioritizedAppend(t1, t2, 1, 2);
    PrioritizedAppend(t0, t1 + t2, 0, 1);
    assert t0 + t1 + t2 == t0 + (t1 + t2);
  }

  /** A list with one more entry at its end: every tier grows by that entry or not at all. */
  lemma TierSnoc(walls: seq<WallStatistics>, x: WallStatistics, p: nat)
    ensures Tier(walls + [x], p) == Tier(walls, p) + (if InTier(p, x) then [x] else [])
  {
    assert (walls + [x])[..|walls + [x]| - 1] == walls;
  }

  /** Sorting a list with one more entry at its end sorts in that entry. */
  lemma SortSnoc(init: seq<WallStatistics>, x: WallStatistics)
    requires x.maxAdjacentCounter <= 3
    ensures multiset(SortByPriority(init + [x])) == multiset(SortByPriority(init)) + multiset{x}
  {
    TierSnoc(init, x, 0);
    TierSnoc(init, x, 1);
    TierSnoc(init, x, 2);
    PriorityMatchesTiers(x);
  }

  /** The sorted list holds the same entries, each as often: a permutation. */
  lemma {:induction false} SortIsPermutation(walls: seq<WallStatistics>)
    requires Rankable(walls)
    ensures multiset(SortByPriority(walls)) == multiset(walls)
  {
    if walls != [] {
      var init, x := walls[..|walls| - 1], walls[|walls| - 1];
      assert walls == init + [x];
      assert Rankable(init) by {
        forall i | 0 <= i < |init|
          ensures init[i].maxAdjacentCounter <= 3
        {
          assert init[i] == walls[i];
        }
      }
      SortIsPermutation(init);
      SortSnoc(init, x);
    }
  }

  /** What the callers use of the sort: same length, same entries, ordered by priority. */
  lemma SortFacts(walls: seq<WallStatistics>)
    requires Rankable(walls)
    ensures |SortByPriority(walls)| == |walls| && Prioritized(SortByPriority(walls))
    ensures forall x :: x in SortByPriority(walls) <==> x in walls
  {
    var sorted := SortByPriority(walls);
    SortIsPermutation(walls);
    SortIsPrioritized(walls);
    assert |sorted| == |multiset(sorted)| == |multiset(walls)| == |walls|;
    forall x
      ensures x in sorted <==> x in walls
    {
      assert x in sorted <==> x in multiset(sorted);
      assert x in walls <==> x in multiset(walls);
    }
  }

  lemma {:induction false} FilterKeepsAll(s: seq<WallStatistics>, keep: WallStatistics -> bool)
    requires forall x :: x in s ==> keep(x)
    ensures FilterWalls(s, keep) == s
  {
    if s != [] {
      FilterKeepsAll(s[..|s| - 1], keep);
      assert s[|s| - 1] in s;
      assert s[..|s| - 1] + [s[|s| - 1]] == s;
    }
  }

  lemma FilterKeepsNone(s: seq<WallStatistics>, keep: WallStatistics -> bool)
    requires forall x :: x in s ==> !keep(x)
    ensures FilterWalls(s, keep) == []
  {
    FilterWallsMembers(s, keep);
  }

  /** The tier p of a tier q is the whole tier when p == q and empty otherwise. */
  lemma TierOfTier(walls: seq<WallStatistics>, p: nat, q: nat)
    ensures Tier(Tier(walls, q), p) == if p == q then Tier(walls, q) else []
  {
    TierMembers(walls, q);
    if p == q {
      FilterKeepsAll(Tier(walls, q), TierFilter(p));
    } else {
      FilterKeepsNone(Tier(walls, q), TierFilter(p));
    }
  }

  /** The sort is stable: the entries of each priority keep their order. */
  lemma SortIsStable(walls: seq<WallStatistics>, p: nat)
    ensures Tier(SortByPriority(walls), p) == Tier(walls, p)
  {
    if p > 2 {
      NoTierAboveTwo(walls, p);
      NoTierAboveTwo(SortByPriority(walls), p);
    } else {
      var t0, t1, t2 := Tier(walls, 0), Tier(walls, 1), Tier(walls, 2);
      FilterWallsAppend(t0 + t1, t2, TierFilter(p));
      FilterWallsAppend(t0, t1, TierFilter(p));
      TierOfTier(walls, p, 0);
      TierOfTier(walls, p, 1);
      TierOfTier(walls, p, 2);
    }
  }

  /** `wall_priority` is never above 2. */
  lemma NoTierAboveTwo(walls: seq<WallStatistics>, p: nat)
    requires p > 2
    ensures Tier(walls, p) == []
  {
    forall x | x in walls
      ensures !InTier(p, x)
    {
      if x.maxAdjacentCounter <= 3 {
        PriorityMatchesTiers(x);
      }
    }
    FilterKeepsNone(walls, TierFilter(p));
  }

  /** The position of each entry. */
  function Positions(s: seq<WallStatistics>): (r: seq<(nat, nat)>)
    ensures |r| == |s| && forall i :: 0 <= i < |s| ==> r[i] == Pos(s[i])
  {
    seq(|s|, i requires 0 <= i < |s| => Pos(s[i]))
  }

  /** Every move names an unclicked wall. */
  predicate AllOpen(b: BoardState, moves: seq<(nat, nat)>)
  {
    forall k :: 0 <= k < |moves| ==> IsUnclickedWall(b, moves[k])
  }

  /** The entries of the statistics list of a playable board can be ranked, and each is the
      statistic of the unclicked wall it names. */
  lemma ListedAreOpen(b: BoardState)
    requires Playable(b)
    ensures Collectable(b) && Rankable(CollectWallStatistics(b))
    ensures forall x :: x in CollectWallStatistics(b) ==> IsUnclickedWall(b, Pos(x)) && Priority(b, Pos(x)) == WallPriority(x)
  {
    PlayableFacts(b);
    CollectSpec(b);
    forall x | x in CollectWallStatistics(b)
      ensures IsUnclickedWall(b, Pos(x)) && Priority(b, Pos(x)) == WallPriority(x)
    {
      CollectMembers(b, x);
    }
  }

  /** `available_moves`. */
  function AvailableMoves(b: BoardState): (moves: seq<(nat, nat)>)
    requires Playable(b)
    ensures AllOpen(b, moves)
  {
    ListedAreOpen(b);
    SortFacts(CollectWallStatistics(b));
    Positions(SortByPriority(CollectWallStatistics(b)))
  }

  /** One move per entry of the statistics list, that is, per unclicked wall. */
  lemma AvailableMovesCount(b: BoardState)
    requires Playable(b)
    ensures Collectable(b) && |AvailableMoves(b)| == |CollectWallStatistics(b)|
  {
    ListedAreOpen(b);
    SortFacts(CollectWallStatistics(b));
  }

  /** The moves are exactly the unclicked walls. */
  lemma AvailableMovesExact(b: BoardState, m: (nat, nat))
    requires Playable(b)
    ensures m in AvailableMoves(b) <==> IsUnclickedWall(b, m)
  {
    if IsUnclickedWall(b, m) {
      StatNamesWall(b, m);
      var ws := WallStat(b, m);
      var sorted := SortedStatistics(b, ws);
      var k :| 0 <= k < |sorted| && sorted[k] == ws;
      assert AvailableMoves(b)[k] == m;
    }
  }

  /** The sorted statistics list, and that a listed entry is in it. */
  lemma SortedStatistics(b: BoardState, ws: WallStatistics) returns (sorted: seq<WallStatistics>)
    requires Playable(b) && Collectable(b) && ws in CollectWallStatistics(b)
    ensures sorted == SortByPriority(CollectWallStatistics(b)) && ws in sorted
    ensures AvailableMoves(b) == Positions(sorted)
  {
    ListedAreOpen(b);
    sorted := SortByPriority(CollectWallStatistics(b));
    SortFacts(CollectWallStatistics(b));
  }

  /** The moves come in order of non-decreasing priority. */
  lemma AvailableMovesOrdered(b: BoardState, i: nat, j: nat)
    requires Playable(b) && i < j < |AvailableMoves(b)|
    ensures Priority(b, AvailableMoves(b)[i]) <= Priority(b, AvailableMoves(b)[j])
  {
    ListedAreOpen(b);
    var sorted := SortByPriority(CollectWallStatistics(b));
    SortFacts(CollectWallStatistics(b));
    assert sorted[i] in sorted && sorted[j] in sorted;
  }
}
