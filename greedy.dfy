/**
  The easy computer player of src/ai/greedy_algorithm_player.rs. It completes a cell when it
  can, otherwise plays a wall that gives nothing away (every neighbouring cell has at most one
  clicked side), and only when it must, a wall that lets the opponent complete a cell.
*/
module Greedy {
  import opened Wrappers
  import opened Game
  import opened GameInvariants
  import opened AI

  predicate Completes(ws: WallStatistics) { ws.maxAdjacentCounter == 3 }
  predicate Safe(ws: WallStatistics) { ws.maxAdjacentCounter <= 1 }
  predicate GivesAway(ws: WallStatistics) { ws.maxAdjacentCounter == 2 }

  /** The three `choose_wall_index` calls of `next_move`, on a list that has at least one
      entry of one of the three kinds; the `unreachable!` after them is never reached. */
  function TieredChoice(walls: seq<WallStatistics>, draw: nat): (r: WallStatistics)
    requires exists ws :: ws in walls && ws.maxAdjacentCounter <= 3
    ensures r in walls
    ensures (exists ws :: ws in walls && Completes(ws)) ==> Completes(r)
    ensures (forall ws :: ws in walls ==> !Completes(ws)) && (exists ws :: ws in walls && Safe(ws)) ==> Safe(r)
    ensures (forall ws :: ws in walls ==> !Completes(ws) && !Safe(ws)) ==> GivesAway(r)
  {
    match ChooseWallIndex(walls, Completes, draw)
    case Some(ws) => ws
    case None =>
      match ChooseWallIndex(walls, Safe, draw)
      case Some(ws) => ws
      case None =>
        // Every entry is of one of the three kinds, so this last choice finds one.
        ChooseWallIndex(walls, GivesAway, draw).value
  }

  /** Some wall is still open. */
  lemma OpenWallExists(b: BoardState) returns (m: (nat, nat))
    requires !AllClicked(b)
    ensures IsUnclickedWall(b, m)
  {
    var r, c :| 0 <= r < |b.walls| && 0 <= c < |b.walls[r]| && !b.walls[r][c].isClicked;
    m := (r, c);
  }

  /** On a playable board that is not finished, the statistics list has an entry of one of the
      three kinds. */
  lemma StatisticsNonEmpty(b: BoardState)
    requires Playable(b) && !AllClicked(b)
    ensures Collectable(b)
    ensures exists ws :: ws in CollectWallStatistics(b) && ws.maxAdjacentCounter <= 3
  {
    PlayableFacts(b);
    CollectSpec(b);
    var m := OpenWallExists(b);
    assert WallStat(b, m) in CollectWallStatistics(b);
  }

  /** `next_move` of the greedy player; `draw` stands for the random generator. */
  function NextMove(b: BoardState, draw: nat): (m: Option<(nat, nat)>)
    requires Playable(b)
    ensures m.None? <==> AllClicked(b)
    ensures m.Some? ==> IsUnclickedWall(b, m.value)
  {
    if AllClicked(b) then None
    else
      StatisticsNonEmpty(b);
      CollectSpec(b);
      var ws := TieredChoice(CollectWallStatistics(b), draw);
      Some(Pos(ws))
  }

  /** The statistic the list holds for an open wall names that wall. */
  lemma StatNamesWall(b: BoardState, m: (nat, nat))
    requires Playable(b) && IsUnclickedWall(b, m)
    ensures Collectable(b)
    ensures WallStat(b, m) in CollectWallStatistics(b)
    ensures Pos(WallStat(b, m)) == m && WallStat(b, m).maxAdjacentCounter == OpenMax(b, m)
  {
    PlayableFacts(b);
    CollectSpec(b);
    assert WallFits(b.width, b.height, b.walls[m.0][m.1], m.0, m.1);
  }

  /** The greedy move and the statistic it was chosen from. */
  lemma NextMoveChoice(b: BoardState, draw: nat)
    requires Playable(b) && !AllClicked(b)
    ensures Collectable(b) && NextMove(b, draw).Some?
    ensures exists ws :: ws in CollectWallStatistics(b) && ws.maxAdjacentCounter <= 3
    ensures var m := NextMove(b, draw).value;
      NextMove(b, draw) == Some(Pos(TieredChoice(CollectWallStatistics(b), draw)))
      && TieredChoice(CollectWallStatistics(b), draw) == WallStat(b, m)
  {
    StatisticsNonEmpty(b);
    CollectSpec(b);
    var r := TieredChoice(CollectWallStatistics(b), draw);
    StatNamesWall(b, Pos(r));
  }

  /** If some open wall completes a cell, the greedy move does. */
  lemma NextMoveCompletes(b: BoardState, draw: nat, o: (nat, nat))
    requires Playable(b) && IsUnclickedWall(b, o) && OpenMax(b, o) == 3
    ensures NextMove(b, draw).Some? && OpenMax(b, NextMove(b, draw).value) == 3
  {
    NextMoveChoice(b, draw);
    StatNamesWall(b, o);
    var m := NextMove(b, draw).value;
    StatNamesWall(b, m);
    assert Completes(WallStat(b, o));
  }

  /** If no open wall completes a cell and some wall is safe, the greedy move is safe. */
  lemma NextMoveSafe(b: BoardState, draw: nat, o: (nat, nat))
    requires Playable(b) && IsUnclickedWall(b, o) && OpenMax(b, o) <= 1
    requires forall o' :: IsUnclickedWall(b, o') ==> OpenMax(b, o') != 3
    ensures NextMove(b, draw).Some? && OpenMax(b, NextMove(b, draw).value) <= 1
  {
    NextMoveChoice(b, draw);
    var walls := CollectWallStatistics(b);
    forall ws | ws in walls
      ensures !Completes(ws)
    {
      CollectMembers(b, ws);
      StatNamesWall(b, Pos(ws));
    }
    StatNamesWall(b, o);
    var m := NextMove(b, draw).value;
    StatNamesWall(b, m);
    assert Safe(WallStat(b, o));
  }

  /** If every open wall gives a cell away, so does the greedy move. */
  lemma NextMoveGivesAway(b: BoardState, draw: nat)
    requires Playable(b) && !AllClicked(b)
    requires forall o :: IsUnclickedWall(b, o) ==> OpenMax(b, o) == 2
    ensures NextMove(b, draw).Some? && OpenMax(b, NextMove(b, draw).value) == 2
  {
    NextMoveChoice(b, draw);
    var walls := CollectWallStatistics(b);
    forall ws | ws in walls
      ensures !Completes(ws) && !Safe(ws)
    {
      CollectMembers(b, ws);
      StatNamesWall(b, Pos(ws));
    }
    var m := NextMove(b, draw).value;
    StatNamesWall(b, m);
  }

  /** In priority terms: no open wall has a smaller `wall_priority` than the greedy move. */
  lemma NextMoveIsBestPriority(b: BoardState, draw: nat, other: (nat, nat))
    requires Playable(b) && IsUnclickedWall(b, other)
    ensures NextMove(b, draw).Some?
    ensures Priority(b, NextMove(b, draw).value) <= Priority(b, other)
  {
    var m := NextMove(b, draw).value;
    StatNamesWall(b, m);
    StatNamesWall(b, other);
    PriorityMatchesTiers(WallStat(b, m));
    PriorityMatchesTiers(WallStat(b, other));
    if OpenMax(b, other) == 3 {
      NextMoveCompletes(b, draw, other);
    } else if exists o :: IsUnclickedWall(b, o) && OpenMax(b, o) == 3 {
      var o :| IsUnclickedWall(b, o) && OpenMax(b, o) == 3;
      NextMoveCompletes(b, draw, o);
    } else if OpenMax(b, other) <= 1 {
      NextMoveSafe(b, draw, other);
    }
  }

  /** Every entry of the best tier of a list is the tiered choice for some draw. */
  lemma TieredChoiceReaches(walls: seq<WallStatistics>, ws: WallStatistics)
    requires ws in walls && ws.maxAdjacentCounter <= 3
    requires forall x :: x in walls ==> x.maxAdjacentCounter <= 3 && WallPriority(ws) <= WallPriority(x)
    ensures exists draw: nat :: TieredChoice(walls, draw) == ws
  {
    forall x | x in walls
      ensures (WallPriority(ws) >= 1 ==> !Completes(x)) && (WallPriority(ws) >= 2 ==> !Safe(x))
    {
      PriorityMatchesTiers(x);
    }
    PriorityMatchesTiers(ws);
    var draw: nat;
    if Completes(ws) {
      ChooseWallIndexReachesAll(walls, Completes, ws);
      draw :| ChooseWallIndex(walls, Completes, draw) == Some(ws);
    } else if Safe(ws) {
      ChooseWallIndexReachesAll(walls, Safe, ws);
      draw :| ChooseWallIndex(walls, Safe, draw) == Some(ws);
    } else {
      ChooseWallIndexReachesAll(walls, GivesAway, ws);
      draw :| ChooseWallIndex(walls, GivesAway, draw) == Some(ws);
    }
    assert TieredChoice(walls, draw) == ws;
  }

  /** Every wall of the best tier is the greedy move for some draw. */
  lemma NextMoveReachesBestTier(b: BoardState, m: (nat, nat))
    requires Playable(b) && IsUnclickedWall(b, m)
    requires forall o :: IsUnclickedWall(b, o) ==> Priority(b, m) <= Priority(b, o)
    ensures exists draw: nat :: NextMove(b, draw) == Some(m)
  {
    PlayableFacts(b);
    CollectSpec(b);
    var walls := CollectWallStatistics(b);
    var ws := WallStat(b, m);
    StatNamesWall(b, m);
    forall x | x in walls
      ensures x.maxAdjacentCounter <= 3 && WallPriority(ws) <= WallPriority(x)
    {
      StatNamesWall(b, Pos(x));
      assert x == WallStat(b, Pos(x));
    }
    TieredChoiceReaches(walls, ws);
    var draw: nat :| TieredChoice(walls, draw) == ws;
    assert NextMove(b, draw) == Some(m);
  }
}
