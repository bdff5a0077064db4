/**
  The region simulation of src/ai/mod.rs used by the medium computer player: `find_region_size`
  plays a wall on a copy of the board as the computer and keeps playing greedy moves for as
  long as each click completes a cell, then reports how many cells the computer gained;
  `build_region_size_map` groups the walls that pass a filter by that number.

  The greedy moves inside the simulation are random. They read a stream of draws, `draws(pos)`
  being the draw of the pos-th random choice; every function returns the position of the next
  unused draw so that consecutive simulations read consecutive draws.
*/
module Region {
  import opened Wrappers
  import opened Game
  import opened GameInvariants
  import opened AI
  import opened Greedy
  import opened Boards

  /** The total points of the three players. */
  function TotalPoints(s: GameStatistics): nat
  {
    s.player1Points + s.player2Points + s.cpuPoints
  }

  /** A click by the computer adds only to its own points, and that by the number of cells the
      wall completes. */
  lemma ClickPoints(b: BoardState, row: nat, col: nat)
    requires Shaped(b)
    ensures var o := Click(b, row, col, CPU);
      && o.board.statistics.cpuPoints >= b.statistics.cpuPoints
      && o.board.statistics.player1Points == b.statistics.player1Points
      && o.board.statistics.player2Points == b.statistics.player2Points
      && (o.result == Ok(false) || o.result.Err? ==> o.board.statistics.cpuPoints == b.statistics.cpuPoints)
      && (o.result == Ok(true) ==> o.board.statistics.cpuPoints > b.statistics.cpuPoints)
  {
    if IsUnclickedWall(b, (row, col)) {
      OpenClickPoints(b, row, col);
    }
  }

  /** The same for a click on an open wall. */
  lemma OpenClickPoints(b: BoardState, row: nat, col: nat)
    requires Shaped(b) && IsUnclickedWall(b, (row, col))
    ensures var o := Click(b, row, col, CPU);
      && o.board.statistics.cpuPoints >= b.statistics.cpuPoints
      && o.board.statistics.player1Points == b.statistics.player1Points
      && o.board.statistics.player2Points == b.statistics.player2Points
      && (o.result == Ok(false) ==> o.board.statistics.cpuPoints == b.statistics.cpuPoints)
      && (o.result == Ok(true) ==> o.board.statistics.cpuPoints > b.statistics.cpuPoints)
  {
    ClickScores(b, row, col, CPU);
    var adj := b.walls[row][col].adjacentCells;
    assert forall k :: 0 <= k < |adj| ==> CellIn(b.cells, adj[k]) by {
      assert adj == AdjacentCellsOf(b.width, b.height, row, col) by {
        assert WallFits(b.width, b.height, b.walls[row][col], row, col);
      }
    }
    CompletionsPositive(b.cells, adj);
    assert PointsOf(b.statistics, Player1) == b.statistics.player1Points;
    assert PointsOf(b.statistics, Player2) == b.statistics.player2Points;
  }

  /** The points a computer click adds are the cells it completes, and the owned cells never
      outnumber the cells. */
  lemma ClickOwnedStep(b: BoardState, row: nat, col: nat)
    requires Playable(b)
    ensures var nb := Click(b, row, col, CPU).board;
      && TotalPoints(nb.statistics) + OwnedAny(b.cells) == TotalPoints(b.statistics) + OwnedAny(nb.cells)
      && OwnedAny(nb.cells) <= b.width * b.height
  {
    var nb := Click(b, row, col, CPU).board;
    ClickGainsOwnedCells(b, row, col, CPU);
    ClickShaped(b, row, col, CPU);
    OwnedAnyBound(nb.cells, b.width);
  }

  /** The wall the simulation plays next: the greedy player's move, or the wall it just played
      when the greedy player has none. */
  function Follow(b: BoardState, row: nat, col: nat, draw: nat): (m: (nat, nat))
    requires Playable(b)
    ensures !AllClicked(b) ==> IsUnclickedWall(b, m)
  {
    match Greedy.NextMove(b, draw)
    case Some(next) => next
    case None => (row, col)
  }

  /** The completing loop of `find_region_size`: the computer clicks, and as long as the click
      completes a cell it carries on with the greedy reply. The result is the board after the
      first click that completes nothing, and the next unused draw. */
  function WhileCompleting(b: BoardState, row: nat, col: nat, draws: nat -> nat, pos: nat): (r: (BoardState, nat))
    requires Playable(b)
    ensures r.1 >= pos && r.0.width == b.width && r.0.height == b.height
    ensures TotalPoints(r.0.statistics) + OwnedAny(b.cells) <= TotalPoints(b.statistics) + b.width * b.height
    ensures r.0.statistics.cpuPoints >= b.statistics.cpuPoints
    ensures r.0.statistics.player1Points == b.statistics.player1Points
    ensures r.0.statistics.player2Points == b.statistics.player2Points
    decreases UnclickedCount(b)
  {
    var o := Click(b, row, col, CPU);
    ClickPlayable(b, row, col, CPU);
    ClickDecreasesUnclicked(b, row, col, CPU);
    ClickPoints(b, row, col);
    ClickOwnedStep(b, row, col);
    if o.result == Ok(true) then
      var next := Follow(o.board, row, col, draws(pos));
      WhileCompleting(o.board, next.0, next.1, draws, pos + 1)
    else
      (o.board, pos)
  }

  /** The loop stops after a click that completes nothing. */
  lemma WhileCompletingStops(b: BoardState, row: nat, col: nat, draws: nat -> nat, pos: nat)
    requires Playable(b) && Click(b, row, col, CPU).result != Ok(true)
    ensures WhileCompleting(b, row, col, draws, pos) == (Click(b, row, col, CPU).board, pos)
  {
  }

  /** The loop goes on after a click that completes a cell, from the greedy reply. */
  lemma WhileCompletingStep(b: BoardState, row: nat, col: nat, draws: nat -> nat, pos: nat)
    requires Playable(b) && Click(b, row, col, CPU).result == Ok(true)
    ensures Playable(Click(b, row, col, CPU).board)
    ensures var nb := Click(b, row, col, CPU).board;
      var next := Follow(nb, row, col, draws(pos));
      WhileCompleting(b, row, col, draws, pos) == WhileCompleting(nb, next.0, next.1, draws, pos + 1)
  {
    ClickPlayable(b, row, col, CPU);
  }

  /** The simulation of `find_region_size`: a wall next to a cell with two clicked sides is
      played first and followed by a greedy move; then the completing loop runs. */
  function RegionRun(b: BoardState, wall: WallStatistics, draws: nat -> nat, pos: nat): (r: (BoardState, nat))
    requires Playable(b)
    ensures r.1 >= pos && r.0.width == b.width && r.0.height == b.height
    ensures TotalPoints(r.0.statistics) + OwnedAny(b.cells) <= TotalPoints(b.statistics) + b.width * b.height
    ensures r.0.statistics.cpuPoints >= b.statistics.cpuPoints
    ensures r.0.statistics.player1Points == b.statistics.player1Points
    ensures r.0.statistics.player2Points == b.statistics.player2Points
  {
    var o := Click(b, wall.row, wall.col, CPU);
    if wall.maxAdjacentCounter == 2 && o.result.Ok? then
      ClickPlayable(b, wall.row, wall.col, CPU);
      ClickPoints(b, wall.row, wall.col);
      ClickOwnedStep(b, wall.row, wall.col);
      var next := Follow(o.board, wall.row, wall.col, draws(pos));
      WhileCompleting(o.board, next.0, next.1, draws, pos + 1)
    else
      WhileCompleting(b, wall.row, wall.col, draws, pos)
  }

  /** `find_region_size`: the points the computer gains in the simulation, and the next draw.
      The gain never exceeds the cells nobody owns yet. */
  function RegionSize(b: BoardState, wall: WallStatistics, draws: nat -> nat, pos: nat): (r: (nat, nat))
    requires Playable(b)
    ensures r.1 >= pos
    ensures r.0 + OwnedAny(b.cells) <= b.width * b.height
  {
    var run := RegionRun(b, wall, draws, pos);
    (run.0.statistics.cpuPoints - b.statistics.cpuPoints, run.1)
  }

  /** An open wall whose cells have at most one clicked side completes nothing: its region is
      empty, and no draw is used. */
  lemma SafeWallRegion(b: BoardState, m: (nat, nat), draws: nat -> nat, pos: nat)
    requires Playable(b) && IsUnclickedWall(b, m) && OpenMax(b, m) <= 1
    ensures RegionSize(b, WallStat(b, m), draws, pos) == (0, pos)
  {
    SafeClick(b, m);
    QuietRegion(b, WallStat(b, m), draws, pos);
  }

  /** A wall played without a following greedy move whose click completes nothing. */
  lemma QuietRegion(b: BoardState, ws: WallStatistics, draws: nat -> nat, pos: nat)
    requires Playable(b) && ws.maxAdjacentCounter != 2 && Click(b, ws.row, ws.col, CPU).result == Ok(false)
    ensures RegionSize(b, ws, draws, pos) == (0, pos)
  {
    ClickPoints(b, ws.row, ws.col);
    WhileCompletingStops(b, ws.row, ws.col, draws, pos);
    var run := RegionRun(b, ws, draws, pos);
    assert run == (Click(b, ws.row, ws.col, CPU).board, pos);
  }

  /** Clicking a safe wall completes nothing. */
  lemma SafeClick(b: BoardState, m: (nat, nat))
    requires Playable(b) && IsUnclickedWall(b, m) && OpenMax(b, m) <= 1
    ensures Pos(WallStat(b, m)) == m && WallStat(b, m).maxAdjacentCounter <= 1
    ensures Click(b, m.0, m.1, CPU).result == Ok(false)
  {
    StatNamesWall(b, m);
    var adj := b.walls[m.0][m.1].adjacentCells;
    ClickScores(b, m.0, m.1, CPU);
    forall k | 0 <= k < |adj|
      ensures b.cells[adj[k].0][adj[k].1].counter != 3
    {
      assert CounterAt(b.cells, adj[k]) <= WallMax(b, m);
    }
  }

  /** An open wall next to a cell with three clicked sides gains at least that cell. */
  lemma CompletingWallRegion(b: BoardState, m: (nat, nat), draws: nat -> nat, pos: nat)
    requires Playable(b) && IsUnclickedWall(b, m) && OpenMax(b, m) == 3
    ensures RegionSize(b, WallStat(b, m), draws, pos).0 >= 1
  {
    StatNamesWall(b, m);
    PlayableFacts(b);
    var adj := b.walls[m.0][m.1].adjacentCells;
    var k :| 0 <= k < |adj| && CounterAt(b.cells, adj[k]) == WallMax(b, m);
    ClickScores(b, m.0, m.1, CPU);
    ClickPoints(b, m.0, m.1);
    ClickPlayable(b, m.0, m.1, CPU);
    var o := Click(b, m.0, m.1, CPU);
    assert o.result == Ok(true);
    var next := Follow(o.board, m.0, m.1, draws(pos));
    assert RegionRun(b, WallStat(b, m), draws, pos) == WhileCompleting(b, m.0, m.1, draws, pos);
  }

  /** The region sizes of a list of walls, simulated one after the other. */
  function RegionSizes(b: BoardState, walls: seq<WallStatistics>, draws: nat -> nat, pos: nat): (r: (seq<nat>, nat))
    requires Playable(b)
    ensures |r.0| == |walls| && r.1 >= pos
    ensures forall i :: 0 <= i < |walls| ==> r.0[i] + OwnedAny(b.cells) <= b.width * b.height
    decreases |walls|
  {
    if walls == [] then ([], pos)
    else
      var first := RegionSize(b, walls[0], draws, pos);
      var rest := RegionSizes(b, walls[1..], draws, first.1);
      var sizes := [first.0] + rest.0;
      assert forall i :: 1 <= i < |walls| ==> sizes[i] == rest.0[i - 1];
      (sizes, rest.1)
  }

  /** Each entry of the list is the region size of its wall, simulated from a later position
      of the draw stream. */
  lemma {:induction false} RegionSizesAreRegionSizes(b: BoardState, walls: seq<WallStatistics>, draws: nat -> nat, pos: nat, i: nat)
    requires Playable(b) && i < |walls|
    ensures exists p: nat :: p >= pos && RegionSizes(b, walls, draws, pos).0[i] == RegionSize(b, walls[i], draws, p).0
  {
    var first := RegionSize(b, walls[0], draws, pos);
    var sizes := RegionSizes(b, walls, draws, pos).0;
    if i == 0 {
      assert sizes[0] == first.0;
    } else {
      var rest := RegionSizes(b, walls[1..], draws, first.1);
      assert sizes[i] == rest.0[i - 1];
      RegionSizesAreRegionSizes(b, walls[1..], draws, first.1, i - 1);
      var p: nat :| p >= first.1 && rest.0[i - 1] == RegionSize(b, walls[1..][i - 1], draws, p).0;
      assert walls[1..][i - 1] == walls[i];
    }
  }

  /** The fold of `build_region_size_map`: every wall pushed, in order, onto the list of its
      region size. */
  function GroupBySize(walls: seq<WallStatistics>, sizes: seq<nat>): (m: map<nat, seq<WallStatistics>>)
    requires |walls| == |sizes|
    ensures forall k :: k in m ==> |m[k]| >= 1
    ensures forall i :: 0 <= i < |walls| ==> sizes[i] in m && walls[i] in m[sizes[i]]
    ensures forall k, x :: k in m && x in m[k] ==> exists i :: 0 <= i < |walls| && walls[i] == x && sizes[i] == k
  {
    if walls == [] then map[]
    else
      var n := |walls| - 1;
      var m := GroupBySize(walls[..n], sizes[..n]);
      var k := sizes[n];
      assert forall i :: 0 <= i < n ==> walls[..n][i] == walls[i] && sizes[..n][i] == sizes[i];
      m[k := (if k in m then m[k] else []) + [walls[n]]]
  }

  lemma GroupedWalls(b: BoardState, kept: seq<WallStatistics>, sizes: seq<nat>, m: map<nat, seq<WallStatistics>>)
    requires |kept| == |sizes| && m == GroupBySize(kept, sizes)
    requires forall i :: 0 <= i < |sizes| ==> sizes[i] + OwnedAny(b.cells) <= b.width * b.height
    ensures forall k, x :: k in m && x in m[k] ==> x in kept
    ensures forall x :: x in kept ==> exists k :: k in m && x in m[k]
    ensures forall k :: k in m ==> |m[k]| >= 1 && k + OwnedAny(b.cells) <= b.width * b.height
  {
    forall x | x in kept
      ensures exists k :: k in m && x in m[k]
    {
      var i :| 0 <= i < |kept| && kept[i] == x;
      assert sizes[i] in m && x in m[sizes[i]];
    }
    forall k | k in m
      ensures k + OwnedAny(b.cells) <= b.width * b.height
    {
      var x := m[k][0];
      assert x in m[k];
      var i :| 0 <= i < |kept| && kept[i] == x && sizes[i] == k;
    }
  }

  /** What `build_region_size_map` promises about its map: the buckets are not empty, they hold
      the walls of the list that pass the filter, and every such wall is in some bucket. */
  ghost predicate MapsKept(walls: seq<WallStatistics>, keep: WallStatistics -> bool, m: map<nat, seq<WallStatistics>>)
  {
    && (forall k, x :: k in m && x in m[k] ==> x in walls && keep(x))
    && (forall x :: x in walls && keep(x) ==> exists k :: k in m && x in m[k])
    && (forall k :: k in m ==> |m[k]| >= 1)
  }

  /** The map files every wall of `kept` under its own size, and holds nothing else. */
  ghost predicate KeyedBySize(kept: seq<WallStatistics>, sizes: seq<nat>, m: map<nat, seq<WallStatistics>>)
  {
    && |kept| == |sizes|
    && (forall i :: 0 <= i < |kept| ==> sizes[i] in m && kept[i] in m[sizes[i]])
    && (forall k, x :: k in m && x in m[k] ==> exists i :: 0 <= i < |kept| && kept[i] == x && sizes[i] == k)
  }

  /** A wall filed under the largest key has a size that no wall of the list exceeds. */
  lemma LargestBucket(kept: seq<WallStatistics>, sizes: seq<nat>, m: map<nat, seq<WallStatistics>>, k: nat, x: WallStatistics)
    requires KeyedBySize(kept, sizes, m) && k in m && x in m[k]
    requires forall k' :: k' in m ==> k' <= k
    ensures exists i :: 0 <= i < |kept| && kept[i] == x && forall j :: 0 <= j < |kept| ==> sizes[j] <= sizes[i]
  {
    var i :| 0 <= i < |kept| && kept[i] == x && sizes[i] == k;
    forall j | 0 <= j < |kept|
      ensures sizes[j] <= sizes[i]
    {
      assert sizes[j] in m;
    }
  }

  /** A wall filed under the smallest key has a size that no wall of the list undercuts. */
  lemma SmallestBucket(kept: seq<WallStatistics>, sizes: seq<nat>, m: map<nat, seq<WallStatistics>>, k: nat, x: WallStatistics)
    requires KeyedBySize(kept, sizes, m) && k in m && x in m[k]
    requires forall k' :: k' in m ==> k <= k'
    ensures exists i :: 0 <= i < |kept| && kept[i] == x && forall j :: 0 <= j < |kept| ==> sizes[i] <= sizes[j]
  {
    var i :| 0 <= i < |kept| && kept[i] == x && sizes[i] == k;
    forall j | 0 <= j < |kept|
      ensures sizes[i] <= sizes[j]
    {
      assert sizes[j] in m;
    }
  }

  /** `build_region_size_map`: the walls that pass `keep`, grouped by region size. */
  function BuildRegionSizeMap(b: BoardState, walls: seq<WallStatistics>, keep: WallStatistics -> bool,
                              draws: nat -> nat, pos: nat): (r: (map<nat, seq<WallStatistics>>, nat))
    requires Playable(b)
    ensures r.1 >= pos
    ensures MapsKept(walls, keep, r.0)
    ensures forall k :: k in r.0 ==> k + OwnedAny(b.cells) <= b.width * b.height
    ensures KeyedBySize(FilterWalls(walls, keep), RegionSizes(b, FilterWalls(walls, keep), draws, pos).0, r.0)
  {
    var kept := FilterWalls(walls, keep);
    FilterWallsMembers(walls, keep);
    var sizes := RegionSizes(b, kept, draws, pos);
    var m := GroupBySize(kept, sizes.0);
    GroupedWalls(b, kept, sizes.0, m);
    (m, sizes.1)
  }

  /** `find_region_size` on the `Board` object: the simulation runs on a clone, so the board
      passed in is left as it was. */
  method FindRegionSize(board: Board, wall: WallStatistics, draws: nat -> nat, pos: nat) returns (size: nat, next: nat)
    requires board.Valid() && Playable(board.Value())
    ensures (size, next) == RegionSize(board.Value(), wall, draws, pos)
  {
    var copy := new Board.Copy(board);
    size, next := RunRegion(copy, wall, draws, pos);
  }

  /** The simulation on the clone: the opening, then the loop of completing clicks, and the
      points the computer gained on the way. */
  method RunRegion(copy: Board, wall: WallStatistics, draws: nat -> nat, pos: nat) returns (size: nat, next: nat)
    requires copy.Valid() && Playable(copy.Value())
    modifies copy
    ensures (size, next) == RegionSize(old(copy.Value()), wall, draws, pos)
  {
    ghost var b := copy.Value();
    var startingPoints := copy.statistics.cpuPoints;
    next := Simulate(copy, wall, draws, pos);
    ghost var c := copy.Value();
    SizeOfRun(b, wall, draws, pos, c, next);
    size := copy.statistics.cpuPoints - startingPoints;
    assert size == c.statistics.cpuPoints - b.statistics.cpuPoints;
  }

  /** The clicks of the simulation: the opening, then the completing loop. */
  method Simulate(copy: Board, wall: WallStatistics, draws: nat -> nat, pos: nat) returns (next: nat)
    requires copy.Valid() && Playable(copy.Value())
    modifies copy
    ensures (copy.Value(), next) == RegionRun(old(copy.Value()), wall, draws, pos)
  {
    var row, col, p := OpenRegion(copy, wall, draws, pos);
    next := ClickWhileCompleting(copy, row, col, draws, p);
  }

  /** The region size is the computer's gain over the run. */
  lemma SizeOfRun(b: BoardState, wall: WallStatistics, draws: nat -> nat, pos: nat, c: BoardState, next: nat)
    requires Playable(b) && (c, next) == RegionRun(b, wall, draws, pos)
    ensures c.statistics.cpuPoints >= b.statistics.cpuPoints
    ensures RegionSize(b, wall, draws, pos) == (c.statistics.cpuPoints - b.statistics.cpuPoints, next)
  {
  }

  /** The opening of `find_region_size`: a wall next to a cell with two clicked sides is
      clicked and the greedy reply becomes the wall the loop starts from. */
  method OpenRegion(copy: Board, wall: WallStatistics, draws: nat -> nat, pos: nat)
    returns (row: nat, col: nat, next: nat)
    requires copy.Valid() && Playable(copy.Value())
    modifies copy
    ensures copy.Valid() && Playable(copy.Value())
    ensures WhileCompleting(copy.Value(), row, col, draws, next) == RegionRun(old(copy.Value()), wall, draws, pos)
  {
    row, col := wall.row, wall.col;
    next := pos;
    if wall.maxAdjacentCounter == 2 {
      ghost var before := copy.Value();
      ClickErrors(before, row, col, CPU);
      ClickPlayable(before, row, col, CPU);
      var res := copy.ClickWall(row, col, CPU);
      if res.Ok? {
        var m := Greedy.NextMove(copy.Value(), draws(next));
        next := next + 1;
        if m.Some? {
          row, col := m.value.0, m.value.1;
        }
      }
    }
  }

  /** The completing loop on the clone: click, and after every click that completes a cell move
      on to the greedy reply, until a click completes nothing. */
  method ClickWhileCompleting(copy: Board, row: nat, col: nat, draws: nat -> nat, pos: nat) returns (next: nat)
    requires copy.Valid() && Playable(copy.Value())
    modifies copy
    ensures (copy.Value(), next) == WhileCompleting(old(copy.Value()), row, col, draws, pos)
  {
    ghost var target := WhileCompleting(copy.Value(), row, col, draws, pos);
    var r, c := row, col;
    next := pos;
    while true
      invariant copy.Valid() && Playable(copy.Value())
      invariant WhileCompleting(copy.Value(), r, c, draws, next) == target
      decreases UnclickedCount(copy.Value())
    {
      var completed;
      completed, r, c, next := ClickAndFollow(copy, r, c, draws, next);
      if !completed {
        break;
      }
    }
  }

  /** One round of the loop: the click, and when it completes a cell, the greedy reply. */
  method ClickAndFollow(copy: Board, row: nat, col: nat, draws: nat -> nat, pos: nat)
    returns (completed: bool, nextRow: nat, nextCol: nat, next: nat)
    requires copy.Valid() && Playable(copy.Value())
    modifies copy
    ensures copy.Valid() && Playable(copy.Value())
    ensures completed ==> UnclickedCount(copy.Value()) < UnclickedCount(old(copy.Value()))
    ensures completed ==>
      WhileCompleting(old(copy.Value()), row, col, draws, pos) == WhileCompleting(copy.Value(), nextRow, nextCol, draws, next)
    ensures !completed ==> WhileCompleting(old(copy.Value()), row, col, draws, pos) == (copy.Value(), next)
  {
    ghost var before := copy.Value();
    ClickDecreasesUnclicked(before, row, col, CPU);
    ClickPlayable(before, row, col, CPU);
    var res := copy.ClickWall(row, col, CPU);
    nextRow, nextCol, next := row, col, pos;
    completed := res == Ok(true);
    if !completed {
      WhileCompletingStops(before, row, col, draws, pos);
      return;
    }
    WhileCompletingStep(before, row, col, draws, pos);
    var m := Greedy.NextMove(copy.Value(), draws(pos));
    next := pos + 1;
    if m.Some? {
      nextRow, nextCol := m.value.0, m.value.1;
    }
  }
}
