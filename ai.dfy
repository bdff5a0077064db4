/**
  The helpers of src/ai/mod.rs shared by the move generators: filtered random choice, the
  reduction of every open wall to the largest counter among its cells, and the priority the
  minimax players order moves by.

  A random choice is modelled by a `draw`: any natural number, of which the chooser takes the
  element at `draw % n`. Every element can be chosen by some draw (`ChooseReachesAll`), so a
  property proved for all draws holds whatever the generator returns.
*/
module AI {
  import opened Wrappers
  import opened Game
  import opened GameInvariants

  datatype WallStatistics = WallStatistics(row: nat, col: nat, maxAdjacentCounter: nat)

  function Pos(ws: WallStatistics): (nat, nat)
  {
    (ws.row, ws.col)
  }

  // ---------------------------------------------------------------- filtered choice

  /** `filter_walls`. */
  function FilterWalls<T(==,!new)>(walls: seq<T>, keep: T -> bool): (r: seq<T>)
    ensures |r| <= |walls|
  {
    if walls == [] then []
    else FilterWalls(walls[..|walls| - 1], keep) + (if keep(walls[|walls| - 1]) then [walls[|walls| - 1]] else [])
  }

  /** The filter keeps exactly the elements that pass it. */
  lemma {:induction false} FilterWallsMembers<T(!new)>(walls: seq<T>, keep: T -> bool)
    ensures forall x :: x in FilterWalls(walls, keep) <==> x in walls && keep(x)
  {
    if walls != [] {
      var init, last := walls[..|walls| - 1], walls[|walls| - 1];
      FilterWallsMembers(init, keep);
      assert walls == init + [last];
    }
  }

  /** Filtering distributes over concatenation: the kept elements stay in their order. */
  lemma {:induction false} FilterWallsAppend<T(!new)>(a: seq<T>, b: seq<T>, keep: T -> bool)
    ensures FilterWalls(a + b, keep) == FilterWalls(a, keep) + FilterWalls(b, keep)
  {
    if b == [] {
      assert a + b == a;
    } else {
      var b' := b[..|b| - 1];
      assert (a + b)[..|a + b| - 1] == a + b';
      FilterWallsAppend(a, b', keep);
    }
  }

  lemma FilterWallsSingle<T(!new)>(x: T, keep: T -> bool)
    ensures FilterWalls([x], keep) == if keep(x) then [x] else []
  {
    assert [x][..0] == [];
  }

  /** `.choose()` on a slice: none on an empty slice, otherwise the element the draw selects. */
  function Choose<T>(s: seq<T>, draw: nat): (r: Option<T>)
    ensures r.None? <==> s == []
    ensures r.Some? ==> r.value in s
  {
    if s == [] then None else Some(s[draw % |s|])
  }

  /** Every element can be the one chosen. */
  lemma ChooseReachesAll<T>(s: seq<T>, x: T)
    requires x in s
    ensures exists draw: nat :: Choose(s, draw) == Some(x)
  {
    var k :| 0 <= k < |s| && s[k] == x;
    assert k % |s| == k;
    assert Choose(s, k) == Some(x);
  }

  /** `choose_wall_index`. */
  function ChooseWallIndex<T(==,!new)>(walls: seq<T>, keep: T -> bool, draw: nat): (r: Option<T>)
    ensures r.Some? ==> r.value in walls && keep(r.value)
    ensures r.None? <==> forall x :: x in walls ==> !keep(x)
  {
    var kept := FilterWalls(walls, keep);
    FilterWallsMembers(walls, keep);
    assert kept == [] <==> forall x :: x in walls ==> !keep(x) by {
      if kept != [] {
        assert kept[0] in kept;
      }
    }
    Choose(kept, draw)
  }

  /** Any element that passes the filter is the result for some draw. */
  lemma ChooseWallIndexReachesAll<T(!new)>(walls: seq<T>, keep: T -> bool, x: T)
    requires x in walls && keep(x)
    ensures exists draw: nat :: ChooseWallIndex(walls, keep, draw) == Some(x)
  {
    var kept := FilterWalls(walls, keep);
    FilterWallsMembers(walls, keep);
    ChooseReachesAll(kept, x);
    var draw: nat :| Choose(kept, draw) == Some(x);
    assert ChooseWallIndex(walls, keep, draw) == Some(x);
  }

  // ---------------------------------------------------------------- wall statistics

  function CounterAt(cells: seq<seq<Cell>>, rc: (nat, nat)): nat
    requires CellIn(cells, rc)
  {
    cells[rc.0][rc.1].counter
  }

  /** `.map(counter).max()` over a non-empty list of cells. */
  function MaxCounter(cells: seq<seq<Cell>>, adj: seq<(nat, nat)>): (m: nat)
    requires |adj| >= 1 && forall k :: 0 <= k < |adj| ==> CellIn(cells, adj[k])
    ensures forall k :: 0 <= k < |adj| ==> CounterAt(cells, adj[k]) <= m
    ensures exists k :: 0 <= k < |adj| && CounterAt(cells, adj[k]) == m
  {
    var last := CounterAt(cells, adj[|adj| - 1]);
    if |adj| == 1 then last
    else
      var m := MaxCounter(cells, adj[..|adj| - 1]);
      assert forall k :: 0 <= k < |adj| - 1 ==> adj[..|adj| - 1][k] == adj[k];
      if m >= last then m else last
  }

  /** The `.expect` of `collect_wall_statistics` holds: the wall has cells, all on the board. */
  ghost predicate Measurable(b: BoardState, w: Wall)
  {
    |w.adjacentCells| >= 1 && forall k :: 0 <= k < |w.adjacentCells| ==> CellIn(b.cells, w.adjacentCells[k])
  }

  ghost predicate RowsCollectable(b: BoardState, rows: seq<seq<Wall>>)
  {
    forall r, c :: 0 <= r < |rows| && 0 <= c < |rows[r]| && !rows[r][c].isClicked ==> Measurable(b, rows[r][c])
  }

  /** No open wall of the board would make `collect_wall_statistics` panic. */
  ghost predicate Collectable(b: BoardState)
  {
    RowsCollectable(b, b.walls)
  }

  function StatOf(b: BoardState, w: Wall): WallStatistics
    requires Measurable(b, w)
  {
    WallStatistics(w.id.0, w.id.1, MaxCounter(b.cells, w.adjacentCells))
  }

  function CollectRow(b: BoardState, ws: seq<Wall>): seq<WallStatistics>
    requires forall c :: 0 <= c < |ws| && !ws[c].isClicked ==> Measurable(b, ws[c])
  {
    if ws == [] then []
    else
      var w := ws[|ws| - 1];
      CollectRow(b, ws[..|ws| - 1]) + (if w.isClicked then [] else [StatOf(b, w)])
  }

  function CollectRows(b: BoardState, rows: seq<seq<Wall>>): seq<WallStatistics>
    requires RowsCollectable(b, rows)
  {
    if rows == [] then []
    else
      var pre := rows[..|rows| - 1];
      assert RowsCollectable(b, pre) by {
        forall r, c | 0 <= r < |pre| && 0 <= c < |pre[r]| && !pre[r][c].isClicked
          ensures Measurable(b, pre[r][c])
        {
          assert pre[r] == rows[r];
        }
      }
      CollectRows(b, pre) + CollectRow(b, rows[|rows| - 1])
  }

  /** `collect_wall_statistics`: the walls flattened row by row, the clicked ones dropped. */
  function CollectWallStatistics(b: BoardState): seq<WallStatistics>
    requires Collectable(b)
  {
    CollectRows(b, b.walls)
  }

  /** The statistic of the wall at m. */
  function WallStat(b: BoardState, m: (nat, nat)): WallStatistics
    requires IsWall(b, m) && Measurable(b, b.walls[m.0][m.1])
  {
    StatOf(b, b.walls[m.0][m.1])
  }

  /** The largest counter among the cells of the wall at m. */
  function WallMax(b: BoardState, m: (nat, nat)): nat
    requires IsWall(b, m) && Measurable(b, b.walls[m.0][m.1])
  {
    MaxCounter(b.cells, b.walls[m.0][m.1].adjacentCells)
  }

  /** Row-major order of wall positions. */
  predicate Before(p: (nat, nat), q: (nat, nat))
  {
    p.0 < q.0 || (p.0 == q.0 && p.1 < q.1)
  }

  /** One row of walls whose ids are their own positions in row r. */
  ghost predicate RowIds(ws: seq<Wall>, r: nat)
  {
    forall c :: 0 <= c < |ws| ==> ws[c].id == (r, c)
  }

  /** The entries collected from one row are open walls of that row, with their statistics, in
      order of column. */
  lemma {:induction false} CollectRowSpec(b: BoardState, ws: seq<Wall>, r: nat)
    requires RowIds(ws, r)
    requires forall c :: 0 <= c < |ws| && !ws[c].isClicked ==> Measurable(b, ws[c])
    ensures forall i :: 0 <= i < |CollectRow(b, ws)| ==>
              var x := CollectRow(b, ws)[i];
              x.row == r && x.col < |ws| && !ws[x.col].isClicked && x == StatOf(b, ws[x.col])
    ensures forall i, j :: 0 <= i < j < |CollectRow(b, ws)| ==> CollectRow(b, ws)[i].col < CollectRow(b, ws)[j].col
  {
    if ws != [] {
      var pre := ws[..|ws| - 1];
      assert forall c :: 0 <= c < |pre| ==> pre[c] == ws[c];
      CollectRowSpec(b, pre, r);
      var head, w := CollectRow(b, pre), ws[|ws| - 1];
      var tail := if w.isClicked then [] else [StatOf(b, w)];
      var s := CollectRow(b, ws);
      assert s == head + tail;
      forall i | 0 <= i < |s|
        ensures s[i].row == r && s[i].col < |ws| && !ws[s[i].col].isClicked && s[i] == StatOf(b, ws[s[i].col])
      {
        if i < |head| {
          assert s[i] == head[i];
          assert pre[head[i].col] == ws[head[i].col];
        } else {
          assert tail != [];
          assert s[i] == StatOf(b, w) && w.id == (r, |ws| - 1);
        }
      }
      forall i, j | 0 <= i < j < |s|
        ensures s[i].col < s[j].col
      {
        if j < |head| {
          assert s[i] == head[i] && s[j] == head[j];
        } else {
          assert s[i] == head[i] && s[j] == StatOf(b, w) && w.id == (r, |ws| - 1);
        }
      }
    }
  }

  /** Every open wall of one row is collected. */
  lemma {:induction false} CollectRowComplete(b: BoardState, ws: seq<Wall>)
    requires forall c :: 0 <= c < |ws| && !ws[c].isClicked ==> Measurable(b, ws[c])
    ensures forall c :: 0 <= c < |ws| && !ws[c].isClicked ==> StatOf(b, ws[c]) in CollectRow(b, ws)
  {
    if ws != [] {
      var pre := ws[..|ws| - 1];
      assert forall c :: 0 <= c < |pre| ==> pre[c] == ws[c];
      CollectRowComplete(b, pre);
    }
  }

  /** Rows of walls whose ids are their own positions. */
  ghost predicate RowsIds(rows: seq<seq<Wall>>)
  {
    forall r :: 0 <= r < |rows| ==> RowIds(rows[r], r)
  }

  /** Every entry of s is an open wall of the rows, with its statistics. */
  ghost predicate SoundStats(b: BoardState, rows: seq<seq<Wall>>, s: seq<WallStatistics>)
  {
    forall i :: 0 <= i < |s| ==>
      s[i].row < |rows| && s[i].col < |rows[s[i].row]| && !rows[s[i].row][s[i].col].isClicked
      && Measurable(b, rows[s[i].row][s[i].col]) && s[i] == StatOf(b, rows[s[i].row][s[i].col])
  }

  /** The entries of s are in row-major order. */
  predicate RowMajor(s: seq<WallStatistics>)
  {
    forall i, j :: 0 <= i < j < |s| ==> Before(Pos(s[i]), Pos(s[j]))
  }

  /** The entries collected from rows are open walls of those rows, with their statistics. */
  lemma {:induction false} CollectRowsSound(b: BoardState, rows: seq<seq<Wall>>)
    requires RowsIds(rows) && RowsCollectable(b, rows)
    ensures SoundStats(b, rows, CollectRows(b, rows))
  {
    if rows != [] {
      var n := |rows|;
      var pre := rows[..n - 1];
      assert forall r :: 0 <= r < n - 1 ==> pre[r] == rows[r];
      CollectRowsSound(b, pre);
      var w := rows[n - 1];
      assert RowIds(w, n - 1);
      CollectRowSpec(b, w, n - 1);
      var s := CollectRows(b, rows);
      var head := CollectRows(b, pre);
      var last := CollectRow(b, w);
      assert s == head + last;
      forall i | 0 <= i < |s|
        ensures s[i].row < n && s[i].col < |rows[s[i].row]| && !rows[s[i].row][s[i].col].isClicked
        ensures s[i] == StatOf(b, rows[s[i].row][s[i].col])
      {
        if i < |head| {
          assert s[i] == head[i];
          assert head[i].row < |pre| && head[i].col < |pre[head[i].row]|;
          assert pre[s[i].row] == rows[s[i].row];
        } else {
          assert s[i] == last[i - |head|];
          assert s[i].row == n - 1;
        }
      }
    }
  }

  /** Every open wall of the rows is collected. */
  lemma {:induction false} CollectRowsComplete(b: BoardState, rows: seq<seq<Wall>>)
    requires RowsCollectable(b, rows)
    ensures forall r, c :: 0 <= r < |rows| && 0 <= c < |rows[r]| && !rows[r][c].isClicked ==>
              StatOf(b, rows[r][c]) in CollectRows(b, rows)
  {
    if rows != [] {
      var n := |rows|;
      var pre := rows[..n - 1];
      assert forall r :: 0 <= r < n - 1 ==> pre[r] == rows[r];
      CollectRowsComplete(b, pre);
      var w := rows[n - 1];
      CollectRowComplete(b, w);
      var s := CollectRows(b, rows);
      var head := CollectRows(b, pre);
      var last := CollectRow(b, w);
      assert s == head + last;
      forall r, c | 0 <= r < n && 0 <= c < |rows[r]| && !rows[r][c].isClicked
        ensures StatOf(b, rows[r][c]) in s
      {
        if r < n - 1 {
          assert rows[r] == pre[r];
          assert StatOf(b, pre[r][c]) in head;
        } else {
          assert StatOf(b, w[c]) in last;
        }
      }
    }
  }

  /** The entries come out in row-major order. */
  lemma {:induction false} CollectRowsOrdered(b: BoardState, rows: seq<seq<Wall>>)
    requires RowsIds(rows) && RowsCollectable(b, rows)
    ensures RowMajor(CollectRows(b, rows))
  {
    if rows != [] {
      var n := |rows|;
      var pre := rows[..n - 1];
      assert forall r :: 0 <= r < n - 1 ==> pre[r] == rows[r];
      CollectRowsOrdered(b, pre);
      CollectRowsSound(b, pre);
      var w := rows[n - 1];
      assert RowIds(w, n - 1);
      CollectRowSpec(b, w, n - 1);
      var head := CollectRows(b, pre);
      assert CollectRows(b, rows) == head + CollectRow(b, w);
      assert forall i :: 0 <= i < |head| ==> head[i].row < n - 1;
      RowMajorAppend(head, CollectRow(b, w), n - 1);
    }
  }

  /** A row-major list followed by the entries of a later row, left to right, is row-major. */
  lemma RowMajorAppend(head: seq<WallStatistics>, last: seq<WallStatistics>, n: nat)
    requires RowMajor(head)
    requires forall i :: 0 <= i < |head| ==> head[i].row < n
    requires forall i :: 0 <= i < |last| ==> last[i].row == n
    requires forall i, j :: 0 <= i < j < |last| ==> last[i].col < last[j].col
    ensures RowMajor(head + last)
  {
    var s := head + last;
    forall i, j | 0 <= i < j < |s|
      ensures Before(Pos(s[i]), Pos(s[j]))
    {
      if j < |head| {
        assert s[i] == head[i] && s[j] == head[j];
      } else if i < |head| {
        assert s[i] == head[i] && s[j] == last[j - |head|];
      } else {
        assert s[i] == last[i - |head|] && s[j] == last[j - |head|];
      }
    }
  }

  /** `collect_wall_statistics` yields exactly one entry per open wall, in row-major order, each
      carrying the wall's position and the largest counter among its cells. */
  lemma CollectSpec(b: BoardState)
    requires Shaped(b) && Collectable(b)
    ensures var s := CollectWallStatistics(b);
      && (forall i :: 0 <= i < |s| ==> IsUnclickedWall(b, Pos(s[i])) && s[i] == WallStat(b, Pos(s[i])))
      && (forall m :: IsUnclickedWall(b, m) ==> WallStat(b, m) in s)
      && (forall i, j :: 0 <= i < j < |s| ==> Before(Pos(s[i]), Pos(s[j])))
  {
    assert RowsIds(b.walls) by {
      forall r, c | 0 <= r < |b.walls| && 0 <= c < |b.walls[r]|
        ensures b.walls[r][c].id == (r, c)
      {
        assert WallFits(b.width, b.height, b.walls[r][c], r, c);
      }
    }
    CollectRowsSound(b, b.walls);
    CollectRowsComplete(b, b.walls);
    CollectRowsOrdered(b, b.walls);
    var s := CollectWallStatistics(b);
    forall i | 0 <= i < |s|
      ensures IsUnclickedWall(b, Pos(s[i])) && s[i] == WallStat(b, Pos(s[i]))
    {
      assert Pos(s[i]) == (s[i].row, s[i].col);
    }
  }

  lemma CollectMembers(b: BoardState, ws: WallStatistics)
    requires Shaped(b) && Collectable(b)
    ensures ws in CollectWallStatistics(b) <==> IsUnclickedWall(b, Pos(ws)) && ws == WallStat(b, Pos(ws))
  {
    CollectSpec(b);
  }

  // ---------------------------------------------------------------- boards the players accept

  /** A board the AI can be asked to move on: well formed, its points free to disagree with its
      owners (as on a board read from text), with at least one cell (a grid with rows but no
      columns, or the reverse, has walls with no cell, on which `collect_wall_statistics`
      panics). */
  ghost predicate Playable(b: BoardState)
  {
    WellFormed(b) && b.width >= 1 && b.height >= 1
  }

  /** Whether the players accept a board does not depend on its points: a board read from text,
      with owned cells and zero points, is accepted as the same board with matching points. */
  lemma PlayableIgnoresPoints(b: BoardState, s: GameStatistics)
    ensures Playable(b.(statistics := s)) <==> Playable(b)
  {
    var nb := b.(statistics := s);
    if Playable(b) {
      SameWallsPlayable(b, nb);
    }
    if Playable(nb) {
      SameWallsPlayable(nb, b);
    }
  }

  /** Two boards that differ at most in their points. */
  lemma SameWallsPlayable(b: BoardState, nb: BoardState)
    requires Playable(b)
    requires nb.width == b.width && nb.height == b.height
    requires nb.cells == b.cells && nb.joints == b.joints && nb.walls == b.walls
    ensures Playable(nb)
  {
    assert Shaped(nb) && OwnersMatchCounters(nb.cells);
    assert CountersMatchWalls(nb) by {
      forall i, j | 0 <= i < |nb.cells| && 0 <= j < |nb.cells[i]|
        ensures nb.cells[i][j].counter == ClickedAround(nb, i, j)
      {
        assert ClickedAround(nb, i, j) == ClickedAround(b, i, j);
      }
    }
    assert JointsMatchWalls(nb) by {
      forall i, j | 0 <= i < |nb.joints| && 0 <= j < |nb.joints[i]|
        ensures && nb.joints[i][j].northWallClicked == NorthClicked(nb, i, j)
                && nb.joints[i][j].eastWallClicked == EastClicked(nb, i, j)
                && nb.joints[i][j].southWallClicked == SouthClicked(nb, i, j)
                && nb.joints[i][j].westWallClicked == WestClicked(nb, i, j)
      {
        assert NorthClicked(nb, i, j) == NorthClicked(b, i, j);
        assert EastClicked(nb, i, j) == EastClicked(b, i, j);
        assert SouthClicked(nb, i, j) == SouthClicked(b, i, j);
        assert WestClicked(nb, i, j) == WestClicked(b, i, j);
      }
    }
  }

  /** Every new board with at least one cell is accepted. */
  lemma NewBoardPlayable(width: nat, height: nat)
    requires width >= 1 && height >= 1
    ensures Playable(NewBoard(width, height))
  {
    NewBoardConsistent(width, height);
  }

  /** On a playable board every open wall has cells, and none of them is complete. */
  lemma PlayableFacts(b: BoardState)
    requires Playable(b)
    ensures Collectable(b)
    ensures forall m :: IsUnclickedWall(b, m) ==> WallMax(b, m) <= 3
  {
    forall r, c | 0 <= r < |b.walls| && 0 <= c < |b.walls[r]| && !b.walls[r][c].isClicked
      ensures Measurable(b, b.walls[r][c])
    {
      assert WallFits(b.width, b.height, b.walls[r][c], r, c);
      NewBoardAdjacency(b.width, b.height, r, c);
    }
    forall m | IsUnclickedWall(b, m)
      ensures WallMax(b, m) <= 3
    {
      OpenWallNeighbours(b, m.0, m.1);
    }
  }

  /** The largest counter next to an open wall of a playable board. */
  ghost function OpenMax(b: BoardState, m: (nat, nat)): (n: nat)
    requires Playable(b) && IsUnclickedWall(b, m)
    ensures n <= 3
  {
    PlayableFacts(b);
    WallMax(b, m)
  }

  /** Clicking keeps a board playable. */
  lemma ClickPlayable(b: BoardState, row: nat, col: nat, player: Player)
    requires Playable(b)
    ensures Playable(Click(b, row, col, player).board)
  {
    ClickPreservesWellFormed(b, row, col, player);
  }

  // ---------------------------------------------------------------- priority

  /** `wall_priority`: the order the minimax players try moves in. */
  function WallPriority(ws: WallStatistics): (p: nat)
    requires ws.maxAdjacentCounter <= 3
    ensures p <= 2
  {
    match ws.maxAdjacentCounter
    case 3 => 0
    case 0 => 1
    case 1 => 1
    case 2 => 2
  }

  /** The priority of an open wall of a playable board. */
  ghost function Priority(b: BoardState, m: (nat, nat)): (p: nat)
    requires Playable(b) && IsUnclickedWall(b, m)
    ensures p <= 2
  {
    PlayableFacts(b);
    WallPriority(WallStat(b, m))
  }

  /** The priorities follow the greedy tiers: completing a cell first, then a safe wall, then a
      wall that hands a cell to the opponent. */
  lemma PriorityMatchesTiers(ws: WallStatistics)
    requires ws.maxAdjacentCounter <= 3
    ensures WallPriority(ws) == 0 <==> ws.maxAdjacentCounter == 3
    ensures WallPriority(ws) == 1 <==> ws.maxAdjacentCounter <= 1
    ensures WallPriority(ws) == 2 <==> ws.maxAdjacentCounter == 2
  {
  }
}
