/**
  What `Board::new` establishes and `click_wall` preserves: the grid shape, a cell's counter
  equals the number of its clicked walls, a cell is owned exactly when its counter is 4, each
  joint shows which of its walls are clicked, and every player's points are the cells they own.
  Together with the exact effect of one click on a board in that state.
*/
module GameInvariants {
  import opened Wrappers
  import opened Game

  // ---------------------------------------------------------------- the invariant

  /** The four walls around cell (i, j): top, bottom, left, right. */
  function CellWalls(i: nat, j: nat): seq<(nat, nat)>
  {
    [(2 * i, j), (2 * i + 2, j), (2 * i + 1, j), (2 * i + 1, j + 1)]
  }

  /** The wall named by m exists and is clicked. */
  predicate Clicked(b: BoardState, m: (nat, nat))
  {
    IsWall(b, m) && b.walls[m.0][m.1].isClicked
  }

  /** How many of the four walls of cell (i, j) are clicked. */
  function ClickedAround(b: BoardState, i: nat, j: nat): (n: nat)
    ensures n <= 4
  {
    Ind(Clicked(b, (2 * i, j))) + Ind(Clicked(b, (2 * i + 2, j)))
    + Ind(Clicked(b, (2 * i + 1, j))) + Ind(Clicked(b, (2 * i + 1, j + 1)))
  }

  ghost predicate OwnersMatchCounters(cells: seq<seq<Cell>>)
  {
    forall i, j :: 0 <= i < |cells| && 0 <= j < |cells[i]| ==>
      cells[i][j].counter <= 4 && (cells[i][j].owner.Some? <==> cells[i][j].counter == 4)
  }

  ghost predicate CountersMatchWalls(b: BoardState)
  {
    forall i, j {:trigger ClickedAround(b, i, j)} :: 0 <= i < |b.cells| && 0 <= j < |b.cells[i]| ==> b.cells[i][j].counter == ClickedAround(b, i, j)
  }

  /** The flags joint (i, j) should show: the wall above, right of, below and left of the corner. */
  predicate NorthClicked(b: BoardState, i: nat, j: nat)
  {
    1 <= i && Clicked(b, (2 * i - 1, j))
  }

  predicate EastClicked(b: BoardState, i: nat, j: nat)
  {
    Clicked(b, (2 * i, j))
  }

  predicate SouthClicked(b: BoardState, i: nat, j: nat)
  {
    Clicked(b, (2 * i + 1, j))
  }

  predicate WestClicked(b: BoardState, i: nat, j: nat)
  {
    1 <= j && Clicked(b, (2 * i, j - 1))
  }

  ghost predicate JointsMatchWalls(b: BoardState)
  {
    forall i, j :: 0 <= i < |b.joints| && 0 <= j < |b.joints[i]| ==>
      && b.joints[i][j].northWallClicked == NorthClicked(b, i, j)
      && b.joints[i][j].eastWallClicked == EastClicked(b, i, j)
      && b.joints[i][j].southWallClicked == SouthClicked(b, i, j)
      && b.joints[i][j].westWallClicked == WestClicked(b, i, j)
  }

  function OwnedInRow(row: seq<Cell>, p: Player): nat
  {
    if row == [] then 0 else OwnedInRow(row[..|row| - 1], p) + Ind(row[|row| - 1].owner == Some(p))
  }

  /** Number of cells owned by `p`. */
  function Owned(cells: seq<seq<Cell>>, p: Player): nat
  {
    if cells == [] then 0 else Owned(cells[..|cells| - 1], p) + OwnedInRow(cells[|cells| - 1], p)
  }

  ghost predicate ScoresMatch(s: GameStatistics, cells: seq<seq<Cell>>)
  {
    forall p :: PointsOf(s, p) == Owned(cells, p)
  }

  /** The part of the invariant that clicking and the players rely on. A board read by
      `from_str` can meet it while its points (left at zero) disagree with its owners. */
  ghost predicate WellFormed(b: BoardState)
  {
    && Shaped(b)
    && OwnersMatchCounters(b.cells)
    && CountersMatchWalls(b)
    && JointsMatchWalls(b)
  }

  /** Every board reachable from `Board::new` by clicks satisfies this. */
  ghost predicate Consistent(b: BoardState)
  {
    WellFormed(b) && ScoresMatch(b.statistics, b.cells)
  }

  // ---------------------------------------------------------------- the fresh board

  lemma NewBoardShaped(width: nat, height: nat)
    ensures Shaped(NewBoard(width, height))
    ensures |NewBoard(width, height).cells| == height
    ensures |NewBoard(width, height).joints| == height + 1
    ensures |NewBoard(width, height).walls| == 2 * height + 1
  {
  }

  /** `Board::new` gives every wall of a board with at least one row and column one or two cells. */
  lemma NewBoardAdjacency(width: nat, height: nat, row: nat, col: nat)
    requires width >= 1 && height >= 1
    requires row < 2 * height + 1 && col < WallsInRow(width, row)
    ensures 1 <= |AdjacentCellsOf(width, height, row, col)| <= 2
    ensures Distinct(AdjacentCellsOf(width, height, row, col))
  {
    AdjacentCellsDistinct(width, height, row, col);
    AdjacentCellsMembers(width, height, row, col);
    if row % 2 == 0 {
      if row / 2 < height {
        assert (row / 2, col) in AdjacentCellsOf(width, height, row, col);
      } else {
        assert (row / 2 - 1, col) in AdjacentCellsOf(width, height, row, col);
      }
    } else {
      if col < width {
        assert (row / 2, col) in AdjacentCellsOf(width, height, row, col);
      } else {
        assert (row / 2, col - 1) in AdjacentCellsOf(width, height, row, col);
      }
    }
  }

  lemma NewBoardConsistent(width: nat, height: nat)
    ensures Consistent(NewBoard(width, height))
    ensures NewBoard(width, height).statistics == DefaultStatistics
  {
    var b := NewBoard(width, height);
    NewBoardShaped(width, height);
    NewBoardNothingClicked(width, height);
    assert CountersMatchWalls(b) by {
      forall i, j | 0 <= i < |b.cells| && 0 <= j < |b.cells[i]|
        ensures b.cells[i][j].counter == ClickedAround(b, i, j)
      {
        assert ClickedAround(b, i, j) == 0;
      }
    }
    assert JointsMatchWalls(b);
    forall p { NoneOwned(b.cells, p); }
  }

  lemma NewBoardNothingClicked(width: nat, height: nat)
    ensures forall m :: !Clicked(NewBoard(width, height), m)
  {
  }

  lemma NoneOwned(cells: seq<seq<Cell>>, p: Player)
    requires forall i, j :: 0 <= i < |cells| && 0 <= j < |cells[i]| ==> cells[i][j].owner == None
    ensures Owned(cells, p) == 0
  {
    if cells != [] {
      NoneOwnedInRow(cells[|cells| - 1], p);
      NoneOwned(cells[..|cells| - 1], p);
    }
  }

  lemma NoneOwnedInRow(row: seq<Cell>, p: Player)
    requires forall j :: 0 <= j < |row| ==> row[j].owner == None
    ensures OwnedInRow(row, p) == 0
  {
    if row != [] {
      NoneOwnedInRow(row[..|row| - 1], p);
    }
  }

  // ---------------------------------------------------------------- helpers about lists

  predicate Distinct<T(==)>(s: seq<T>)
  {
    forall a, b :: 0 <= a < b < |s| ==> s[a] != s[b]
  }

  lemma {:induction false} InBoundsCellsDistinct(width: nat, height: nat, cs: seq<(int, int)>)
    requires Distinct(cs)
    ensures Distinct(InBoundsCells(width, height, cs))
  {
    if cs != [] {
      var init := cs[..|cs| - 1];
      InBoundsCellsDistinct(width, height, init);
      InBoundsCellsMembers(width, height, init);
      assert cs[|cs| - 1] !in init by {
        forall k | 0 <= k < |init|
          ensures init[k] != cs[|cs| - 1]
        {
          assert init[k] == cs[k];
        }
      }
    }
  }

  lemma AdjacentCellsDistinct(width: nat, height: nat, row: nat, col: nat)
    ensures Distinct(AdjacentCellsOf(width, height, row, col))
  {
    InBoundsCellsDistinct(width, height, CandidateCells(row, col));
  }

  /** The adjacency `Board::new` records is the converse of "is one of the cell's four walls". */
  lemma AdjacencySymmetric(width: nat, height: nat, row: nat, col: nat, i: nat, j: nat)
    requires i < height && j < width
    ensures (i, j) in AdjacentCellsOf(width, height, row, col) <==> (row, col) in CellWalls(i, j)
  {
    AdjacentCellsMembers(width, height, row, col);
    var h := row / 2;
    var walls := CellWalls(i, j);
    assert (row, col) in walls <==>
      (row, col) == walls[0] || (row, col) == walls[1] || (row, col) == walls[2] || (row, col) == walls[3];
    if row % 2 == 0 {
      assert row == 2 * h;
      assert (row, col) in walls <==> (h == i || h == i + 1) && col == j;
      var cs := CandidateCells(row, col);
      assert cs == [(h - 1, col), (h, col)];
      assert (i, j) in cs <==> (i, j) == cs[0] || (i, j) == cs[1];
    } else {
      assert row == 2 * h + 1;
      assert (row, col) in walls <==> h == i && (col == j || col == j + 1);
      var cs := CandidateCells(row, col);
      assert cs == [(h, col - 1), (h, col)];
      assert (i, j) in cs <==> (i, j) == cs[0] || (i, j) == cs[1];
    }
  }

  // ---------------------------------------------------------------- the cell loop

  /** What the cell loop does to one cell it visits. */
  function Bumped(c: Cell, player: Player): (r: Cell)
    ensures r.id == c.id
    ensures c.counter < 4 ==> r.counter == c.counter + 1
    ensures c.counter >= 4 ==> r == c
    ensures r.owner == if c.counter == 3 then Some(player) else c.owner
  {
    if c.counter < 4 then
      c.(counter := c.counter + 1, owner := if c.counter + 1 == 4 then Some(player) else c.owner)
    else c
  }

  /** Number of visited cells that reach 4. */
  function Completions(cells: seq<seq<Cell>>, adj: seq<(nat, nat)>): nat
    requires forall k :: 0 <= k < |adj| ==> CellIn(cells, adj[k])
  {
    if adj == [] then 0
    else
      var last := adj[|adj| - 1];
      assert CellIn(cells, last);
      Completions(cells, adj[..|adj| - 1]) + Ind(cells[last.0][last.1].counter == 3)
  }

  lemma {:induction false} CompletionsPositive(cells: seq<seq<Cell>>, adj: seq<(nat, nat)>)
    requires forall k :: 0 <= k < |adj| ==> CellIn(cells, adj[k])
    ensures Completions(cells, adj) > 0 <==> exists k :: 0 <= k < |adj| && cells[adj[k].0][adj[k].1].counter == 3
  {
    if adj != [] {
      var pre := adj[..|adj| - 1];
      CompletionsPositive(cells, pre);
      if exists k :: 0 <= k < |adj| && cells[adj[k].0][adj[k].1].counter == 3 {
        var k :| 0 <= k < |adj| && cells[adj[k].0][adj[k].1].counter == 3;
        if k < |pre| {
          assert pre[k] == adj[k];
        }
      }
      if exists k :: 0 <= k < |pre| && cells[pre[k].0][pre[k].1].counter == 3 {
        var k :| 0 <= k < |pre| && cells[pre[k].0][pre[k].1].counter == 3;
        assert adj[k] == pre[k];
      }
    }
  }

  /** One step of the cell loop bumps its cell and leaves the others. */
  lemma BumpCellCells(s: ClickState, rc: (nat, nat), player: Player)
    requires CellIn(s.cells, rc)
    ensures SameShape(BumpCell(s, rc, player).cells, s.cells)
    ensures forall i, j :: 0 <= i < |s.cells| && 0 <= j < |s.cells[i]| ==>
              BumpCell(s, rc, player).cells[i][j] ==
                if (i, j) == rc then Bumped(s.cells[i][j], player) else s.cells[i][j]
  {
  }

  /** The exact effect of the cell loop over distinct cells. */
  lemma {:induction false} BumpCellsEffect(s: ClickState, adj: seq<(nat, nat)>, player: Player)
    requires forall k :: 0 <= k < |adj| ==> CellIn(s.cells, adj[k])
    requires Distinct(adj)
    ensures forall i, j :: 0 <= i < |s.cells| && 0 <= j < |s.cells[i]| ==>
              BumpCells(s, adj, player).cells[i][j] ==
                if (i, j) in adj then Bumped(s.cells[i][j], player) else s.cells[i][j]
    ensures PointsOf(BumpCells(s, adj, player).statistics, player) == PointsOf(s.statistics, player) + Completions(s.cells, adj)
    ensures forall q :: q != player ==> PointsOf(BumpCells(s, adj, player).statistics, q) == PointsOf(s.statistics, q)
    ensures BumpCells(s, adj, player).statistics.winner == s.statistics.winner
    ensures BumpCells(s, adj, player).additionalMove == (s.additionalMove || Completions(s.cells, adj) > 0)
  {
    if adj != [] {
      var pre := adj[..|adj| - 1];
      var last := adj[|adj| - 1];
      assert Distinct(pre);
      BumpCellsEffect(s, pre, player);
      var prev := BumpCells(s, pre, player);
      assert last !in pre by {
        forall k | 0 <= k < |pre| ensures pre[k] != last {
          assert pre[k] == adj[k];
        }
      }
      assert prev.cells[last.0][last.1] == s.cells[last.0][last.1];
      BumpCellCells(prev, last, player);
      assert BumpCells(s, adj, player) == BumpCell(prev, last, player);
      forall i, j | 0 <= i < |s.cells| && 0 <= j < |s.cells[i]|
        ensures BumpCells(s, adj, player).cells[i][j] ==
                if (i, j) in adj then Bumped(s.cells[i][j], player) else s.cells[i][j]
      {
        assert (i, j) in adj <==> (i, j) in pre || (i, j) == last by {
          assert adj == pre + [last];
        }
      }
    }
  }

  /** The owner/counter agreement survives the cell loop, and every player gains exactly as
      many points as cells: so a score table that matched the owners still does. */
  lemma {:induction false} BumpCellsKeepsScores(s: ClickState, adj: seq<(nat, nat)>, player: Player)
    requires forall k :: 0 <= k < |adj| ==> CellIn(s.cells, adj[k])
    requires OwnersMatchCounters(s.cells)
    ensures OwnersMatchCounters(BumpCells(s, adj, player).cells)
    ensures forall p :: PointsOf(BumpCells(s, adj, player).statistics, p) + Owned(s.cells, p)
                     == PointsOf(s.statistics, p) + Owned(BumpCells(s, adj, player).cells, p)
    ensures ScoresMatch(s.statistics, s.cells) ==>
              ScoresMatch(BumpCells(s, adj, player).statistics, BumpCells(s, adj, player).cells)
  {
    if adj != [] {
      var pre := adj[..|adj| - 1];
      var last := adj[|adj| - 1];
      BumpCellsKeepsScores(s, pre, player);
      var prev := BumpCells(s, pre, player);
      assert CellIn(s.cells, last);
      BumpCellKeepsScores(prev, last, player);
    }
  }

  /** One step of the cell loop: the same for a single cell. */
  lemma BumpCellKeepsScores(s: ClickState, rc: (nat, nat), player: Player)
    requires CellIn(s.cells, rc) && OwnersMatchCounters(s.cells)
    ensures OwnersMatchCounters(BumpCell(s, rc, player).cells)
    ensures forall p :: PointsOf(BumpCell(s, rc, player).statistics, p) + Owned(s.cells, p)
                     == PointsOf(s.statistics, p) + Owned(BumpCell(s, rc, player).cells, p)
  {
    var next := BumpCell(s, rc, player);
    if s.cells[rc.0][rc.1].counter < 4 {
      forall p ensures PointsOf(next.statistics, p) + Owned(s.cells, p) == PointsOf(s.statistics, p) + Owned(next.cells, p) {
        OwnedSetCell(s.cells, rc, next.cells[rc.0][rc.1], p);
      }
    }
  }

  lemma {:induction false} OwnedInRowSet(row: seq<Cell>, j: nat, c: Cell, p: Player)
    requires j < |row|
    ensures OwnedInRow(row[j := c], p) + Ind(row[j].owner == Some(p)) == OwnedInRow(row, p) + Ind(c.owner == Some(p))
  {
    var n := |row| - 1;
    if j == n {
      assert row[j := c][..n] == row[..n];
    } else {
      assert row[j := c][..n] == row[..n][j := c];
      OwnedInRowSet(row[..n], j, c, p);
    }
  }

  lemma {:induction false} OwnedSetCell(cells: seq<seq<Cell>>, rc: (nat, nat), c: Cell, p: Player)
    requires CellIn(cells, rc)
    ensures Owned(SetCell(cells, rc, c), p) + Ind(cells[rc.0][rc.1].owner == Some(p)) == Owned(cells, p) + Ind(c.owner == Some(p))
  {
    var n := |cells| - 1;
    if rc.0 == n {
      assert SetCell(cells, rc, c)[..n] == cells[..n];
      OwnedInRowSet(cells[n], rc.1, c, p);
    } else {
      assert SetCell(cells, rc, c)[..n] == SetCell(cells[..n], rc, c);
      OwnedSetCell(cells[..n], rc, c, p);
    }
  }

  // ---------------------------------------------------------------- the joint loop

  lemma {:induction false} SetJointsEffect(joints: seq<seq<Joint>>, adj: seq<(Direction, nat, nat)>)
    requires forall k :: 0 <= k < |adj| ==> JointIn(joints, adj[k])
    ensures forall i, j :: 0 <= i < |joints| && 0 <= j < |joints[i]| ==>
              && SetJoints(joints, adj)[i][j].id == joints[i][j].id
              && SetJoints(joints, adj)[i][j].northWallClicked == (joints[i][j].northWallClicked || (North, i, j) in adj)
              && SetJoints(joints, adj)[i][j].eastWallClicked == (joints[i][j].eastWallClicked || (East, i, j) in adj)
              && SetJoints(joints, adj)[i][j].southWallClicked == (joints[i][j].southWallClicked || (South, i, j) in adj)
              && SetJoints(joints, adj)[i][j].westWallClicked == (joints[i][j].westWallClicked || (West, i, j) in adj)
  {
    if adj != [] {
      var pre := adj[..|adj| - 1];
      var last := adj[|adj| - 1];
      SetJointsEffect(joints, pre);
      assert adj == pre + [last];
      forall d: Direction, i: nat, j: nat ensures (d, i, j) in adj <==> (d, i, j) in pre || (d, i, j) == last {
      }
    }
  }

  // ---------------------------------------------------------------- one click

  /** The guard of `click_wall` lets through exactly the coordinates of existing walls. */
  lemma GuardMatchesWalls(b: BoardState, row: nat, col: nat)
    requires Shaped(b)
    ensures WallInRange(b, row, col) <==> IsWall(b, (row, col))
  {
  }

  /** The two rejections of `click_wall`: both leave the board as it was. */
  lemma ClickErrors(b: BoardState, row: nat, col: nat, player: Player)
    requires Shaped(b)
    ensures !IsWall(b, (row, col)) ==> Click(b, row, col, player) == ClickOutcome(b, Err(WrongCoordinates))
    ensures Clicked(b, (row, col)) ==> Click(b, row, col, player) == ClickOutcome(b, Err(AlreadyClicked))
    ensures Click(b, row, col, player).result.Ok? <==> IsUnclickedWall(b, (row, col))
    ensures Click(b, row, col, player).result.Err? ==> Click(b, row, col, player).board == b
  {
  }

  /** A cell that is not one of the wall's neighbours keeps its count of clicked walls. */
  lemma ClickedAfterClick(b: BoardState, row: nat, col: nat, player: Player, m: (nat, nat))
    requires Shaped(b) && IsUnclickedWall(b, (row, col))
    ensures Clicked(Click(b, row, col, player).board, m) == (Clicked(b, m) || m == (row, col))
  {
  }

  /** A successful click clicks its wall and no other. */
  lemma ClickWalls(b: BoardState, row: nat, col: nat, player: Player)
    requires Shaped(b) && IsUnclickedWall(b, (row, col))
    ensures var nb := Click(b, row, col, player).board;
      && nb.width == b.width && nb.height == b.height && |nb.walls| == |b.walls|
      && (forall r :: 0 <= r < |b.walls| ==> |nb.walls[r]| == |b.walls[r]|)
      && (forall r, c :: 0 <= r < |b.walls| && 0 <= c < |b.walls[r]| ==>
            nb.walls[r][c] == if (r, c) == (row, col) then b.walls[r][c].(isClicked := true) else b.walls[r][c])
  {
  }

  lemma ClickShaped(b: BoardState, row: nat, col: nat, player: Player)
    requires Shaped(b)
    ensures Shaped(Click(b, row, col, player).board)
  {
    if IsUnclickedWall(b, (row, col)) {
      var nb := Click(b, row, col, player).board;
      ClickWalls(b, row, col, player);
      assert SameShape(nb.cells, b.cells);
      assert SameShape(nb.joints, b.joints);
      ClickingKeepsShape(b, nb, row, col);
    }
  }

  /** Clicking one wall of a shaped board, and changing nothing of the grids' sizes, leaves it
      shaped. */
  lemma ClickingKeepsShape(b: BoardState, nb: BoardState, row: nat, col: nat)
    requires Shaped(b) && SameShape(nb.cells, b.cells) && SameShape(nb.joints, b.joints)
    requires nb.width == b.width && nb.height == b.height && |nb.walls| == |b.walls|
    requires forall r :: 0 <= r < |b.walls| ==> |nb.walls[r]| == |b.walls[r]|
    requires forall r, c :: 0 <= r < |b.walls| && 0 <= c < |b.walls[r]| ==>
               nb.walls[r][c] == if (r, c) == (row, col) then b.walls[r][c].(isClicked := true) else b.walls[r][c]
    ensures Shaped(nb)
  {
    forall r, c | 0 <= r < |nb.walls| && 0 <= c < |nb.walls[r]|
      ensures WallFits(nb.width, nb.height, nb.walls[r][c], r, c)
    {
      assert WallFits(b.width, b.height, b.walls[r][c], r, c);
    }
  }

  /** A successful click bumps exactly the wall's neighbours. */
  lemma ClickCells(b: BoardState, row: nat, col: nat, player: Player)
    requires Shaped(b) && IsUnclickedWall(b, (row, col))
    ensures var nb := Click(b, row, col, player).board;
      forall i, j :: 0 <= i < |b.cells| && 0 <= j < |b.cells[i]| ==>
        nb.cells[i][j] ==
          if (i, j) in b.walls[row][col].adjacentCells then Bumped(b.cells[i][j], player) else b.cells[i][j]
  {
    var wall := b.walls[row][col];
    AdjacentCellsDistinct(b.width, b.height, row, col);
    BumpCellsEffect(ClickState(b.cells, b.statistics, false), wall.adjacentCells, player);
  }

  /** A successful click raises, at the wall's two ends, the flags that face the wall. */
  lemma ClickJoints(b: BoardState, row: nat, col: nat, player: Player)
    requires Shaped(b) && IsUnclickedWall(b, (row, col))
    ensures var nb := Click(b, row, col, player).board;
      forall i, j :: 0 <= i < |b.joints| && 0 <= j < |b.joints[i]| ==>
        && nb.joints[i][j].id == b.joints[i][j].id
        && nb.joints[i][j].northWallClicked == (b.joints[i][j].northWallClicked || (North, i, j) in AdjacentJointsOf(row, col))
        && nb.joints[i][j].eastWallClicked == (b.joints[i][j].eastWallClicked || (East, i, j) in AdjacentJointsOf(row, col))
        && nb.joints[i][j].southWallClicked == (b.joints[i][j].southWallClicked || (South, i, j) in AdjacentJointsOf(row, col))
        && nb.joints[i][j].westWallClicked == (b.joints[i][j].westWallClicked || (West, i, j) in AdjacentJointsOf(row, col))
  {
    AdjacentJointsInBounds(b, row, col);
    SetJointsEffect(b.joints, AdjacentJointsOf(row, col));
  }

  /** A successful click gives the clicker one point per completed neighbour and reports whether
      there was any. */
  lemma ClickScores(b: BoardState, row: nat, col: nat, player: Player)
    requires Shaped(b) && IsUnclickedWall(b, (row, col))
    ensures var nb := Click(b, row, col, player).board;
      var adj := b.walls[row][col].adjacentCells;
      && PointsOf(nb.statistics, player) == PointsOf(b.statistics, player) + Completions(b.cells, adj)
      && (forall q :: q != player ==> PointsOf(nb.statistics, q) == PointsOf(b.statistics, q))
      && nb.statistics.winner == b.statistics.winner
      && Click(b, row, col, player).result ==
           Ok(exists k :: 0 <= k < |adj| && b.cells[adj[k].0][adj[k].1].counter == 3)
  {
    var wall := b.walls[row][col];
    AdjacentCellsDistinct(b.width, b.height, row, col);
    BumpCellsEffect(ClickState(b.cells, b.statistics, false), wall.adjacentCells, player);
    CompletionsPositive(b.cells, wall.adjacentCells);
  }

  lemma {:induction false} UnclickedInRowSet(ws: seq<Wall>, c: nat, w: Wall)
    requires c < |ws|
    ensures UnclickedInRow(ws[c := w]) + Ind(!ws[c].isClicked) == UnclickedInRow(ws) + Ind(!w.isClicked)
  {
    var n := |ws| - 1;
    if c == n {
      assert ws[c := w][..n] == ws[..n];
    } else {
      assert ws[c := w][..n] == ws[..n][c := w];
      UnclickedInRowSet(ws[..n], c, w);
    }
  }

  lemma {:induction false} UnclickedInRowsSet(rows: seq<seq<Wall>>, r: nat, c: nat, w: Wall)
    requires r < |rows| && c < |rows[r]|
    ensures UnclickedInRows(rows[r := rows[r][c := w]]) + Ind(!rows[r][c].isClicked)
            == UnclickedInRows(rows) + Ind(!w.isClicked)
  {
    var n := |rows| - 1;
    if r == n {
      assert rows[r := rows[r][c := w]][..n] == rows[..n];
      UnclickedInRowSet(rows[n], c, w);
    } else {
      assert rows[r := rows[r][c := w]][..n] == rows[..n][r := rows[r][c := w]];
      UnclickedInRowsSet(rows[..n], r, c, w);
    }
  }

  /** The termination measure of every simulation: a successful click removes one unclicked wall. */
  lemma ClickDecreasesUnclicked(b: BoardState, row: nat, col: nat, player: Player)
    requires Shaped(b)
    ensures Click(b, row, col, player).result.Ok? ==>
              UnclickedCount(Click(b, row, col, player).board) + 1 == UnclickedCount(b)
    ensures Click(b, row, col, player).result.Err? ==>
              UnclickedCount(Click(b, row, col, player).board) == UnclickedCount(b)
  {
    if IsUnclickedWall(b, (row, col)) {
      var wall := b.walls[row][col];
      UnclickedInRowsSet(b.walls, row, col, wall.(isClicked := true));
    }
  }

  /** A cell with an open wall has at most three clicked walls. */
  lemma OpenWallBoundsCount(b: BoardState, i: nat, j: nat, m: (nat, nat))
    requires m in CellWalls(i, j) && !Clicked(b, m)
    ensures ClickedAround(b, i, j) <= 3
  {
  }

  /** A wall that is still open has no neighbour with a full counter. */
  lemma OpenWallNeighbours(b: BoardState, row: nat, col: nat)
    requires WellFormed(b) && IsUnclickedWall(b, (row, col))
    ensures forall k :: 0 <= k < |b.walls[row][col].adjacentCells| ==>
              CellIn(b.cells, b.walls[row][col].adjacentCells[k]) &&
              b.cells[b.walls[row][col].adjacentCells[k].0][b.walls[row][col].adjacentCells[k].1].counter <= 3
  {
    var adj := b.walls[row][col].adjacentCells;
    assert adj == AdjacentCellsOf(b.width, b.height, row, col);
    forall k | 0 <= k < |adj|
      ensures CellIn(b.cells, adj[k]) && b.cells[adj[k].0][adj[k].1].counter <= 3
    {
      var i, j := adj[k].0, adj[k].1;
      AdjacencySymmetric(b.width, b.height, row, col, i, j);
      OpenWallBoundsCount(b, i, j, (row, col));
    }
  }

  /** `click_wall` keeps a board reachable from `Board::new` consistent. */
  lemma ClickPreservesConsistent(b: BoardState, row: nat, col: nat, player: Player)
    requires Consistent(b)
    ensures Consistent(Click(b, row, col, player).board)
  {
    ClickPreservesWellFormed(b, row, col, player);
    if IsUnclickedWall(b, (row, col)) {
      var adj := b.walls[row][col].adjacentCells;
      BumpCellsKeepsScores(ClickState(b.cells, b.statistics, false), adj, player);
    }
  }

  /** `click_wall` keeps the structural part of the invariant, whatever the points say. */
  lemma ClickPreservesWellFormed(b: BoardState, row: nat, col: nat, player: Player)
    requires WellFormed(b)
    ensures WellFormed(Click(b, row, col, player).board)
  {
    ClickShaped(b, row, col, player);
    if IsUnclickedWall(b, (row, col)) {
      ClickKeepsCounters(b, row, col, player);
      ClickKeepsJoints(b, row, col, player);
      var adj := b.walls[row][col].adjacentCells;
      BumpCellsKeepsScores(ClickState(b.cells, b.statistics, false), adj, player);
    }
  }

  /** Clicking one open wall adds one to the count of exactly the cells it borders. */
  lemma ClickedAroundAfter(b: BoardState, nb: BoardState, m0: (nat, nat), i: nat, j: nat)
    requires !Clicked(b, m0)
    requires forall m :: Clicked(nb, m) == (Clicked(b, m) || m == m0)
    ensures ClickedAround(nb, i, j) == ClickedAround(b, i, j) + Ind(m0 in CellWalls(i, j))
  {
    assert Clicked(nb, (2 * i, j)) == (Clicked(b, (2 * i, j)) || (2 * i, j) == m0);
    assert Clicked(nb, (2 * i + 2, j)) == (Clicked(b, (2 * i + 2, j)) || (2 * i + 2, j) == m0);
    assert Clicked(nb, (2 * i + 1, j)) == (Clicked(b, (2 * i + 1, j)) || (2 * i + 1, j) == m0);
    assert Clicked(nb, (2 * i + 1, j + 1)) == (Clicked(b, (2 * i + 1, j + 1)) || (2 * i + 1, j + 1) == m0);
  }

  /** Both invariants a click keeps, for callers that may or may not know consistency. */
  lemma ClickKeepsInvariants(b: BoardState, row: nat, col: nat, player: Player)
    requires Shaped(b)
    ensures Shaped(Click(b, row, col, player).board)
    ensures Consistent(b) ==> Consistent(Click(b, row, col, player).board)
  {
    ClickShaped(b, row, col, player);
    if Consistent(b) {
      ClickPreservesConsistent(b, row, col, player);
    }
  }

  lemma ClickKeepsCounters(b: BoardState, row: nat, col: nat, player: Player)
    requires WellFormed(b) && IsUnclickedWall(b, (row, col))
    ensures CountersMatchWalls(Click(b, row, col, player).board)
  {
    var nb := Click(b, row, col, player).board;
    var adj := b.walls[row][col].adjacentCells;
    assert adj == AdjacentCellsOf(b.width, b.height, row, col);
    ClickCells(b, row, col, player);
    ClickShaped(b, row, col, player);
    OpenWallNeighbours(b, row, col);
    forall m ensures Clicked(nb, m) == (Clicked(b, m) || m == (row, col)) {
      ClickedAfterClick(b, row, col, player, m);
    }
    forall i, j | 0 <= i < |nb.cells| && 0 <= j < |nb.cells[i]|
      ensures nb.cells[i][j].counter == ClickedAround(nb, i, j)
    {
      AdjacencySymmetric(b.width, b.height, row, col, i, j);
      CounterAfter(b, nb, (row, col), b.cells[i][j], nb.cells[i][j], player, i, j);
    }
  }

  /** One cell's counter keeps matching its walls across a click. */
  lemma CounterAfter(b: BoardState, nb: BoardState, m0: (nat, nat), c: Cell, c': Cell, player: Player, i: nat, j: nat)
    requires !Clicked(b, m0)
    requires forall m :: Clicked(nb, m) == (Clicked(b, m) || m == m0)
    requires c.counter == ClickedAround(b, i, j)
    requires c' == if m0 in CellWalls(i, j) then Bumped(c, player) else c
    ensures c'.counter == ClickedAround(nb, i, j)
  {
    ClickedAroundAfter(b, nb, m0, i, j);
    if m0 in CellWalls(i, j) {
      OpenWallBoundsCount(b, i, j, m0);
    }
  }

  /** Which flag of which joint a wall raises, in terms of the joint's own walls. */
  lemma JointDirections(row: nat, col: nat, i: nat, j: nat)
    ensures (North, i, j) in AdjacentJointsOf(row, col) <==> 1 <= i && (2 * i - 1, j) == (row, col)
    ensures (East, i, j) in AdjacentJointsOf(row, col) <==> (2 * i, j) == (row, col)
    ensures (South, i, j) in AdjacentJointsOf(row, col) <==> (2 * i + 1, j) == (row, col)
    ensures (West, i, j) in AdjacentJointsOf(row, col) <==> 1 <= j && (2 * i, j - 1) == (row, col)
  {
  }

  lemma ClickKeepsJoints(b: BoardState, row: nat, col: nat, player: Player)
    requires WellFormed(b) && IsUnclickedWall(b, (row, col))
    ensures JointsMatchWalls(Click(b, row, col, player).board)
  {
    var nb := Click(b, row, col, player).board;
    ClickJoints(b, row, col, player);
    ClickShaped(b, row, col, player);
    forall m ensures Clicked(nb, m) == (Clicked(b, m) || m == (row, col)) {
      ClickedAfterClick(b, row, col, player, m);
    }
    JointsFollowClick(b, nb, row, col);
  }

  /** Raising the flags that face a wall when that wall, and no other, becomes clicked keeps the
      joints in step with the walls. */
  lemma JointsFollowClick(b: BoardState, nb: BoardState, row: nat, col: nat)
    requires JointsMatchWalls(b) && SameShape(nb.joints, b.joints)
    requires forall m :: Clicked(nb, m) == (Clicked(b, m) || m == (row, col))
    requires forall i, j :: 0 <= i < |b.joints| && 0 <= j < |b.joints[i]| ==>
        && nb.joints[i][j].northWallClicked == (b.joints[i][j].northWallClicked || (North, i, j) in AdjacentJointsOf(row, col))
        && nb.joints[i][j].eastWallClicked == (b.joints[i][j].eastWallClicked || (East, i, j) in AdjacentJointsOf(row, col))
        && nb.joints[i][j].southWallClicked == (b.joints[i][j].southWallClicked || (South, i, j) in AdjacentJointsOf(row, col))
        && nb.joints[i][j].westWallClicked == (b.joints[i][j].westWallClicked || (West, i, j) in AdjacentJointsOf(row, col))
    ensures JointsMatchWalls(nb)
  {
    forall i, j | 0 <= i < |nb.joints| && 0 <= j < |nb.joints[i]|
      ensures && nb.joints[i][j].northWallClicked == NorthClicked(nb, i, j)
              && nb.joints[i][j].eastWallClicked == EastClicked(nb, i, j)
              && nb.joints[i][j].southWallClicked == SouthClicked(nb, i, j)
              && nb.joints[i][j].westWallClicked == WestClicked(nb, i, j)
    {
      JointDirections(row, col, i, j);
    }
  }

  /** Under consistency, the score table lives in the clicked state too. */
  lemma ClickKeepsOwners(b: BoardState, row: nat, col: nat, player: Player)
    requires Consistent(b)
    ensures OwnersMatchCounters(Click(b, row, col, player).board.cells)
    ensures ScoresMatch(Click(b, row, col, player).board.statistics, Click(b, row, col, player).board.cells)
  {
    if IsUnclickedWall(b, (row, col)) {
      var adj := b.walls[row][col].adjacentCells;
      BumpCellsKeepsScores(ClickState(b.cells, b.statistics, false), adj, player);
    }
  }

  // ---------------------------------------------------------------- points and owned cells

  function OwnedAnyInRow(row: seq<Cell>): nat
  {
    if row == [] then 0 else OwnedAnyInRow(row[..|row| - 1]) + Ind(row[|row| - 1].owner.Some?)
  }

  /** Number of owned cells. */
  function OwnedAny(cells: seq<seq<Cell>>): nat
  {
    if cells == [] then 0 else OwnedAny(cells[..|cells| - 1]) + OwnedAnyInRow(cells[|cells| - 1])
  }

  lemma {:induction false} OwnedInRowSplit(row: seq<Cell>)
    ensures OwnedInRow(row, Player1) + OwnedInRow(row, Player2) + OwnedInRow(row, CPU) == OwnedAnyInRow(row)
  {
    if row != [] {
      OwnedInRowSplit(row[..|row| - 1]);
      match row[|row| - 1].owner
      case None =>
      case Some(p) =>
        match p
        case Player1 =>
        case Player2 =>
        case CPU =>
    }
  }

  lemma {:induction false} OwnedSplit(cells: seq<seq<Cell>>)
    ensures Owned(cells, Player1) + Owned(cells, Player2) + Owned(cells, CPU) == OwnedAny(cells)
  {
    if cells != [] {
      OwnedInRowSplit(cells[|cells| - 1]);
      OwnedSplit(cells[..|cells| - 1]);
    }
  }

  lemma {:induction false} AllOwnedInRow(row: seq<Cell>)
    requires forall j :: 0 <= j < |row| ==> row[j].owner.Some?
    ensures OwnedAnyInRow(row) == |row|
  {
    if row != [] {
      AllOwnedInRow(row[..|row| - 1]);
    }
  }

  lemma {:induction false} AllOwned(cells: seq<seq<Cell>>, width: nat)
    requires forall i :: 0 <= i < |cells| ==> |cells[i]| == width
    requires forall i, j :: 0 <= i < |cells| && 0 <= j < |cells[i]| ==> cells[i][j].owner.Some?
    ensures OwnedAny(cells) == |cells| * width
  {
    if cells != [] {
      AllOwnedInRow(cells[|cells| - 1]);
      AllOwned(cells[..|cells| - 1], width);
    }
  }

  lemma {:induction false} OwnedAnyInRowBound(row: seq<Cell>)
    ensures OwnedAnyInRow(row) <= |row|
  {
    if row != [] {
      OwnedAnyInRowBound(row[..|row| - 1]);
    }
  }

  lemma {:induction false} OwnedAnyBound(cells: seq<seq<Cell>>, width: nat)
    requires forall i :: 0 <= i < |cells| ==> |cells[i]| == width
    ensures OwnedAny(cells) <= |cells| * width
  {
    if cells != [] {
      var n := |cells|;
      OwnedAnyInRowBound(cells[n - 1]);
      OwnedAnyBound(cells[..n - 1], width);
      assert OwnedAny(cells) == OwnedAny(cells[..n - 1]) + OwnedAnyInRow(cells[n - 1]);
      assert |cells[..n - 1]| * width + width == n * width;
    }
  }

  /** A click adds to the points of all players together exactly the cells it completes. */
  lemma ClickGainsOwnedCells(b: BoardState, row: nat, col: nat, player: Player)
    requires WellFormed(b)
    ensures var nb := Click(b, row, col, player).board;
      nb.statistics.player1Points + nb.statistics.player2Points + nb.statistics.cpuPoints + OwnedAny(b.cells)
      == b.statistics.player1Points + b.statistics.player2Points + b.statistics.cpuPoints + OwnedAny(nb.cells)
  {
    var nb := Click(b, row, col, player).board;
    if IsUnclickedWall(b, (row, col)) {
      var adj := b.walls[row][col].adjacentCells;
      AdjacentCellsInBounds(b.width, b.height, row, col);
      BumpCellsKeepsScores(ClickState(b.cells, b.statistics, false), adj, player);
      OwnedSplit(b.cells);
      OwnedSplit(nb.cells);
      assert PointsOf(nb.statistics, Player1) + Owned(b.cells, Player1) == PointsOf(b.statistics, Player1) + Owned(nb.cells, Player1);
      assert PointsOf(nb.statistics, Player2) + Owned(b.cells, Player2) == PointsOf(b.statistics, Player2) + Owned(nb.cells, Player2);
      assert PointsOf(nb.statistics, CPU) + Owned(b.cells, CPU) == PointsOf(b.statistics, CPU) + Owned(nb.cells, CPU);
    }
  }

  /** The points of all three players together are the owned cells. */
  lemma PointsAreOwnedCells(b: BoardState)
    requires Consistent(b)
    ensures b.statistics.player1Points + b.statistics.player2Points + b.statistics.cpuPoints == OwnedAny(b.cells)
  {
    OwnedSplit(b.cells);
    assert PointsOf(b.statistics, Player1) == Owned(b.cells, Player1);
    assert PointsOf(b.statistics, Player2) == Owned(b.cells, Player2);
    assert PointsOf(b.statistics, CPU) == Owned(b.cells, CPU);
  }

  lemma AllClickedAround(b: BoardState, i: nat, j: nat)
    requires Shaped(b) && AllClicked(b) && i < b.height && j < b.width
    ensures ClickedAround(b, i, j) == 4
  {
    assert IsWall(b, (2 * i, j)) && IsWall(b, (2 * i + 2, j));
    assert IsWall(b, (2 * i + 1, j)) && IsWall(b, (2 * i + 1, j + 1));
  }

  /** When every wall is clicked every cell has been completed and all of them are shared out. */
  lemma {:induction false} FinishedGamePoints(b: BoardState)
    requires Consistent(b) && AllClicked(b)
    ensures b.statistics.player1Points + b.statistics.player2Points + b.statistics.cpuPoints == b.width * b.height
  {
    PointsAreOwnedCells(b);
    forall i, j | 0 <= i < |b.cells| && 0 <= j < |b.cells[i]|
      ensures b.cells[i][j].owner.Some?
    {
      AllClickedAround(b, i, j);
    }
    AllOwned(b.cells, b.width);
  }

  /** The players never hold more points together than the board has cells. */
  lemma PointsBounded(b: BoardState)
    requires Consistent(b)
    ensures b.statistics.player1Points + b.statistics.player2Points + b.statistics.cpuPoints <= b.width * b.height
  {
    PointsAreOwnedCells(b);
    OwnedAnyBound(b.cells, b.width);
  }
}
