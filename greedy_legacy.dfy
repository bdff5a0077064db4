/**
  The older greedy player of src/game/ai.rs. It builds the statistics list itself with a
  nested loop over the walls, naming each wall by its loop indices instead of its id, and
  then makes the same three tiered choices. On every board reachable from `Board::new` the
  loop indices are the id, so it moves exactly as the player of module Greedy does.
*/
module LegacyGreedy {
  import opened Wrappers
  import opened Game
  import opened GameInvariants
  import opened AI
  import opened Greedy
  import opened Boards

  /** Every open wall of row r, read from its loop indices, has the statistic the list holds. */
  ghost predicate RowByIndex(b: BoardState, r: nat)
    requires Collectable(b) && r < |b.walls|
  {
    forall c :: 0 <= c < |b.walls[r]| && !b.walls[r][c].isClicked ==>
      StatOf(b, b.walls[r][c]) == WallStatistics(r, c, MaxCounter(b.cells, b.walls[r][c].adjacentCells))
  }

  /** The open walls of one row, read as the loop of `next_move` reads them: from its indices. */
  lemma RowStatisticsByIndex(b: BoardState, r: nat)
    requires Playable(b) && r < |b.walls|
    ensures Collectable(b) && RowByIndex(b, r)
  {
    PlayableFacts(b);
    forall c | 0 <= c < |b.walls[r]| && !b.walls[r][c].isClicked
      ensures StatOf(b, b.walls[r][c]) == WallStatistics(r, c, MaxCounter(b.cells, b.walls[r][c].adjacentCells))
    {
      assert WallFits(b.width, b.height, b.walls[r][c], r, c);
    }
  }

  /** Extending the scanned part of a row by one wall. */
  lemma CollectRowStep(b: BoardState, ws: seq<Wall>, c: nat)
    requires c < |ws| && forall k :: 0 <= k < |ws| && !ws[k].isClicked ==> Measurable(b, ws[k])
    ensures CollectRow(b, ws[..c + 1]) ==
              CollectRow(b, ws[..c]) + (if ws[c].isClicked then [] else [StatOf(b, ws[c])])
  {
    assert ws[..c + 1][..c] == ws[..c];
  }

  /** Extending the scanned rows by one row. */
  lemma CollectRowsStep(b: BoardState, rows: seq<seq<Wall>>, r: nat)
    requires r < |rows| && RowsCollectable(b, rows)
    ensures RowsCollectable(b, rows[..r]) && RowsCollectable(b, rows[..r + 1])
    ensures CollectRows(b, rows[..r + 1]) == CollectRows(b, rows[..r]) + CollectRow(b, rows[r])
  {
    assert forall k :: 0 <= k < r + 1 ==> rows[..r + 1][k] == rows[k];
    assert rows[..r + 1][..r] == rows[..r];
  }

  /** The inner loop of `next_move`: the open walls of one row, named by their indices. */
  method ScanRow(board: Board, row: nat) returns (walls: seq<WallStatistics>)
    requires board.Valid() && row < |board.walls| && Collectable(board.Value()) && RowByIndex(board.Value(), row)
    ensures walls == CollectRow(board.Value(), board.walls[row])
  {
    ghost var b := board.Value();
    var rowWalls := board.walls[row];
    walls := [];
    var col := 0;
    while col < |rowWalls|
      invariant 0 <= col <= |rowWalls|
      invariant walls == CollectRow(b, rowWalls[..col])
    {
      CollectRowStep(b, rowWalls, col);
      var wall := rowWalls[col];
      if !wall.isClicked {
        var maxCounter := MaxCounter(board.cells, wall.adjacentCells);
        walls := walls + [WallStatistics(row, col, maxCounter)];
      }
      col := col + 1;
    }
    assert rowWalls[..col] == rowWalls;
  }

  /** The nested loop of `next_move`: the statistics of every open wall, row by row. */
  method ScanWalls(board: Board) returns (walls: seq<WallStatistics>)
    requires board.Valid() && Playable(board.Value())
    ensures Collectable(board.Value())
    ensures walls == CollectWallStatistics(board.Value())
  {
    ghost var b := board.Value();
    PlayableFacts(b);
    walls := [];
    var row := 0;
    while row < |board.walls|
      invariant 0 <= row <= |board.walls|
      invariant RowsCollectable(b, b.walls[..row])
      invariant walls == CollectRows(b, b.walls[..row])
    {
      CollectRowsStep(b, b.walls, row);
      RowStatisticsByIndex(b, row);
      var rowStatistics := ScanRow(board, row);
      walls := walls + rowStatistics;
      row := row + 1;
    }
    assert b.walls[..row] == b.walls;
  }

  /** `next_move` of src/game/ai.rs; `draw` stands for the random generator. */
  method NextMove(board: Board, draw: nat) returns (m: Option<(nat, nat)>)
    requires board.Valid() && Playable(board.Value())
    ensures m == Greedy.NextMove(board.Value(), draw)
  {
    var all := board.AllIsClicked();
    if all {
      return None;
    }
    var walls := ScanWalls(board);
    StatisticsNonEmpty(board.Value());
    var almostClosed := ChooseWallIndex(walls, Completes, draw);
    if almostClosed.Some? {
      return Some(Pos(almostClosed.value));
    }
    var empty := ChooseWallIndex(walls, Safe, draw);
    if empty.Some? {
      return Some(Pos(empty.value));
    }
    var wall := ChooseWallIndex(walls, GivesAway, draw);
    return Some(Pos(wall.value));
  }
}
