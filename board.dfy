/**
  The mutable `Board` of src/game/mod.rs: its fields are updated in place by `click_wall`.
  Every method is proved against the value model in module Game, so the lemmas proved there
  about `Click` hold of the object after each call.
*/
module Boards {
  import opened Wrappers
  import opened Game
  import opened GameInvariants

  class Board {
    const width: nat
    const height: nat
    var cells: seq<seq<Cell>>
    var joints: seq<seq<Joint>>
    var walls: seq<seq<Wall>>
    var statistics: GameStatistics

    /** The board as a value. */
    function Value(): BoardState
      reads this
    {
      BoardState(width, height, cells, joints, walls, statistics)
    }

    ghost predicate Valid()
      reads this
    {
      Shaped(Value())
    }

    /** `Board::new`. */
    constructor (width: nat, height: nat)
      ensures Value() == NewBoard(width, height)
      ensures Valid() && Consistent(Value())
    {
      var initial := NewBoard(width, height);
      this.width := width;
      this.height := height;
      cells := initial.cells;
      joints := initial.joints;
      walls := initial.walls;
      statistics := initial.statistics;
      NewBoardConsistent(width, height);
    }

    /** The derived `Clone`: an independent board with the same contents. */
    constructor Copy(other: Board)
      ensures Value() == other.Value()
    {
      width := other.width;
      height := other.height;
      cells := other.cells;
      joints := other.joints;
      walls := other.walls;
      statistics := other.statistics;
    }

    /** `click_wall`: the wall, then every adjacent cell in order, then every adjacent joint. */
    method ClickWall(row: nat, col: nat, player: Player) returns (r: Result<bool, ClickError>)
      requires Valid()
      modifies this
      ensures Value() == Click(old(Value()), row, col, player).board
      ensures r == Click(old(Value()), row, col, player).result
      ensures Valid()
      ensures old(Consistent(Value())) ==> Consistent(Value())
    {
      ClickKeepsInvariants(Value(), row, col, player);
      if row > 2 * height || (row % 2 == 0 && col >= width) || col > width {
        return Err(WrongCoordinates);
      }
      var wall := walls[row][col];
      if !wall.isClicked {
        walls := walls[row := walls[row][col := wall.(isClicked := true)]];
        assert wall.adjacentCells == AdjacentCellsOf(width, height, row, col);
        var additionalMove := BumpAdjacentCells(wall.adjacentCells, player);
        AdjacentJointsInBounds(old(Value()), row, col);
        assert wall.adjacentJoints == AdjacentJointsOf(row, col);
        SetAdjacentJoints(wall.adjacentJoints);
        return Ok(additionalMove);
      } else {
        return Err(AlreadyClicked);
      }
    }

    /** The cell loop of `click_wall`. */
    method BumpAdjacentCells(adj: seq<(nat, nat)>, player: Player) returns (additionalMove: bool)
      requires forall n :: 0 <= n < |adj| ==> CellIn(cells, adj[n])
      modifies this
      ensures ClickState(cells, statistics, additionalMove) == BumpCells(old(ClickState(cells, statistics, false)), adj, player)
      ensures walls == old(walls) && joints == old(joints)
    {
      ghost var start := ClickState(cells, statistics, false);
      additionalMove := false;
      var k := 0;
      while k < |adj|
        invariant 0 <= k <= |adj|
        invariant walls == old(walls) && joints == old(joints)
        invariant ClickState(cells, statistics, additionalMove) == BumpCells(start, adj[..k], player)
      {
        assert adj[..k + 1][..k] == adj[..k];
        var rc := adj[k];
        var cell := cells[rc.0][rc.1];
        if cell.counter < 4 {
          cell := cell.(counter := cell.counter + 1);
          if cell.counter == 4 {
            cell := cell.(owner := Some(player));
            statistics := AddPoint(statistics, player);
            additionalMove := true;
          }
          cells := cells[rc.0 := cells[rc.0][rc.1 := cell]];
        }
        k := k + 1;
      }
      assert adj[..k] == adj;
    }

    /** The joint loop of `click_wall`. */
    method SetAdjacentJoints(adj: seq<(Direction, nat, nat)>)
      requires forall n :: 0 <= n < |adj| ==> JointIn(joints, adj[n])
      modifies this
      ensures joints == SetJoints(old(joints), adj)
      ensures walls == old(walls) && cells == old(cells) && statistics == old(statistics)
    {
      var k := 0;
      while k < |adj|
        invariant 0 <= k <= |adj|
        invariant walls == old(walls) && cells == old(cells) && statistics == old(statistics)
        invariant joints == SetJoints(old(joints), adj[..k])
      {
        assert adj[..k + 1][..k] == adj[..k];
        var j := adj[k];
        joints := joints[j.1 := joints[j.1][j.2 := SetWallClicked(joints[j.1][j.2], j.0)]];
        k := k + 1;
      }
      assert adj[..k] == adj;
    }

    /** `all_is_clicked`: a scan that stops at the first open wall. */
    method AllIsClicked() returns (all: bool)
      ensures all == AllClicked(Value())
    {
      var r := 0;
      while r < |walls|
        invariant 0 <= r <= |walls|
        invariant forall r', c :: 0 <= r' < r && 0 <= c < |walls[r']| ==> walls[r'][c].isClicked
      {
        var c := 0;
        while c < |walls[r]|
          invariant 0 <= c <= |walls[r]|
          invariant forall c' :: 0 <= c' < c ==> walls[r][c'].isClicked
        {
          if !walls[r][c].isClicked {
            return false;
          }
          c := c + 1;
        }
        r := r + 1;
      }
      return true;
    }
  }
}
