/**
  The dots-and-boxes board of src/game/mod.rs as values: players, cells, walls (the edges a
  player clicks), joints (the corners, used to pick the corner sprite), the score table, the
  construction of a fresh board and the meaning of one click.

  Walls use a doubled-row layout: an even row 2i holds the `width` horizontal walls on the
  top side of cell row i, an odd row 2i+1 holds the `width + 1` vertical walls of cell row i.
*/
module Game {
  import opened Wrappers

  // ---------------------------------------------------------------- players and scores

  datatype Player = Player1 | Player2 | CPU

  /** The adversary in the one-human-against-CPU framing; Player2 has none (the source aborts). */
  function Opponent(p: Player): (q: Player)
    requires p != Player2
    ensures q != Player2 && q != p
  {
    if p == Player1 then CPU else Player1
  }

  datatype GameStatistics = GameStatistics(
    player1Points: nat,
    player2Points: nat,
    cpuPoints: nat,
    winner: Option<Player>)

  const DefaultStatistics: GameStatistics := GameStatistics(0, 0, 0, None)

  function PointsOf(s: GameStatistics, p: Player): nat
  {
    match p
    case Player1 => s.player1Points
    case Player2 => s.player2Points
    case CPU => s.cpuPoints
  }

  /** The `match player` that credits one completed cell to the clicking player. */
  function AddPoint(s: GameStatistics, p: Player): (r: GameStatistics)
    ensures PointsOf(r, p) == PointsOf(s, p) + 1
    ensures forall q :: q != p ==> PointsOf(r, q) == PointsOf(s, q)
    ensures r.winner == s.winner
  {
    match p
    case Player1 => s.(player1Points := s.player1Points + 1)
    case Player2 => s.(player2Points := s.player2Points + 1)
    case CPU => s.(cpuPoints := s.cpuPoints + 1)
  }

  /** `compare_with_cpu`: the Player1-against-CPU tiebreak. */
  function CompareWithCpu(player1Points: nat, cpuPoints: nat): Option<Player>
  {
    if player1Points > cpuPoints then Some(Player1)
    else if player1Points < cpuPoints then Some(CPU)
    else None
  }

  /** `get_statistics`: the stored points with a freshly decided winner. */
  function GetStatistics(b: BoardState): (r: GameStatistics)
    ensures r.player1Points == b.statistics.player1Points
    ensures r.player2Points == b.statistics.player2Points
    ensures r.cpuPoints == b.statistics.cpuPoints
    ensures r.winner == Some(Player2) <==> r.player1Points < r.player2Points
    ensures r.player1Points >= r.player2Points ==>
              (r.winner == Some(Player1) <==> r.player1Points > r.cpuPoints) &&
              (r.winner == Some(CPU) <==> r.player1Points < r.cpuPoints) &&
              (r.winner == None <==> r.player1Points == r.cpuPoints)
  {
    var s := b.statistics;
    var winner :=
      if s.player1Points > s.player2Points then CompareWithCpu(s.player1Points, s.cpuPoints)
      else if s.player1Points < s.player2Points then Some(Player2)
      else CompareWithCpu(s.player1Points, s.cpuPoints);
    GameStatistics(s.player1Points, s.player2Points, s.cpuPoints, winner)
  }

  // ---------------------------------------------------------------- cells, walls, joints

  datatype Cell = Cell(id: (nat, nat), counter: nat, owner: Option<Player>)

  datatype Direction = North | East | South | West

  datatype Wall = Wall(
    id: (nat, nat),
    isClicked: bool,
    adjacentCells: seq<(nat, nat)>,
    adjacentJoints: seq<(Direction, nat, nat)>)

  datatype Joint = Joint(
    id: (nat, nat),
    northWallClicked: bool,
    eastWallClicked: bool,
    southWallClicked: bool,
    westWallClicked: bool)

  /** `Joint::set_wall_clicked`: raises the one flag of the given side. */
  function SetWallClicked(j: Joint, d: Direction): (r: Joint)
    ensures r.id == j.id
    ensures r.northWallClicked == (j.northWallClicked || d == North)
    ensures r.eastWallClicked == (j.eastWallClicked || d == East)
    ensures r.southWallClicked == (j.southWallClicked || d == South)
    ensures r.westWallClicked == (j.westWallClicked || d == West)
  {
    match d
    case North => j.(northWallClicked := true)
    case East => j.(eastWallClicked := true)
    case South => j.(southWallClicked := true)
    case West => j.(westWallClicked := true)
  }

  function Bit(flag: bool): nat
  {
    if flag then 1 else 0
  }

  function Pow2(n: nat): (p: nat)
    ensures p >= 1
  {
    if n == 0 then 1 else 2 * Pow2(n - 1)
  }

  /** `.fold(0, |acc, x| 2 * acc + x)` over a list of flags: the flags read as a binary number. */
  function FoldBits(flags: seq<bool>): (m: nat)
    ensures m < Pow2(|flags|)
  {
    if flags == [] then 0
    else 2 * FoldBits(flags[..|flags| - 1]) + Bit(flags[|flags| - 1])
  }

  /** `Joint::get_joint_mask`: north, east, south, west as the bits 8, 4, 2, 1. */
  function GetJointMask(j: Joint): (m: nat)
    ensures m < 16
    ensures m == 8 * Bit(j.northWallClicked) + 4 * Bit(j.eastWallClicked)
               + 2 * Bit(j.southWallClicked) + Bit(j.westWallClicked)
  {
    var flags := [j.northWallClicked, j.eastWallClicked, j.southWallClicked, j.westWallClicked];
    assert FoldBits(flags[..1]) == Bit(j.northWallClicked) by {
      assert flags[..1][..0] == [];
    }
    assert FoldBits(flags[..2]) == 2 * Bit(j.northWallClicked) + Bit(j.eastWallClicked) by {
      assert flags[..2][..1] == flags[..1];
    }
    assert FoldBits(flags[..3]) == 4 * Bit(j.northWallClicked) + 2 * Bit(j.eastWallClicked)
                                   + Bit(j.southWallClicked) by {
      assert flags[..3][..2] == flags[..2];
    }
    assert flags[..4][..3] == flags[..3];
    assert flags[..4] == flags;
    FoldBits(flags)
  }

  // ---------------------------------------------------------------- the board

  datatype BoardState = BoardState(
    width: nat,
    height: nat,
    cells: seq<seq<Cell>>,
    joints: seq<seq<Joint>>,
    walls: seq<seq<Wall>>,
    statistics: GameStatistics)

  /** Number of walls in wall row `row`: `width` horizontal ones or `width + 1` vertical ones. */
  function WallsInRow(width: nat, row: nat): nat
  {
    if row % 2 == 0 then width else width + 1
  }

  /** `check_coordinates`: a signed cell coordinate, kept only when it lies on the board. */
  function CheckCoordinates(width: int, height: int, row: int, col: int): Option<(nat, nat)>
  {
    if 0 <= row && row < height && 0 <= col && col < width then Some((row, col)) else None
  }

  /** The two cells a wall may touch before clipping: above and below a horizontal wall,
      left and right of a vertical one. */
  function CandidateCells(row: nat, col: nat): seq<(int, int)>
  {
    if row % 2 == 0 then [(row / 2 - 1, col), (row / 2, col)]
    else [(row / 2, col - 1), (row / 2, col)]
  }

  /** `.filter_map(check_coordinates)` over candidate cells. */
  function InBoundsCells(width: nat, height: nat, cs: seq<(int, int)>): (r: seq<(nat, nat)>)
    ensures |r| <= |cs|
    ensures forall k :: 0 <= k < |r| ==> r[k].0 < height && r[k].1 < width
  {
    if cs == [] then []
    else
      var last := cs[|cs| - 1];
      InBoundsCells(width, height, cs[..|cs| - 1]) +
        match CheckCoordinates(width, height, last.0, last.1)
        case Some(rc) => [rc]
        case None => []
  }

  /** The cells kept are exactly the candidates on the board. */
  lemma {:induction false} InBoundsCellsMembers(width: nat, height: nat, cs: seq<(int, int)>)
    ensures forall x :: x in InBoundsCells(width, height, cs) <==> x in cs && x.0 < height && x.1 < width
  {
    if cs != [] {
      InBoundsCellsMembers(width, height, cs[..|cs| - 1]);
      assert cs == cs[..|cs| - 1] + [cs[|cs| - 1]];
    }
  }

  function AdjacentCellsOf(width: nat, height: nat, row: nat, col: nat): (r: seq<(nat, nat)>)
    ensures forall k :: 0 <= k < |r| ==> r[k].0 < height && r[k].1 < width
  {
    InBoundsCells(width, height, CandidateCells(row, col))
  }

  /** The cells kept are exactly the candidates on the board. */
  lemma AdjacentCellsMembers(width: nat, height: nat, row: nat, col: nat)
    ensures forall x :: x in AdjacentCellsOf(width, height, row, col) <==>
      x in CandidateCells(row, col) && x.0 < height && x.1 < width
  {
    InBoundsCellsMembers(width, height, CandidateCells(row, col));
  }

  /** Each wall toggles one side of each of its two end joints. */
  function AdjacentJointsOf(row: nat, col: nat): seq<(Direction, nat, nat)>
  {
    if row % 2 == 0 then [(East, row / 2, col), (West, row / 2, col + 1)]
    else [(South, row / 2, col), (North, row / 2 + 1, col)]
  }

  function NewWall(width: nat, height: nat, row: nat, col: nat): Wall
  {
    Wall((row, col), false, AdjacentCellsOf(width, height, row, col), AdjacentJointsOf(row, col))
  }

  /** `Board::new`: an empty grid of the given size, no cell owned and nobody scoring. */
  function NewBoard(width: nat, height: nat): (r: BoardState)
    ensures r.width == width && r.height == height && r.statistics == DefaultStatistics
    ensures forall i, j :: 0 <= i < |r.cells| && 0 <= j < |r.cells[i]| ==>
              r.cells[i][j].counter == 0 && r.cells[i][j].owner == None
  {
    BoardState(
      width, height,
      seq(height, row requires 0 <= row < height =>
        seq(width, col requires 0 <= col < width => Cell((row, col), 0, None))),
      seq(height + 1, row requires 0 <= row < height + 1 =>
        seq(width + 1, col requires 0 <= col < width + 1 => Joint((row, col), false, false, false, false))),
      seq(2 * height + 1, row requires 0 <= row < 2 * height + 1 =>
        seq(WallsInRow(width, row), col requires 0 <= col < WallsInRow(width, row) =>
          NewWall(width, height, row, col))),
      DefaultStatistics)
  }

  /** Two grids with the same row lengths. */
  ghost predicate SameShape<T, U>(a: seq<seq<T>>, b: seq<seq<U>>)
  {
    |a| == |b| && forall i :: 0 <= i < |a| ==> |a[i]| == |b[i]|
  }

  /** The wall at (r, c) of a board of the given size carries the adjacency `Board::new` gives it. */
  ghost predicate WallFits(width: nat, height: nat, w: Wall, r: nat, c: nat)
  {
    w.id == (r, c)
    && w.adjacentCells == AdjacentCellsOf(width, height, r, c)
    && w.adjacentJoints == AdjacentJointsOf(r, c)
  }

  /** The structure `Board::new` builds and no operation alters: grid sizes and wall adjacency. */
  ghost predicate Shaped(b: BoardState)
  {
    && |b.cells| == b.height
    && (forall i :: 0 <= i < |b.cells| ==> |b.cells[i]| == b.width)
    && |b.joints| == b.height + 1
    && (forall i :: 0 <= i < |b.joints| ==> |b.joints[i]| == b.width + 1)
    && |b.walls| == 2 * b.height + 1
    && (forall r :: 0 <= r < |b.walls| ==> |b.walls[r]| == WallsInRow(b.width, r))
    && (forall r, c :: 0 <= r < |b.walls| && 0 <= c < |b.walls[r]| ==>
          WallFits(b.width, b.height, b.walls[r][c], r, c))
  }

  /** (row, col) names a wall of a shaped board. */
  predicate IsWall(b: BoardState, m: (nat, nat))
  {
    m.0 < |b.walls| && m.1 < |b.walls[m.0]|
  }

  predicate IsUnclickedWall(b: BoardState, m: (nat, nat))
  {
    IsWall(b, m) && !b.walls[m.0][m.1].isClicked
  }

  /** `all_is_clicked`, stated over the walls: the game is over. */
  predicate AllClicked(b: BoardState)
  {
    forall r, c :: 0 <= r < |b.walls| && 0 <= c < |b.walls[r]| ==> b.walls[r][c].isClicked
  }

  lemma AdjacentCellsInBounds(width: nat, height: nat, row: nat, col: nat)
    ensures forall k :: 0 <= k < |AdjacentCellsOf(width, height, row, col)| ==>
              AdjacentCellsOf(width, height, row, col)[k].0 < height &&
              AdjacentCellsOf(width, height, row, col)[k].1 < width
  {
  }

  // ---------------------------------------------------------------- one click

  datatype ClickError = WrongCoordinates | AlreadyClicked

  datatype ClickOutcome = ClickOutcome(board: BoardState, result: Result<bool, ClickError>)

  /** The guard of `click_wall`: the coordinates name a wall. */
  predicate WallInRange(b: BoardState, row: nat, col: nat)
  {
    !(row > 2 * b.height || (row % 2 == 0 && col >= b.width) || col > b.width)
  }

  /** What the loop over the adjacent cells updates: the cells, the scores and the extra-move flag. */
  datatype ClickState = ClickState(cells: seq<seq<Cell>>, statistics: GameStatistics, additionalMove: bool)

  predicate CellIn(cells: seq<seq<Cell>>, rc: (nat, nat))
  {
    rc.0 < |cells| && rc.1 < |cells[rc.0]|
  }

  function SetCell(cells: seq<seq<Cell>>, rc: (nat, nat), cell: Cell): seq<seq<Cell>>
    requires CellIn(cells, rc)
  {
    cells[rc.0 := cells[rc.0][rc.1 := cell]]
  }

  /** One iteration of the cell loop of `click_wall`. */
  function BumpCell(s: ClickState, rc: (nat, nat), player: Player): ClickState
    requires CellIn(s.cells, rc)
  {
    var cell := s.cells[rc.0][rc.1];
    if cell.counter < 4 then
      if cell.counter + 1 == 4 then
        ClickState(SetCell(s.cells, rc, cell.(counter := 4, owner := Some(player))),
                   AddPoint(s.statistics, player), true)
      else
        ClickState(SetCell(s.cells, rc, cell.(counter := cell.counter + 1)),
                   s.statistics, s.additionalMove)
    else s
  }

  /** The cell loop of `click_wall` over a list of adjacent cells, in order. */
  function BumpCells(s: ClickState, adj: seq<(nat, nat)>, player: Player): (r: ClickState)
    requires forall k :: 0 <= k < |adj| ==> CellIn(s.cells, adj[k])
    ensures SameShape(r.cells, s.cells)
  {
    if adj == [] then s
    else
      var prev := BumpCells(s, adj[..|adj| - 1], player);
      assert CellIn(s.cells, adj[|adj| - 1]);
      assert |prev.cells[adj[|adj| - 1].0]| == |s.cells[adj[|adj| - 1].0]|;
      BumpCell(prev, adj[|adj| - 1], player)
  }

  predicate JointIn(joints: seq<seq<Joint>>, j: (Direction, nat, nat))
  {
    j.1 < |joints| && j.2 < |joints[j.1]|
  }

  function SetJoint(joints: seq<seq<Joint>>, j: (Direction, nat, nat)): seq<seq<Joint>>
    requires JointIn(joints, j)
  {
    joints[j.1 := joints[j.1][j.2 := SetWallClicked(joints[j.1][j.2], j.0)]]
  }

  /** The joint loop of `click_wall`. */
  function SetJoints(joints: seq<seq<Joint>>, adj: seq<(Direction, nat, nat)>): (r: seq<seq<Joint>>)
    requires forall k :: 0 <= k < |adj| ==> JointIn(joints, adj[k])
    ensures SameShape(r, joints)
  {
    if adj == [] then joints
    else
      var prev := SetJoints(joints, adj[..|adj| - 1]);
      assert JointIn(joints, adj[|adj| - 1]);
      assert |prev[adj[|adj| - 1].1]| == |joints[adj[|adj| - 1].1]|;
      SetJoint(prev, adj[|adj| - 1])
  }

  lemma AdjacentJointsInBounds(b: BoardState, row: nat, col: nat)
    requires Shaped(b) && WallInRange(b, row, col)
    ensures forall k :: 0 <= k < |AdjacentJointsOf(row, col)| ==> JointIn(b.joints, AdjacentJointsOf(row, col)[k])
  {
  }

  /** `Board::click_wall` as a function of the board before the click. */
  function Click(b: BoardState, row: nat, col: nat, player: Player): (o: ClickOutcome)
    requires Shaped(b)
  {
    if row > 2 * b.height || (row % 2 == 0 && col >= b.width) || col > b.width then
      ClickOutcome(b, Err(WrongCoordinates))
    else if b.walls[row][col].isClicked then
      ClickOutcome(b, Err(AlreadyClicked))
    else
      var wall := b.walls[row][col];
      AdjacentCellsInBounds(b.width, b.height, row, col);
      AdjacentJointsInBounds(b, row, col);
      var s := BumpCells(ClickState(b.cells, b.statistics, false), wall.adjacentCells, player);
      var walls := b.walls[row := b.walls[row][col := wall.(isClicked := true)]];
      ClickOutcome(
        BoardState(b.width, b.height, s.cells, SetJoints(b.joints, wall.adjacentJoints), walls, s.statistics),
        Ok(s.additionalMove))
  }

  // ---------------------------------------------------------------- counting

  function Ind(flag: bool): nat
  {
    if flag then 1 else 0
  }

  function UnclickedInRow(ws: seq<Wall>): nat
  {
    if ws == [] then 0 else UnclickedInRow(ws[..|ws| - 1]) + Ind(!ws[|ws| - 1].isClicked)
  }

  function UnclickedInRows(rows: seq<seq<Wall>>): nat
  {
    if rows == [] then 0 else UnclickedInRows(rows[..|rows| - 1]) + UnclickedInRow(rows[|rows| - 1])
  }

  /** Number of walls still to be clicked: the measure every search and simulation decreases. */
  function UnclickedCount(b: BoardState): nat
  {
    UnclickedInRows(b.walls)
  }
}
