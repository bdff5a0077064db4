/**
  The text form of a `Board` object (src/game/mod.rs). `Fmt` builds the text of `Display` line by
  line with the loops of `fmt`, and `FromStr` replays the narrowed rows on a fresh `Board`
  character by character, as `from_str` does. Both are proved against the value model of
  module Text: `Fmt` writes `Encode` of the board, and `FromStr` builds `Decode` of the text.
*/
module TextBoard {
  import opened Wrappers
  import opened Game
  import opened GameInvariants
  import opened Boards
  import opened Text

  // ---------------------------------------------------------------- writing

  lemma ConcatSnoc(ts: seq<string>, n: nat)
    requires n < |ts|
    ensures Concat(ts[..n + 1]) == Concat(ts[..n]) + ts[n]
  {
    assert ts[..n + 1] == ts[..n] + [ts[n]];
    ConcatAppend(ts[..n], [ts[n]]);
    assert [ts[n]][1..] == [];
  }

  /** One more line `s` of a row after its lines before it. */
  lemma JoinLine(line: string, row: nat, rep: nat, s: string)
    requires rep < |RowLines(line, row)| && s == line
    ensures Join(RowLines(line, row)[..rep]) + s + "\n" == Join(RowLines(line, row)[..rep + 1])
  {
    var ls := RowLines(line, row);
    assert ls[..rep + 1] == ls[..rep] + [line];
    JoinAppend(ls[..rep], [line]);
    assert [line][1..] == [];
  }

  /** The line of a horizontal row. */
  lemma HorizontalJoin(line: string, row: nat, s: string)
    requires row % 2 == 0 && s == line
    ensures s + "\n" == Join(RowLines(line, row))
  {
    assert RowLines(line, row) == [line];
    assert [line][1..] == [];
  }

  /** The lines of a vertical row: none yet, or all of them. */
  lemma VerticalJoin(line: string, row: nat)
    requires row % 2 == 1
    ensures Join(RowLines(line, row)[..0]) == []
    ensures Join(RowLines(line, row)[..RepeatCount]) == Join(RowLines(line, row))
  {
    assert RowLines(line, row)[..0] == [];
    assert RowLines(line, row)[..RepeatCount] == RowLines(line, row);
  }

  /** The lines of row `row` written after the lines before it. */
  lemma RowWritten(wides: seq<string>, row: nat, text: string)
    requires row < |wides| && text == Join(RowLines(wides[row], row))
    ensures Join(LinesBefore(wides, row)) + text == Join(LinesBefore(wides, row + 1))
  {
    JoinAppend(LinesBefore(wides, row), RowLines(wides[row], row));
  }

  /** The piece of the symbol at even position `2 * col` is that symbol once. */
  lemma EvenPiece(sym: string, col: nat)
    requires 2 * col < |sym|
    ensures Concat(Pieces(sym, [])[..2 * col + 1]) == Concat(Pieces(sym, [])[..2 * col]) + [sym[2 * col]]
  {
    ConcatSnoc(Pieces(sym, []), 2 * col);
  }

  /** The piece of the symbol at odd position `2 * col + 1` is that symbol `RepeatCount` times. */
  lemma OddPiece(sym: string, col: nat)
    requires 2 * col + 1 < |sym|
    ensures Concat(Pieces(sym, [])[..2 * col + 2])
         == Concat(Pieces(sym, [])[..2 * col + 1]) + Repeat(sym[2 * col + 1], RepeatCount)
  {
    ConcatSnoc(Pieces(sym, []), 2 * col + 1);
  }

  /** The symbols of wall `col` of a horizontal row: a space, then `X` or `-`. */
  lemma HorizontalSymbols(b: BoardState, row: nat, col: nat)
    requires Shaped(b) && row < |b.walls| && row % 2 == 0 && col < b.width
    ensures col < |b.walls[row]| && 2 * col + 1 < |RowSymbols(b, row)|
    ensures RowSymbols(b, row)[2 * col] == ' '
    ensures RowSymbols(b, row)[2 * col + 1] == if b.walls[row][col].isClicked then 'X' else '-'
  {
  }

  /** The symbols of a vertical row: `X` or `|` for wall `col` and, after it, the owner's letter
      of the cell between it and the next wall. */
  lemma VerticalSymbols(b: BoardState, row: nat, col: nat)
    requires Shaped(b) && row < |b.walls| && row % 2 == 1 && col <= b.width
    ensures col < |b.walls[row]| && 2 * col < |RowSymbols(b, row)|
    ensures RowSymbols(b, row)[2 * col] == if b.walls[row][col].isClicked then 'X' else '|'
    ensures col < b.width ==>
              row / 2 < |b.cells| && col < |b.cells[row / 2]| &&
              RowSymbols(b, row)[2 * col + 1] == OwnerChar(b.cells[row / 2][col].owner)
  {
  }

  /** All pieces of a row make its widened line. */
  lemma RowStepsDone(b: BoardState, row: nat)
    requires Shaped(b) && row < |b.walls|
    ensures Concat(Pieces(RowSymbols(b, row), [])[..|RowSymbols(b, row)|]) == Widen(RowSymbols(b, row))
  {
    assert Pieces(RowSymbols(b, row), [])[..|RowSymbols(b, row)|] == Pieces(RowSymbols(b, row), []);
  }

  /** The inner loop of `fmt` for a horizontal row: a space and five `X` or `-` per wall. */
  method HorizontalLine(board: Board, row: nat) returns (s: string)
    requires board.Valid() && row < |board.walls| && row % 2 == 0
    ensures s == Widen(RowSymbols(board.Value(), row))
  {
    ghost var b := board.Value();
    ghost var sym := RowSymbols(b, row);
    s := [];
    var col := 0;
    while col < board.width
      invariant 0 <= col <= board.width
      invariant s == Concat(Pieces(sym, [])[..2 * col])
    {
      HorizontalSymbols(b, row, col);
      EvenPiece(sym, col);
      OddPiece(sym, col);
      if board.walls[row][col].isClicked {
        s := s + " " + Repeat('X', RepeatCount);
      } else {
        s := s + " " + Repeat('-', RepeatCount);
      }
      col := col + 1;
    }
    RowStepsDone(b, row);
  }

  /** The inner loop of `fmt` for a vertical row: `X` or `|` per wall and, between two walls,
      five copies of the owner's letter or five spaces. */
  method VerticalLine(board: Board, row: nat) returns (s: string)
    requires board.Valid() && row < |board.walls| && row % 2 == 1
    ensures s == Widen(RowSymbols(board.Value(), row))
  {
    ghost var b := board.Value();
    ghost var sym := RowSymbols(b, row);
    s := [];
    var col := 0;
    while col < board.width + 1
      invariant 0 <= col <= board.width + 1
      invariant col <= board.width ==> s == Concat(Pieces(sym, [])[..2 * col])
      invariant col == board.width + 1 ==> s == Concat(Pieces(sym, [])[..2 * board.width + 1])
    {
      VerticalSymbols(b, row, col);
      EvenPiece(sym, col);
      if board.walls[row][col].isClicked {
        s := s + "X";
      } else {
        s := s + "|";
      }
      if col < board.width {
        OddPiece(sym, col);
        s := s + Repeat(OwnerChar(board.cells[row / 2][col].owner), RepeatCount);
      }
      col := col + 1;
    }
    RowStepsDone(b, row);
  }

  /** The widened line of wall row `row`. */
  lemma WideRow(b: BoardState, row: nat)
    requires Shaped(b) && row < |b.walls|
    ensures Widened(SymbolRows(b))[row] == Widen(RowSymbols(b, row))
  {
  }

  /** The text of a board is the lines of its wall rows. */
  lemma EncodeLines(b: BoardState, n: nat)
    requires Shaped(b) && n == |b.walls|
    ensures Encode(b) == Join(LinesBefore(Widened(SymbolRows(b)), n))
  {
  }

  /** The lines `fmt` writes for wall row `row`: the horizontal line once, or the vertical
      line `REPEAT_COUNT` times. */
  method RowText(board: Board, row: nat) returns (text: string)
    requires board.Valid() && row < |board.walls|
    ensures text == Join(RowLines(Widen(RowSymbols(board.Value(), row)), row))
  {
    ghost var line := Widen(RowSymbols(board.Value(), row));
    if row % 2 == 0 {
      var s := HorizontalLine(board, row);
      HorizontalJoin(line, row, s);
      text := s + "\n";
    } else {
      VerticalJoin(line, row);
      text := [];
      var rep := 0;
      while rep < RepeatCount
        invariant 0 <= rep <= RepeatCount
        invariant text == Join(RowLines(line, row)[..rep])
      {
        var s := VerticalLine(board, row);
        JoinLine(line, row, rep, s);
        text := text + s + "\n";
        rep := rep + 1;
      }
    }
  }

  /** `Display::fmt`: each horizontal wall row is one line and each vertical wall row is
      `REPEAT_COUNT` equal lines, every line ended by a newline. */
  method Fmt(board: Board) returns (out: string)
    requires board.Valid()
    ensures out == Encode(board.Value())
  {
    ghost var b := board.Value();
    ghost var wides := Widened(SymbolRows(b));
    out := [];
    var row := 0;
    while row < 2 * board.height + 1
      invariant 0 <= row <= |wides| == |b.walls| == 2 * board.height + 1
      invariant out == Join(LinesBefore(wides, row))
    {
      WideRow(b, row);
      var text := RowText(board, row);
      RowWritten(wides, row, text);
      out := out + text;
      row := row + 1;
    }
    EncodeLines(b, row);
  }

  // ---------------------------------------------------------------- reading

  /** The replay of a row from character `j` on either fails at that character, or goes on
      from the next one. */
  lemma DecodeRowStep(d: BoardState, k: nat, row: string, j: nat)
    requires Shaped(d) && j < |row|
    ensures DecodeChar(d, k, j, row[j]).Err? ==> DecodeRow(d, k, row[j..], j) == Err(IndexOutOfBounds)
    ensures DecodeChar(d, k, j, row[j]).Ok? ==>
              DecodeRow(d, k, row[j..], j) == DecodeRow(DecodeChar(d, k, j, row[j]).value, k, row[j + 1..], j + 1)
  {
    assert row[j..][0] == row[j] && row[j..][1..] == row[j + 1..];
  }

  /** The replay of the rows from row `k` on either fails in that row, or goes on from the
      next one. */
  lemma DecodeRowsStep(d: BoardState, rows: seq<string>, k: nat)
    requires Shaped(d) && k < |rows|
    ensures DecodeRow(d, k, rows[k], 0).Err? ==> DecodeRows(d, rows[k..], k) == Err(IndexOutOfBounds)
    ensures DecodeRow(d, k, rows[k], 0).Ok? ==>
              DecodeRows(d, rows[k..], k) == DecodeRows(DecodeRow(d, k, rows[k], 0).value, rows[k + 1..], k + 1)
  {
    assert rows[k..][0] == rows[k] && rows[k..][1..] == rows[k + 1..];
  }

  /** The counter loop of the replay on the board object. */
  method CountAdjacentCells(board: Board, adj: seq<(nat, nat)>)
    requires forall k :: 0 <= k < |adj| ==> CellIn(board.cells, adj[k])
    modifies board
    ensures board.cells == CountWall(old(board.cells), adj)
    ensures board.walls == old(board.walls) && board.joints == old(board.joints)
    ensures board.statistics == old(board.statistics)
  {
    var k := 0;
    while k < |adj|
      invariant 0 <= k <= |adj|
      invariant board.cells == CountWall(old(board.cells), adj[..k])
      invariant board.walls == old(board.walls) && board.joints == old(board.joints)
      invariant board.statistics == old(board.statistics)
    {
      assert adj[..k + 1][..k] == adj[..k];
      var rc := adj[k];
      var cell := board.cells[rc.0][rc.1];
      board.cells := board.cells[rc.0 := board.cells[rc.0][rc.1 := cell.(counter := cell.counter + 1)]];
      k := k + 1;
    }
    assert adj[..k] == adj;
  }

  /** An `X` of the replay on the board object: the wall is marked clicked, each adjacent cell
      counts it and each adjacent joint raises its side. An index past the end is reported
      (the source panics). */
  method MarkWallInPlace(board: Board, row: nat, col: nat) returns (ok: bool)
    requires board.Valid()
    modifies board
    ensures ok == MarkWall(old(board.Value()), row, col).Ok?
    ensures ok ==> board.Value() == MarkWall(old(board.Value()), row, col).value && board.Valid()
  {
    if !(row < |board.walls| && col < |board.walls[row]|) {
      return false;
    }
    ghost var b := board.Value();
    var wall := board.walls[row][col];
    assert WallFits(b.width, b.height, wall, row, col);
    AdjacentJointsInBounds(b, row, col);
    board.walls := board.walls[row := board.walls[row][col := wall.(isClicked := true)]];
    CountAdjacentCells(board, wall.adjacentCells);
    board.SetAdjacentJoints(wall.adjacentJoints);
    ok := true;
  }

  /** A letter of a vertical row on the board object: the cell gets that owner. An index past
      the end is reported (the source panics). */
  method SetOwnerInPlace(board: Board, i: nat, j: nat, p: Player) returns (ok: bool)
    requires board.Valid()
    modifies board
    ensures ok == SetOwner(old(board.Value()), i, j, p).Ok?
    ensures ok ==> board.Value() == SetOwner(old(board.Value()), i, j, p).value && board.Valid()
  {
    if !(i < |board.cells| && j < |board.cells[i]|) {
      return false;
    }
    board.cells := board.cells[i := board.cells[i][j := board.cells[i][j].(owner := Some(p))]];
    ok := true;
  }

  /** The body of the character loops of `from_str`: on a horizontal row only `X` counts; on
      a vertical row `X` clicks a wall and `A`, `B`, `C` set an owner. */
  method ReplayChar(board: Board, row: nat, col: nat, ch: char) returns (ok: bool)
    requires board.Valid()
    modifies board
    ensures ok == DecodeChar(old(board.Value()), row, col, ch).Ok?
    ensures ok ==> board.Value() == DecodeChar(old(board.Value()), row, col, ch).value && board.Valid()
  {
    ok := true;
    if row % 2 == 0 {
      if ch == 'X' {
        ok := MarkWallInPlace(board, row, col / 2);
      }
    } else {
      if ch == 'X' {
        ok := MarkWallInPlace(board, row, col / 2);
      } else if ch == 'A' {
        ok := SetOwnerInPlace(board, row / 2, col / 2, Player1);
      } else if ch == 'B' {
        ok := SetOwnerInPlace(board, row / 2, col / 2, Player2);
      } else if ch == 'C' {
        ok := SetOwnerInPlace(board, row / 2, col / 2, CPU);
      }
    }
  }

  /** The character loop of `from_str` for row number `rowIdx`. */
  method ReplayRow(board: Board, row: string, rowIdx: nat) returns (ok: bool)
    requires board.Valid()
    modifies board
    ensures ok == DecodeRow(old(board.Value()), rowIdx, row, 0).Ok?
    ensures ok ==> board.Value() == DecodeRow(old(board.Value()), rowIdx, row, 0).value && board.Valid()
  {
    ghost var goal := DecodeRow(board.Value(), rowIdx, row, 0);
    assert row[0..] == row;
    var colIdx := 0;
    while colIdx < |row|
      invariant 0 <= colIdx <= |row|
      invariant board.Valid()
      invariant DecodeRow(board.Value(), rowIdx, row[colIdx..], colIdx) == goal
    {
      DecodeRowStep(board.Value(), rowIdx, row, colIdx);
      ok := ReplayChar(board, rowIdx, colIdx, row[colIdx]);
      if !ok {
        return;
      }
      colIdx := colIdx + 1;
    }
    assert row[colIdx..] == [];
    ok := true;
  }

  /** The row loop of `from_str`. */
  method ReplayRows(board: Board, rows: seq<string>) returns (ok: bool)
    requires board.Valid()
    modifies board
    ensures ok == DecodeRows(old(board.Value()), rows, 0).Ok?
    ensures ok ==> board.Value() == DecodeRows(old(board.Value()), rows, 0).value && board.Valid()
  {
    ghost var goal := DecodeRows(board.Value(), rows, 0);
    assert rows[0..] == rows;
    var rowIdx := 0;
    while rowIdx < |rows|
      invariant 0 <= rowIdx <= |rows|
      invariant board.Valid()
      invariant DecodeRows(board.Value(), rows[rowIdx..], rowIdx) == goal
    {
      DecodeRowsStep(board.Value(), rows, rowIdx);
      ok := ReplayRow(board, rows[rowIdx], rowIdx);
      if !ok {
        return;
      }
      rowIdx := rowIdx + 1;
    }
    assert rows[rowIdx..] == [];
    ok := true;
  }

  /** What `from_str` starts from on a text that is not empty: the rows it picks, and the fresh
      board as wide as half the first row and as high as half their number. */
  lemma DecodeStart(s: string) returns (start: BoardState)
    requires s != []
    ensures Rows(Lines(s), 0) != []
    ensures start == NewBoard(|Rows(Lines(s), 0)[0]| / 2, |Rows(Lines(s), 0)| / 2) && Shaped(start)
    ensures Decode(s) == DecodeRows(start, Rows(Lines(s), 0), 0)
  {
    var rows := Rows(Lines(s), 0);
    start := NewBoard(|rows[0]| / 2, |rows| / 2);
    NewBoardShaped(|rows[0]| / 2, |rows| / 2);
  }

  /** `Board::from_str`: an empty text is an error; otherwise the rows that stand for wall rows
      are picked and narrowed, a board as wide as half the first of them and as high as half
      their number is made, and every character of every row is replayed on it. */
  method FromStr(s: string) returns (r: Result<Board, ParseError>)
    ensures r.Err? <==> Decode(s).Err?
    ensures r.Err? ==> r.error == Decode(s).error
    ensures r.Ok? ==> fresh(r.value) && r.value.Valid() && r.value.Value() == Decode(s).value
  {
    if s == [] {
      return Err(EmptyInput);
    }
    ghost var start := DecodeStart(s);
    var rows := Rows(Lines(s), 0);
    var board := new Board(|rows[0]| / 2, |rows| / 2);
    var ok := ReplayRows(board, rows);
    if !ok {
      return Err(IndexOutOfBounds);
    }
    return Ok(board);
  }
}
