/**
  The text form of a board (src/game/mod.rs). `Display` writes every wall row of the doubled
  layout as lines of symbols, each wall or owner symbol widened to `REPEAT_COUNT` copies: a
  horizontal row is one line, a vertical row (walls and the owners of the cells between them)
  is `REPEAT_COUNT` equal lines. `FromStr` keeps the first line of each vertical group, narrows
  the widened symbols back with `replace`, and replays the walls and owners it reads on a
  fresh board.
*/
module Text {
  import opened Wrappers
  import opened Game
  import opened GameInvariants
  import opened Boards

  /** `REPEAT_COUNT`. */
  const RepeatCount: nat := 5

  /** `str::repeat` of a one-character string. */
  function Repeat(ch: char, n: nat): (s: string)
    ensures |s| == n && forall k :: 0 <= k < n ==> s[k] == ch
  {
    if n == 0 then [] else Repeat(ch, n - 1) + [ch]
  }

  /** The strings one after the other. */
  function Concat(ts: seq<string>): string
  {
    if ts == [] then [] else ts[0] + Concat(ts[1..])
  }

  lemma {:induction false} ConcatAppend(a: seq<string>, b: seq<string>)
    ensures Concat(a + b) == Concat(a) + Concat(b)
  {
    if a == [] {
      assert a + b == b;
    } else {
      assert (a + b)[1..] == a[1..] + b;
      ConcatAppend(a[1..], b);
    }
  }

  // ---------------------------------------------------------------- writing

  /** The symbol `fmt` draws for a cell: the owner's letter, or a space. */
  function OwnerChar(owner: Option<Player>): char
  {
    match owner
    case None => ' '
    case Some(Player1) => 'A'
    case Some(Player2) => 'B'
    case Some(CPU) => 'C'
  }

  /** The owner a letter stands for when `from_str` reads a vertical row. */
  function LetterOwner(ch: char): Option<Player>
  {
    if ch == 'A' then Some(Player1)
    else if ch == 'B' then Some(Player2)
    else if ch == 'C' then Some(CPU)
    else None
  }

  lemma LetterOwnerInverts(owner: Option<Player>)
    ensures LetterOwner(OwnerChar(owner)) == owner && OwnerChar(owner) != 'X'
  {
  }

  /** The symbols of wall row `row` before widening. A horizontal row has a space and then `X`
      (clicked) or `-` for each wall; a vertical row has `X` (clicked) or `|` for each wall and,
      between two walls, the symbol of the owner of the cell they enclose. */
  function RowSymbols(b: BoardState, row: nat): (sym: string)
    requires Shaped(b) && row < |b.walls|
    ensures |sym| == if row % 2 == 0 then 2 * b.width else 2 * b.width + 1
  {
    if row % 2 == 0 then
      seq(2 * b.width, k requires 0 <= k < 2 * b.width =>
        if k % 2 == 0 then ' ' else if b.walls[row][k / 2].isClicked then 'X' else '-')
    else
      seq(2 * b.width + 1, k requires 0 <= k < 2 * b.width + 1 =>
        if k % 2 == 0 then (if b.walls[row][k / 2].isClicked then 'X' else '|')
        else OwnerChar(b.cells[row / 2][k / 2].owner))
  }

  /** The pieces of a line of symbols once the symbols in `done` have been narrowed: a
      symbol at an odd position stands `RepeatCount` times unless it is in `done`, a symbol at
      an even position stands once. */
  function Pieces(sym: string, done: string): (ts: seq<string>)
    ensures |ts| == |sym|
  {
    seq(|sym|, k requires 0 <= k < |sym| =>
      if k % 2 == 1 && sym[k] !in done then Repeat(sym[k], RepeatCount) else [sym[k]])
  }

  /** The line `fmt` writes for a line of symbols. */
  function Widen(sym: string): string
  {
    Concat(Pieces(sym, []))
  }

  /** The symbols of every wall row, top to bottom. */
  function SymbolRows(b: BoardState): (rows: seq<string>)
    requires Shaped(b)
    ensures |rows| == |b.walls|
  {
    seq(|b.walls|, r requires 0 <= r < |b.walls| => RowSymbols(b, r))
  }

  /** The widened line of each row of symbols. */
  function Widened(rows: seq<string>): (wides: seq<string>)
    ensures |wides| == |rows| && forall r :: 0 <= r < |rows| ==> wides[r] == Widen(rows[r])
  {
    seq(|rows|, r requires 0 <= r < |rows| => Widen(rows[r]))
  }

  /** The lines `fmt` writes for wall row number `row` widened to `line`. */
  function RowLines(line: string, row: nat): (ls: seq<string>)
    ensures |ls| == if row % 2 == 0 then 1 else RepeatCount
    ensures forall k :: 0 <= k < |ls| ==> ls[k] == line
  {
    if row % 2 == 0 then [line] else seq(RepeatCount, _ => line)
  }

  /** The lines `fmt` writes for the wall rows before row `n`, widened to `wides`. */
  function LinesBefore(wides: seq<string>, n: nat): seq<string>
    requires n <= |wides|
  {
    if n == 0 then [] else LinesBefore(wides, n - 1) + RowLines(wides[n - 1], n - 1)
  }

  /** Each line followed by the newline of `writeln!`. */
  function Join(lines: seq<string>): string
  {
    if lines == [] then [] else lines[0] + "\n" + Join(lines[1..])
  }

  lemma {:induction false} JoinAppend(a: seq<string>, b: seq<string>)
    ensures Join(a + b) == Join(a) + Join(b)
  {
    if a == [] {
      assert a + b == b;
    } else {
      assert (a + b)[1..] == a[1..] + b;
      JoinAppend(a[1..], b);
    }
  }

  /** `to_string()` of a board: the text `fmt` writes. */
  function Encode(b: BoardState): string
    requires Shaped(b)
  {
    Join(LinesBefore(Widened(SymbolRows(b)), |b.walls|))
  }

  // ---------------------------------------------------------------- reading

  /** The error of `from_str` on an empty text, and the index panics of its replay, which
      this model turns into an error. */
  datatype ParseError = EmptyInput | IndexOutOfBounds

  /** The position of the first newline, or the length of the text when there is none. */
  function NewlineAt(s: string): (i: nat)
    ensures i <= |s| && (i < |s| ==> s[i] == '\n')
    ensures forall k :: 0 <= k < i ==> s[k] != '\n'
  {
    if s == [] || s[0] == '\n' then 0 else 1 + NewlineAt(s[1..])
  }

  /** `str::lines`: the text cut at each newline, a carriage return right before a newline
      dropped, and no empty line after a final newline. */
  function Lines(s: string): (ls: seq<string>)
    ensures ls == [] <==> s == []
    ensures forall k :: 0 <= k < |ls| ==> '\n' !in ls[k]
    decreases |s|
  {
    if s == [] then []
    else
      var i := NewlineAt(s);
      if i == |s| then [s]
      else
        var line := s[..i];
        var rest := Lines(s[i + 1..]);
        assert forall k :: 0 <= k < |line| ==> line[k] != '\n';
        [if line != [] && line[|line| - 1] == '\r' then line[..|line| - 1] else line] + rest
  }

  /** `str::replace`: the occurrences of `pat`, found from left to right without overlap,
      each replaced by `rep`. */
  function Replace(s: string, pat: string, rep: string): (r: string)
    requires pat != []
    ensures |rep| <= |pat| ==> |r| <= |s|
    ensures forall c :: c in r ==> c in s || c in rep
    decreases |s|
  {
    if |s| < |pat| then s
    else if s[..|pat|] == pat then rep + Replace(s[|pat|..], pat, rep)
    else [s[0]] + Replace(s[1..], pat, rep)
  }

  /** The `replace` chain of `from_str` for a horizontal row: five `X` become one, then five
      `-` become one. */
  function NarrowHorizontal(line: string): string
  {
    Replace(Replace(line, Repeat('X', RepeatCount), "X"), Repeat('-', RepeatCount), "-")
  }

  /** The `replace` chain of `from_str` for a vertical row: five `A`, then `B`, then `C`, then
      spaces become one. */
  function NarrowVertical(line: string): string
  {
    var a := Replace(line, Repeat('A', RepeatCount), "A");
    var b := Replace(a, Repeat('B', RepeatCount), "B");
    var c := Replace(b, Repeat('C', RepeatCount), "C");
    Replace(c, Repeat(' ', RepeatCount), " ")
  }

  /** The filter of the `filter_map` of `from_str` over the numbered lines from number `idx`
      on: the first two lines of each group of `RepeatCount + 1`, each with its place in the
      group; the other lines are dropped. */
  function Kept(lines: seq<string>, idx: nat): (kept: seq<(nat, string)>)
    ensures |kept| <= |lines|
    ensures lines != [] && idx % (RepeatCount + 1) == 0 ==> kept != []
  {
    if lines == [] then []
    else
      var phase := idx % (RepeatCount + 1);
      (if phase < 2 then [(phase, lines[0])] else []) + Kept(lines[1..], idx + 1)
  }

  /** The map of that `filter_map`: the first line of a group is narrowed as a horizontal
      row, the second as a vertical row. */
  function NarrowLine(phase: nat, line: string): string
  {
    if phase == 0 then NarrowHorizontal(line) else NarrowVertical(line)
  }

  /** The rows `from_str` collects from the numbered lines from number `idx` on. */
  function Rows(lines: seq<string>, idx: nat): (rows: seq<string>)
    ensures |rows| <= |lines|
    ensures lines != [] && idx % (RepeatCount + 1) == 0 ==> rows != []
  {
    var kept := Kept(lines, idx);
    seq(|kept|, k requires 0 <= k < |kept| => NarrowLine(kept[k].0, kept[k].1))
  }

  /** The size and the scores of the board, which the replay never changes. */
  predicate SameFrame(b: BoardState, d: BoardState)
  {
    d.width == b.width && d.height == b.height && d.statistics == b.statistics
  }

  /** The counter loop of the replay: each adjacent cell counts the wall once more (with
      neither the cap nor the ownership of `click_wall`). */
  function CountWall(cells: seq<seq<Cell>>, adj: seq<(nat, nat)>): (r: seq<seq<Cell>>)
    requires forall k :: 0 <= k < |adj| ==> CellIn(cells, adj[k])
    ensures SameShape(r, cells)
    ensures forall i, j :: 0 <= i < |r| && 0 <= j < |r[i]| ==> r[i][j].owner == cells[i][j].owner
  {
    if adj == [] then cells
    else
      var prev := CountWall(cells, adj[..|adj| - 1]);
      var rc := adj[|adj| - 1];
      assert CellIn(cells, rc);
      SetCell(prev, rc, prev[rc.0][rc.1].(counter := prev[rc.0][rc.1].counter + 1))
  }

  /** What the replay does for an `X` at a wall of the board: the wall becomes clicked, each
      adjacent cell counts it and each adjacent joint raises its side. */
  function Marked(b: BoardState, row: nat, col: nat): (d: BoardState)
    requires Shaped(b) && row < |b.walls| && col < |b.walls[row]|
    ensures Shaped(d) && SameFrame(b, d)
    ensures forall i, j :: 0 <= i < |b.walls| && 0 <= j < |b.walls[i]| ==>
              d.walls[i][j].isClicked == (b.walls[i][j].isClicked || (i, j) == (row, col))
    ensures forall i, j :: 0 <= i < |b.cells| && 0 <= j < |b.cells[i]| ==>
              d.cells[i][j].owner == b.cells[i][j].owner
  {
    var wall := b.walls[row][col];
    assert WallFits(b.width, b.height, wall, row, col);
    AdjacentJointsInBounds(b, row, col);
    var walls := b.walls[row := b.walls[row][col := wall.(isClicked := true)]];
    var d := BoardState(b.width, b.height, CountWall(b.cells, wall.adjacentCells),
                        SetJoints(b.joints, wall.adjacentJoints), walls, b.statistics);
    ClickingKeepsShape(b, d, row, col);
    d
  }

  /** The same with the index check: a wall index past the end panics in the source, an error
      here. */
  function MarkWall(b: BoardState, row: nat, col: nat): (r: Result<BoardState, ParseError>)
    requires Shaped(b)
    ensures r.Ok? <==> row < |b.walls| && col < |b.walls[row]|
    ensures r.Err? ==> r.error == IndexOutOfBounds
    ensures r.Ok? ==> r.value == Marked(b, row, col)
  {
    if row < |b.walls| && col < |b.walls[row]| then Ok(Marked(b, row, col))
    else Err(IndexOutOfBounds)
  }

  /** What the replay does for a letter of a vertical row: the cell gets that owner. A cell
      index past the end panics in the source, an error here. */
  function SetOwner(b: BoardState, i: nat, j: nat, p: Player): (r: Result<BoardState, ParseError>)
    requires Shaped(b)
    ensures r.Ok? <==> i < |b.cells| && j < |b.cells[i]|
    ensures r.Err? ==> r.error == IndexOutOfBounds
    ensures r.Ok? ==> Shaped(r.value) && SameFrame(b, r.value) && r.value.walls == b.walls
    ensures r.Ok? ==> forall i', j' :: 0 <= i' < |b.cells| && 0 <= j' < |b.cells[i']| ==>
              r.value.cells[i'][j'].owner == if (i', j') == (i, j) then Some(p) else b.cells[i'][j'].owner
  {
    if i < |b.cells| && j < |b.cells[i]| then
      Ok(b.(cells := SetCell(b.cells, (i, j), b.cells[i][j].(owner := Some(p)))))
    else Err(IndexOutOfBounds)
  }

  /** One character of the replay: `X` clicks wall `col / 2` of the row; on a vertical row a
      letter also sets the owner of cell `col / 2` of cell row `row / 2`; any other character
      is skipped. */
  function DecodeChar(b: BoardState, row: nat, col: nat, ch: char): (r: Result<BoardState, ParseError>)
    requires Shaped(b)
    ensures r.Err? ==> r.error == IndexOutOfBounds
    ensures r.Ok? ==> Shaped(r.value) && SameFrame(b, r.value)
  {
    if ch == 'X' then MarkWall(b, row, col / 2)
    else if row % 2 == 1 && LetterOwner(ch).Some? then SetOwner(b, row / 2, col / 2, LetterOwner(ch).value)
    else Ok(b)
  }

  /** The replay of the characters of row `row` from column `col` on. */
  function DecodeRow(b: BoardState, row: nat, chars: string, col: nat): (r: Result<BoardState, ParseError>)
    requires Shaped(b)
    ensures r.Err? ==> r.error == IndexOutOfBounds
    ensures r.Ok? ==> Shaped(r.value) && SameFrame(b, r.value)
    decreases |chars|
  {
    if chars == [] then Ok(b)
    else
      match DecodeChar(b, row, col, chars[0])
      case Err(e) => Err(e)
      case Ok(d) => DecodeRow(d, row, chars[1..], col + 1)
  }

  /** The replay of the rows from row number `row` on. */
  function DecodeRows(b: BoardState, rows: seq<string>, row: nat): (r: Result<BoardState, ParseError>)
    requires Shaped(b)
    ensures r.Err? ==> r.error == IndexOutOfBounds
    ensures r.Ok? ==> Shaped(r.value) && SameFrame(b, r.value)
    decreases |rows|
  {
    if rows == [] then Ok(b)
    else
      match DecodeRow(b, row, rows[0], 0)
      case Err(e) => Err(e)
      case Ok(d) => DecodeRows(d, rows[1..], row + 1)
  }

  /** `Board::from_str`: an empty text is an error; otherwise the board is as wide as half the
      first row and as high as half the number of rows, and every row is replayed on it. The
      scores are those of a new board. */
  function Decode(s: string): (r: Result<BoardState, ParseError>)
    ensures r.Err? && r.error == EmptyInput <==> s == []
    ensures r.Ok? ==> Shaped(r.value) && r.value.statistics == DefaultStatistics
  {
    if s == [] then Err(EmptyInput)
    else
      var rows := Rows(Lines(s), 0);
      NewBoardShaped(|rows[0]| / 2, |rows| / 2);
      DecodeRows(NewBoard(|rows[0]| / 2, |rows| / 2), rows, 0)
  }

  // ---------------------------------------------------------------- the lines come back

  /** No newline and no carriage return. */
  predicate Plain(line: string)
  {
    forall k :: 0 <= k < |line| ==> line[k] != '\n' && line[k] != '\r'
  }

  /** `lines` gives back the lines that were joined, when none holds a line break. */
  lemma {:induction false} LinesOfJoin(ls: seq<string>)
    requires forall k :: 0 <= k < |ls| ==> Plain(ls[k])
    ensures Lines(Join(ls)) == ls
  {
    if ls != [] {
      var l := ls[0];
      var s := Join(ls);
      assert Plain(l);
      assert s == l + ("\n" + Join(ls[1..]));
      assert s[|l|] == '\n';
      assert forall k :: 0 <= k < |l| ==> s[k] == l[k];
      assert NewlineAt(s) == |l|;
      assert s[..|l|] == l;
      assert s[|l| + 1..] == Join(ls[1..]);
      LinesOfJoin(ls[1..]);
    }
  }

  lemma {:induction false} ConcatPlain(ts: seq<string>)
    requires forall k :: 0 <= k < |ts| ==> Plain(ts[k])
    ensures Plain(Concat(ts))
  {
    if ts != [] {
      assert Plain(ts[0]);
      ConcatPlain(ts[1..]);
    }
  }

  /** The widened line of a row is free of line breaks when its symbols are. */
  lemma WidenPlain(sym: string)
    requires Plain(sym)
    ensures Plain(Widen(sym))
  {
    var ts := Pieces(sym, []);
    forall k | 0 <= k < |ts|
      ensures Plain(ts[k])
    {
    }
    ConcatPlain(ts);
  }

  /** Every line written for rows free of line breaks is free of them. */
  lemma {:induction false} LinesBeforePlain(wides: seq<string>, n: nat)
    requires n <= |wides| && forall r :: 0 <= r < |wides| ==> Plain(wides[r])
    ensures forall k :: 0 <= k < |LinesBefore(wides, n)| ==> Plain(LinesBefore(wides, n)[k])
  {
    if n > 0 {
      LinesBeforePlain(wides, n - 1);
    }
  }

  // ---------------------------------------------------------------- replace, piece by piece

  /** No match starts inside a piece that lacks the first character of the pattern. */
  lemma {:induction false} ReplaceSkip(t: string, rest: string, pat: string, rep: string)
    requires pat != [] && pat[0] !in t
    ensures Replace(t + rest, pat, rep) == t + Replace(rest, pat, rep)
  {
    if t == [] {
      assert t + rest == rest;
    } else {
      var s := t + rest;
      assert s[0] == t[0] && s[1..] == t[1..] + rest;
      assert pat[0] !in t[1..] by {
        forall k | 0 <= k < |t[1..]|
          ensures t[1..][k] != pat[0]
        {
          assert t[1..][k] == t[k + 1];
        }
      }
      ReplaceSkip(t[1..], rest, pat, rep);
      if |s| < |pat| {
        assert Replace(rest, pat, rep) == rest;
        assert Replace(s, pat, rep) == s;
      } else {
        assert s[..|pat|] != pat by {
          assert s[..|pat|][0] == t[0] != pat[0];
        }
        assert Replace(s, pat, rep) == [t[0]] + Replace(s[1..], pat, rep);
      }
    }
  }

  lemma ReplaceHit(rest: string, pat: string, rep: string)
    requires pat != []
    ensures Replace(pat + rest, pat, rep) == rep + Replace(rest, pat, rep)
  {
    var s := pat + rest;
    assert s[..|pat|] == pat;
    assert s[|pat|..] == rest;
  }

  /** `replace` on a string cut into pieces that are either the pattern or free of its first
      character replaces exactly the pieces that are the pattern. */
  lemma {:induction false} ReplacePieces(ts: seq<string>, us: seq<string>, pat: string, rep: string)
    requires pat != [] && |us| == |ts|
    requires forall k :: 0 <= k < |ts| ==>
               (ts[k] == pat && us[k] == rep) || (us[k] == ts[k] && pat[0] !in ts[k])
    ensures Replace(Concat(ts), pat, rep) == Concat(us)
  {
    if ts != [] {
      ReplacePieces(ts[1..], us[1..], pat, rep);
      if ts[0] == pat {
        assert pat[0] in ts[0];
        ReplaceHit(Concat(ts[1..]), pat, rep);
      } else {
        ReplaceSkip(ts[0], Concat(ts[1..]), pat, rep);
      }
    }
  }

  lemma {:induction false} ConcatSingles(ts: seq<string>, sym: string)
    requires |ts| == |sym| && forall k :: 0 <= k < |ts| ==> ts[k] == [sym[k]]
    ensures Concat(ts) == sym
  {
    if ts != [] {
      ConcatSingles(ts[1..], sym[1..]);
    }
  }

  /** A chain of `replace` calls: `RepeatCount` copies of each symbol of `order`, in turn,
      narrowed to one. */
  function Narrow(line: string, order: string): string
    decreases |order|
  {
    if order == [] then line
    else Narrow(Replace(line, Repeat(order[0], RepeatCount), [order[0]]), order[1..])
  }

  /** The symbols `from_str` narrows on a horizontal line, in its order. */
  const HorizontalOrder: string := "X-"

  /** The symbols `from_str` narrows on a vertical line, in its order. */
  const VerticalOrder: string := "ABC "

  lemma NarrowChains(line: string)
    ensures NarrowHorizontal(line) == Narrow(line, HorizontalOrder)
    ensures NarrowVertical(line) == Narrow(line, VerticalOrder)
  {
  }

  /** The layout of a row's symbols that narrowing undoes: a symbol at an even position is
      never narrowed, one at an odd position is, and `order` names each symbol once. */
  predicate Narrowable(sym: string, order: string)
  {
    && Distinct(order)
    && (forall k :: 0 <= k < |sym| && k % 2 == 0 ==> sym[k] !in order)
    && (forall k :: 0 <= k < |sym| && k % 2 == 1 ==> sym[k] in order)
  }

  /** One `replace` of the chain narrows the next symbol of the order. */
  lemma NarrowStep(sym: string, order: string, n: nat)
    requires n < |order| && Narrowable(sym, order)
    ensures Replace(Concat(Pieces(sym, order[..n])), Repeat(order[n], RepeatCount), [order[n]])
            == Concat(Pieces(sym, order[..n + 1]))
  {
    var ts, us := Pieces(sym, order[..n]), Pieces(sym, order[..n + 1]);
    var pat, rep := Repeat(order[n], RepeatCount), [order[n]];
    forall k | 0 <= k < |ts|
      ensures (ts[k] == pat && us[k] == rep) || (us[k] == ts[k] && pat[0] !in ts[k])
    {
      var c := sym[k];
      assert pat[0] == order[n];
      if k % 2 == 0 {
        assert order[n] in order;
      } else if c in order[..n] {
        var i :| 0 <= i < n && order[..n][i] == c;
        assert order[i] == c;
        assert c in order[..n + 1] by {
          assert order[..n + 1][i] == c;
        }
      } else if c == order[n] {
        assert order[..n + 1][n] == c;
      } else {
        assert c !in order[..n + 1] by {
          assert order[..n + 1] == order[..n] + [order[n]];
        }
      }
    }
    ReplacePieces(ts, us, pat, rep);
  }

  /** The rest of the chain, from symbol `n` of the order on, brings back the symbols. */
  lemma {:induction false} NarrowPieces(sym: string, order: string, n: nat)
    requires n <= |order| && Narrowable(sym, order)
    ensures Narrow(Concat(Pieces(sym, order[..n])), order[n..]) == sym
    decreases |order| - n
  {
    if n == |order| {
      assert order[..n] == order && order[n..] == [];
      ConcatSingles(Pieces(sym, order), sym);
    } else {
      NarrowStep(sym, order, n);
      assert order[n..][0] == order[n] && order[n..][1..] == order[n + 1..];
      NarrowPieces(sym, order, n + 1);
    }
  }

  /** The order in which `from_str` narrows the symbols of wall row `row`. */
  function OrderOf(row: nat): string
  {
    if row % 2 == 0 then HorizontalOrder else VerticalOrder
  }

  /** The symbols of the rows of a board are free of line breaks, and narrowing undoes their
      widening. */
  lemma SymbolRowsFacts(b: BoardState)
    requires Shaped(b)
    ensures forall r :: 0 <= r < |SymbolRows(b)| ==>
              Plain(SymbolRows(b)[r]) && Narrowable(SymbolRows(b)[r], OrderOf(r))
  {
    var rows := SymbolRows(b);
    assert Distinct(HorizontalOrder) && Distinct(VerticalOrder);
    forall r | 0 <= r < |rows|
      ensures Plain(rows[r]) && Narrowable(rows[r], OrderOf(r))
    {
      var sym := RowSymbols(b, r);
      assert rows[r] == sym;
      forall k | 0 <= k < |sym| && k % 2 == 1
        ensures sym[k] in OrderOf(r)
      {
        if r % 2 == 1 {
          assert sym[k] == OwnerChar(b.cells[r / 2][k / 2].owner);
        }
      }
    }
  }

  /** `from_str` narrows a widened line back to its symbols. */
  lemma NarrowWiden(sym: string, order: string)
    requires Narrowable(sym, order)
    ensures Narrow(Widen(sym), order) == sym
  {
    assert order[..0] == [] && order[0..] == order;
    NarrowPieces(sym, order, 0);
  }

  // ---------------------------------------------------------------- the rows come back

  lemma AppendAssociates<T>(x: seq<T>, y: seq<T>, z: seq<T>)
    ensures x + (y + z) == (x + y) + z
  {
  }

  /** The lines kept of two runs of lines one after the other, the second numbered from `j`. */
  lemma {:induction false} KeptAppend(a: seq<string>, c: seq<string>, idx: nat, j: nat)
    requires j == idx + |a|
    ensures Kept(a + c, idx) == Kept(a, idx) + Kept(c, j)
  {
    if a == [] {
      assert a + c == c;
    } else {
      var phase := idx % (RepeatCount + 1);
      var head: seq<(nat, string)> := if phase < 2 then [(phase, a[0])] else [];
      assert (a + c)[0] == a[0] && (a + c)[1..] == a[1..] + c;
      assert Kept(a + c, idx) == head + Kept(a[1..] + c, idx + 1);
      KeptAppend(a[1..], c, idx + 1, j);
      assert Kept(a, idx) == head + Kept(a[1..], idx + 1);
      AppendAssociates(head, Kept(a[1..], idx + 1), Kept(c, j));
    }
  }

  /** The lines past the second of a group are dropped. */
  lemma {:induction false} KeptDropped(ls: seq<string>, idx: nat)
    requires 2 <= idx % (RepeatCount + 1) && idx % (RepeatCount + 1) + |ls| <= RepeatCount + 1
    ensures Kept(ls, idx) == []
    decreases |ls|
  {
    if |ls| > 1 {
      KeptDropped(ls[1..], idx + 1);
    }
  }

  lemma CountStep(m: nat, n: nat, k: nat)
    requires 0 < n && m == 3 * (n - 1) - 2 * ((n - 1) % 2)
    requires k == m + if (n - 1) % 2 == 0 then 1 else RepeatCount
    ensures k == 3 * n - 2 * (n % 2)
  {
  }

  /** One line per horizontal row and `RepeatCount` per vertical row. */
  lemma {:induction false} LinesBeforeCount(wides: seq<string>, n: nat)
    requires n <= |wides|
    ensures |LinesBefore(wides, n)| == 3 * n - 2 * (n % 2)
  {
    if n > 0 {
      LinesBeforeCount(wides, n - 1);
      CountStep(|LinesBefore(wides, n - 1)|, n, |LinesBefore(wides, n)|);
    }
  }

  /** The line after those of the wall rows before `n` is of phase `n % 2`. */
  lemma PhaseOf(start: nat, m: nat, n: nat)
    requires start % (RepeatCount + 1) == 0 && m == 3 * n - 2 * (n % 2)
    ensures (start + m) % (RepeatCount + 1) == n % 2
  {
  }

  /** Of the lines of one wall row, the first is kept, in the place of the row's kind. */
  lemma KeptOfRow(line: string, n: nat, idx: nat)
    requires idx % (RepeatCount + 1) == n % 2
    ensures Kept(RowLines(line, n), idx) == [(n % 2, line)]
  {
    var ls := RowLines(line, n);
    if n % 2 == 1 {
      KeptDropped(ls[1..], idx + 1);
    }
  }

  /** The widened lines of the wall rows before `n`, each with the kind of its row. */
  function Tagged(wides: seq<string>, n: nat): (ts: seq<(nat, string)>)
    requires n <= |wides|
    ensures |ts| == n && forall r :: 0 <= r < n ==> ts[r] == (r % 2, wides[r])
  {
    seq(n, r requires 0 <= r < n => (r % 2, wides[r]))
  }

  lemma TaggedSnoc(wides: seq<string>, n: nat)
    requires 0 < n <= |wides|
    ensures Tagged(wides, n) == Tagged(wides, n - 1) + [((n - 1) % 2, wides[n - 1])]
  {
  }

  lemma KeptStep(pre: seq<string>, last: seq<string>, idx: nat, kept: seq<(nat, string)>, t: (nat, string))
    requires Kept(pre, idx) == kept && Kept(last, idx + |pre|) == [t]
    ensures Kept(pre + last, idx) == kept + [t]
  {
    KeptAppend(pre, last, idx, idx + |pre|);
  }

  /** The lines of one more wall row add that row to the lines kept. */
  lemma KeptGrow(wides: seq<string>, n: nat, start: nat)
    requires 0 < n <= |wides| && start % (RepeatCount + 1) == 0
    requires Kept(LinesBefore(wides, n - 1), start) == Tagged(wides, n - 1)
    ensures Kept(LinesBefore(wides, n - 1) + RowLines(wides[n - 1], n - 1), start) == Tagged(wides, n)
  {
    var pre, last := LinesBefore(wides, n - 1), RowLines(wides[n - 1], n - 1);
    LinesBeforeCount(wides, n - 1);
    PhaseOf(start, |pre|, n - 1);
    KeptOfRow(wides[n - 1], n - 1, start + |pre|);
    KeptStep(pre, last, start, Tagged(wides, n - 1), ((n - 1) % 2, wides[n - 1]));
    TaggedSnoc(wides, n);
  }

  /** The lines `from_str` keeps of those written for the wall rows before `n`, numbered from
      a multiple of the group size: one per row, of the row's kind. */
  lemma {:induction false} KeptOfLines(wides: seq<string>, n: nat, start: nat)
    requires n <= |wides| && start % (RepeatCount + 1) == 0
    ensures Kept(LinesBefore(wides, n), start) == Tagged(wides, n)
  {
    if n > 0 {
      KeptOfLines(wides, n - 1, start);
      KeptGrow(wides, n, start);
    }
  }

  /** Narrowing the widened line of a row of symbols as the row's kind gives back the row. */
  lemma RowBack(sym: string, r: nat)
    requires Narrowable(sym, OrderOf(r))
    ensures NarrowLine(r % 2, Widen(sym)) == sym
  {
    NarrowWiden(sym, OrderOf(r));
    NarrowChains(Widen(sym));
  }

  /** The rows `from_str` collects of the lines written for a board's rows of symbols are
      those rows. */
  lemma RowsOfLines(rows: seq<string>)
    requires forall r :: 0 <= r < |rows| ==> Narrowable(rows[r], OrderOf(r))
    ensures Rows(LinesBefore(Widened(rows), |rows|), 0) == rows
  {
    var wides := Widened(rows);
    var got := Rows(LinesBefore(wides, |rows|), 0);
    KeptOfLines(wides, |rows|, 0);
    forall r | 0 <= r < |rows|
      ensures got[r] == rows[r]
    {
      RowBack(rows[r], r);
    }
  }

  // ---------------------------------------------------------------- the replay comes back

  /** The wall (r, c) comes before position `j` of row `k` in reading order. */
  predicate WallRead(k: nat, j: nat, r: nat, c: nat)
  {
    r < k || (r == k && (if r % 2 == 0 then 2 * c + 1 else 2 * c) < j)
  }

  /** The owner of cell (i, c) comes before position `j` of row `k` in reading order. */
  predicate OwnerRead(k: nat, j: nat, i: nat, c: nat)
  {
    2 * i + 1 < k || (2 * i + 1 == k && 2 * c + 1 < j)
  }

  /** The replayed board `d` holds what the text of `b` says up to position `j` of row `k`:
      those walls and owners are the ones of `b`, the others are as `Board::new` made them. */
  ghost predicate Agrees(d: BoardState, b: BoardState, k: nat, j: nat)
  {
    && Shaped(d) && Shaped(b) && d.width == b.width && d.height == b.height
    && d.statistics == DefaultStatistics
    && (forall r, c :: 0 <= r < |d.walls| && 0 <= c < |d.walls[r]| ==>
          d.walls[r][c].isClicked == (WallRead(k, j, r, c) && b.walls[r][c].isClicked))
    && (forall i, c :: 0 <= i < |d.cells| && 0 <= c < |d.cells[i]| ==>
          d.cells[i][c].owner == if OwnerRead(k, j, i, c) then b.cells[i][c].owner else None)
  }

  lemma StartAgrees(b: BoardState)
    requires Shaped(b)
    ensures Agrees(NewBoard(b.width, b.height), b, 0, 0)
  {
    NewBoardShaped(b.width, b.height);
  }

  /** A row read to its end: the next row starts. */
  lemma RowDone(d: BoardState, b: BoardState, k: nat)
    requires Shaped(b) && k < |b.walls| && Agrees(d, b, k, |RowSymbols(b, k)|)
    ensures Agrees(d, b, k + 1, 0)
  {
    var n := |RowSymbols(b, k)|;
    forall r, c | 0 <= r < |d.walls| && 0 <= c < |d.walls[r]|
      ensures WallRead(k + 1, 0, r, c) == WallRead(k, n, r, c)
    {
    }
    forall i, c | 0 <= i < |d.cells| && 0 <= c < |d.cells[i]|
      ensures OwnerRead(k + 1, 0, i, c) == OwnerRead(k, n, i, c)
    {
    }
  }

  /** Reading the wall symbol at position j of row k reads that wall and no owner. */
  lemma WallReadAdvance(k: nat, j: nat)
    requires (k % 2 == 0) == (j % 2 == 1)
    ensures forall r: nat, c: nat :: WallRead(k, j + 1, r, c) == (WallRead(k, j, r, c) || (r, c) == (k, j / 2))
    ensures forall i: nat, c: nat :: OwnerRead(k, j + 1, i, c) == OwnerRead(k, j, i, c)
  {
  }

  /** Reading the owner symbol at position j of vertical row k reads that owner and no wall. */
  lemma OwnerReadAdvance(k: nat, j: nat)
    requires k % 2 == 1 && j % 2 == 1
    ensures forall r: nat, c: nat :: WallRead(k, j + 1, r, c) == WallRead(k, j, r, c)
    ensures forall i: nat, c: nat :: OwnerRead(k, j + 1, i, c) == (OwnerRead(k, j, i, c) || (i, c) == (k / 2, j / 2))
  {
  }

  /** Reading a space of a horizontal row reads nothing. */
  lemma BlankReadAdvance(k: nat, j: nat)
    requires k % 2 == 0 && j % 2 == 0
    ensures forall r: nat, c: nat :: WallRead(k, j + 1, r, c) == WallRead(k, j, r, c)
    ensures forall i: nat, c: nat :: OwnerRead(k, j + 1, i, c) == OwnerRead(k, j, i, c)
  {
  }

  /** The board after the wall symbol at position j of row k agrees one position further. */
  lemma AgreesAfterWall(d: BoardState, e: BoardState, b: BoardState, k: nat, j: nat)
    requires Agrees(d, b, k, j) && (k % 2 == 0) == (j % 2 == 1)
    requires k < |b.walls| && j / 2 < |b.walls[k]|
    requires Shaped(e) && SameFrame(d, e)
    requires forall r, c :: 0 <= r < |d.walls| && 0 <= c < |d.walls[r]| ==>
               e.walls[r][c].isClicked == (d.walls[r][c].isClicked || ((r, c) == (k, j / 2) && b.walls[k][j / 2].isClicked))
    requires forall i, c :: 0 <= i < |d.cells| && 0 <= c < |d.cells[i]| ==>
               e.cells[i][c].owner == d.cells[i][c].owner
    ensures Agrees(e, b, k, j + 1)
  {
    WallReadAdvance(k, j);
    forall r, c | 0 <= r < |e.walls| && 0 <= c < |e.walls[r]|
      ensures e.walls[r][c].isClicked == (WallRead(k, j + 1, r, c) && b.walls[r][c].isClicked)
    {
      assert d.walls[r][c].isClicked == (WallRead(k, j, r, c) && b.walls[r][c].isClicked);
    }
  }

  /** The board after the owner symbol at position j of vertical row k agrees one position
      further. */
  lemma AgreesAfterOwner(d: BoardState, e: BoardState, b: BoardState, k: nat, j: nat)
    requires Agrees(d, b, k, j) && k % 2 == 1 && j % 2 == 1
    requires k / 2 < |b.cells| && j / 2 < |b.cells[k / 2]|
    requires Shaped(e) && SameFrame(d, e) && e.walls == d.walls
    requires forall i, c :: 0 <= i < |d.cells| && 0 <= c < |d.cells[i]| ==>
               e.cells[i][c].owner == if (i, c) == (k / 2, j / 2) then b.cells[k / 2][j / 2].owner else d.cells[i][c].owner
    ensures Agrees(e, b, k, j + 1)
  {
    OwnerReadAdvance(k, j);
    forall i, c | 0 <= i < |e.cells| && 0 <= c < |e.cells[i]|
      ensures e.cells[i][c].owner == if OwnerRead(k, j + 1, i, c) then b.cells[i][c].owner else None
    {
      assert d.cells[i][c].owner == if OwnerRead(k, j, i, c) then b.cells[i][c].owner else None;
    }
  }

  /** The wall symbol at position j of row k. */
  lemma WallCharStep(d: BoardState, b: BoardState, k: nat, j: nat)
    requires Shaped(b) && k < |b.walls| && j < |RowSymbols(b, k)| && Agrees(d, b, k, j)
    requires (k % 2 == 0) == (j % 2 == 1)
    ensures DecodeChar(d, k, j, RowSymbols(b, k)[j]).Ok?
    ensures Agrees(DecodeChar(d, k, j, RowSymbols(b, k)[j]).value, b, k, j + 1)
  {
    var c0 := j / 2;
    var ch := RowSymbols(b, k)[j];
    assert ch == (if b.walls[k][c0].isClicked then 'X' else if k % 2 == 0 then '-' else '|');
    if ch == 'X' {
      var e := MarkWall(d, k, c0);
      assert DecodeChar(d, k, j, ch) == e;
      AgreesAfterWall(d, e.value, b, k, j);
    } else {
      assert DecodeChar(d, k, j, ch) == Ok(d);
      AgreesAfterWall(d, d, b, k, j);
    }
  }

  /** The owner symbol at position j of vertical row k. */
  lemma OwnerCharStep(d: BoardState, b: BoardState, k: nat, j: nat)
    requires Shaped(b) && k < |b.walls| && j < |RowSymbols(b, k)| && Agrees(d, b, k, j)
    requires k % 2 == 1 && j % 2 == 1
    ensures DecodeChar(d, k, j, RowSymbols(b, k)[j]).Ok?
    ensures Agrees(DecodeChar(d, k, j, RowSymbols(b, k)[j]).value, b, k, j + 1)
  {
    var i0, c0 := k / 2, j / 2;
    var o := b.cells[i0][c0].owner;
    var ch := RowSymbols(b, k)[j];
    assert ch == OwnerChar(o);
    LetterOwnerInverts(o);
    if o.Some? {
      var e := SetOwner(d, i0, c0, o.value);
      assert DecodeChar(d, k, j, ch) == e;
      AgreesAfterOwner(d, e.value, b, k, j);
    } else {
      assert DecodeChar(d, k, j, ch) == Ok(d);
      AgreesAfterOwner(d, d, b, k, j);
    }
  }

  /** The spaces at the even positions of a horizontal row. */
  lemma BlankStep(d: BoardState, b: BoardState, k: nat, j: nat)
    requires Shaped(b) && k < |b.walls| && j < |RowSymbols(b, k)| && Agrees(d, b, k, j)
    requires k % 2 == 0 && j % 2 == 0
    ensures DecodeChar(d, k, j, RowSymbols(b, k)[j]) == Ok(d)
    ensures Agrees(d, b, k, j + 1)
  {
    assert RowSymbols(b, k)[j] == ' ';
    BlankReadAdvance(k, j);
  }

  /** The replay of the rest of row k, from position j on. */
  lemma {:induction false} DecodeRowAgrees(d: BoardState, b: BoardState, k: nat, j: nat)
    requires Shaped(b) && k < |b.walls| && j <= |RowSymbols(b, k)| && Agrees(d, b, k, j)
    ensures DecodeRow(d, k, RowSymbols(b, k)[j..], j).Ok?
    ensures Agrees(DecodeRow(d, k, RowSymbols(b, k)[j..], j).value, b, k + 1, 0)
    decreases |RowSymbols(b, k)| - j
  {
    var sym := RowSymbols(b, k);
    if j == |sym| {
      assert sym[j..] == [];
      RowDone(d, b, k);
    } else {
      assert sym[j..][0] == sym[j] && sym[j..][1..] == sym[j + 1..];
      if (k % 2 == 0) == (j % 2 == 1) {
        WallCharStep(d, b, k, j);
      } else if k % 2 == 1 {
        OwnerCharStep(d, b, k, j);
      } else {
        BlankStep(d, b, k, j);
      }
      var e := DecodeChar(d, k, j, sym[j]);
      DecodeRowAgrees(e.value, b, k, j + 1);
    }
  }

  /** The replay of the rows from row k on. */
  lemma {:induction false} DecodeRowsAgrees(d: BoardState, b: BoardState, k: nat)
    requires Shaped(b) && k <= |b.walls| && Agrees(d, b, k, 0)
    ensures DecodeRows(d, SymbolRows(b)[k..], k).Ok?
    ensures Agrees(DecodeRows(d, SymbolRows(b)[k..], k).value, b, |b.walls|, 0)
    decreases |b.walls| - k
  {
    var rows := SymbolRows(b);
    if k < |b.walls| {
      assert rows[k..][0] == RowSymbols(b, k) && rows[k..][1..] == rows[k + 1..];
      assert RowSymbols(b, k)[0..] == RowSymbols(b, k);
      DecodeRowAgrees(d, b, k, 0);
      DecodeRowsAgrees(DecodeRow(d, k, RowSymbols(b, k), 0).value, b, k + 1);
    } else {
      assert rows[k..] == [];
    }
  }

  /** The rows `from_str` collects from the text of a board are the board's rows of
      symbols. */
  lemma RowsOfEncode(b: BoardState)
    requires Shaped(b)
    ensures Encode(b) != [] && Rows(Lines(Encode(b)), 0) == SymbolRows(b)
  {
    var rows := SymbolRows(b);
    var wides := Widened(rows);
    var lines := LinesBefore(wides, |rows|);
    SymbolRowsFacts(b);
    forall r | 0 <= r < |rows|
      ensures Plain(wides[r])
    {
      WidenPlain(rows[r]);
    }
    LinesBeforePlain(wides, |rows|);
    LinesOfJoin(lines);
    RowsOfLines(rows);
    assert lines != [] by {
      LinesBeforeCount(wides, |rows|);
    }
  }

  /** `from_str` on the text of a board replays the board's rows of symbols on a new board of
      its size. */
  lemma DecodeOfEncode(b: BoardState) returns (start: BoardState)
    requires Shaped(b)
    ensures start == NewBoard(b.width, b.height) && Shaped(start)
    ensures Decode(Encode(b)) == DecodeRows(start, SymbolRows(b), 0)
  {
    var rows := SymbolRows(b);
    RowsOfEncode(b);
    assert |rows[0]| / 2 == b.width && |rows| / 2 == b.height;
    NewBoardShaped(b.width, b.height);
    start := NewBoard(b.width, b.height);
  }

  /** The replay of all rows of symbols on a new board agrees with the board everywhere. */
  lemma ReplayAgrees(b: BoardState, start: BoardState)
    requires Shaped(b) && start == NewBoard(b.width, b.height) && Shaped(start)
    ensures DecodeRows(start, SymbolRows(b), 0).Ok?
    ensures Agrees(DecodeRows(start, SymbolRows(b), 0).value, b, |b.walls|, 0)
  {
    StartAgrees(b);
    assert SymbolRows(b)[0..] == SymbolRows(b);
    DecodeRowsAgrees(start, b, 0);
  }

  /** Agreeing past the last row is having every wall and every owner of the board. */
  lemma AgreesEverywhere(d: BoardState, b: BoardState)
    requires Agrees(d, b, |b.walls|, 0)
    ensures Shaped(d) && d.width == b.width && d.height == b.height
    ensures d.statistics == DefaultStatistics
    ensures forall r, c :: 0 <= r < |b.walls| && 0 <= c < |b.walls[r]| ==>
              d.walls[r][c].isClicked == b.walls[r][c].isClicked
    ensures forall i, c :: 0 <= i < |b.cells| && 0 <= c < |b.cells[i]| ==>
              d.cells[i][c].owner == b.cells[i][c].owner
  {
  }

  /** Reading back the text of a board gives a board of the same size whose walls are clicked
      and whose cells are owned exactly as in the original. The scores are not in the text and
      come back as zero. */
  lemma DecodeEncode(b: BoardState)
    requires Shaped(b)
    ensures Decode(Encode(b)).Ok?
    ensures var d := Decode(Encode(b)).value;
      && Shaped(d) && d.width == b.width && d.height == b.height
      && d.statistics == DefaultStatistics
      && (forall r, c :: 0 <= r < |b.walls| && 0 <= c < |b.walls[r]| ==>
            d.walls[r][c].isClicked == b.walls[r][c].isClicked)
      && (forall i, c :: 0 <= i < |b.cells| && 0 <= c < |b.cells[i]| ==>
            d.cells[i][c].owner == b.cells[i][c].owner)
  {
    var start := DecodeOfEncode(b);
    ReplayAgrees(b, start);
    AgreesEverywhere(Decode(Encode(b)).value, b);
  }
}
