/**
  The minimax player of src/ai/minimax_player.rs: a depth-limited search with alpha-beta
  pruning over the moves of `available_moves`. A click that completes a cell gives the same
  player another move, so the search goes on at the same depth, on the same side and with the
  same player; any other click hands the move to the opponent one level deeper.

  The search is proved against the game value of module-level function `Value`, the plain
  minimax over the same moves with the same depth rule: the score it returns is that value
  when it lies strictly inside the window, and otherwise a bound on it on the side of the
  window it fell out of (the fail-soft contract of alpha-beta search).
*/
module Minimax {
  import opened Wrappers
  import opened Game
  import opened GameInvariants
  import opened AI
  import opened Boards
  import opened MoveOrder
  import opened Scores

  /** The search stops here: no depth left, or no wall left to click. */
  predicate Terminal(b: BoardState, depth: nat)
  {
    depth == 0 || AllClicked(b)
  }

  function Max(x: int, y: int): int
  {
    if x >= y then x else y
  }

  function Min(x: int, y: int): int
  {
    if x <= y then x else y
  }

  // ---------------------------------------------------------------- the game value

  /** The minimax value of a node, at most `depth` changes of turn deep. */
  ghost function Value(b: BoardState, depth: nat, maximizing: bool, player: Player): (v: int)
    requires Playable(b) && player != Player2
    ensures I32Min <= v <= I32Max
    decreases UnclickedCount(b), 3, 0
  {
    if Terminal(b, depth) then Evaluate(b) else InnerValue(b, depth, maximizing, player)
  }

  /** The value of a node that is not terminal: the best over its available moves. */
  ghost function InnerValue(b: BoardState, depth: nat, maximizing: bool, player: Player): (v: int)
    requires Playable(b) && player != Player2 && depth >= 1
    ensures I32Min <= v <= I32Max
    decreases UnclickedCount(b), 2, 0
  {
    var vs := ChildValues(b, AvailableMoves(b), depth, maximizing, player);
    Best(maximizing, vs, |vs|)
  }

  /** The values of the nodes the moves lead to, in move order. */
  ghost function ChildValues(b: BoardState, moves: seq<(nat, nat)>, depth: nat, maximizing: bool, player: Player): (vs: seq<int>)
    requires Playable(b) && player != Player2 && depth >= 1 && AllOpen(b, moves)
    ensures |vs| == |moves| && forall k :: 0 <= k < |vs| ==> I32Min <= vs[k] <= I32Max
    decreases UnclickedCount(b), 1
  {
    seq(|moves|, k requires 0 <= k < |moves| => ChildValue(b, moves[k], depth, maximizing, player))
  }

  /** The value of the node reached by one move. It is kept apart from the click itself so
      that a statement about the list of child values does not bring the click into view. */
  ghost function ChildValue(b: BoardState, m: (nat, nat), depth: nat, maximizing: bool, player: Player): (v: int)
    requires Playable(b) && player != Player2 && depth >= 1 && IsUnclickedWall(b, m)
    ensures I32Min <= v <= I32Max
    decreases UnclickedCount(b), 0, 1
  {
    AfterMove(b, m, depth, maximizing, player)
  }

  /** Click the wall m, then go on from the node it leads to. */
  ghost function AfterMove(b: BoardState, m: (nat, nat), depth: nat, maximizing: bool, player: Player): (v: int)
    requires Playable(b) && player != Player2 && depth >= 1 && IsUnclickedWall(b, m)
    ensures I32Min <= v <= I32Max
    decreases UnclickedCount(b), 0, 0
  {
    ClickErrors(b, m.0, m.1, player);
    ClickDecreasesUnclicked(b, m.0, m.1, player);
    ClickPlayable(b, m.0, m.1, player);
    var o := Click(b, m.0, m.1, player);
    AfterClick(o.board, o.result.value, depth, maximizing, player)
  }

  /** The value of a node after a click: a completing click keeps depth, side and player; any
      other click lowers the depth and passes the turn. */
  ghost function AfterClick(c: BoardState, additionalMove: bool, depth: nat, maximizing: bool, player: Player): (v: int)
    requires Playable(c) && player != Player2 && depth >= 1
    ensures I32Min <= v <= I32Max
    decreases UnclickedCount(c), 4, 0
  {
    if additionalMove then Value(c, depth, maximizing, player)
    else Value(c, depth - 1, !maximizing, Opponent(player))
  }

  /** The best of the first n child values, starting from the worst `i32` for the side to move:
      what the loop's `best_score` is after n moves when none was cut off. It is no worse than
      any of those children, and it stays an `i32` when they are. */
  function Best(maximizing: bool, vs: seq<int>, n: nat): (r: int)
    requires n <= |vs|
    ensures forall k :: 0 <= k < n ==> if maximizing then vs[k] <= r else r <= vs[k]
    ensures (forall k :: 0 <= k < n ==> I32Min <= vs[k] <= I32Max) ==> I32Min <= r <= I32Max
  {
    if n == 0 then
      if maximizing then I32Min else I32Max
    else
      var p := Best(maximizing, vs, n - 1);
      if maximizing then Max(p, vs[n - 1]) else Min(p, vs[n - 1])
  }

  /** The node after a click, as the depth, side and player the search goes on with. */
  lemma AfterClickIs(c: BoardState, additionalMove: bool, depth: nat, maximizing: bool, player: Player)
    requires Playable(c) && player != Player2 && depth >= 1
    ensures AfterClick(c, additionalMove, depth, maximizing, player) ==
              Value(c, if additionalMove then depth else depth - 1, if additionalMove then maximizing else !maximizing,
                    if additionalMove then player else Opponent(player))
  {
  }

  /** The value of a child is the value after the click that reaches it. */
  lemma ChildValueOf(b: BoardState, m: (nat, nat), depth: nat, maximizing: bool, player: Player,
                     child: BoardState, additionalMove: bool)
    requires Playable(b) && player != Player2 && depth >= 1 && IsUnclickedWall(b, m)
    requires Click(b, m.0, m.1, player) == ClickOutcome(child, Ok(additionalMove))
    ensures Playable(child) && UnclickedCount(child) < UnclickedCount(b)
    ensures ChildValue(b, m, depth, maximizing, player) == AfterClick(child, additionalMove, depth, maximizing, player)
  {
    ClickDecreasesUnclicked(b, m.0, m.1, player);
    ClickPlayable(b, m.0, m.1, player);
  }

  // ---------------------------------------------------------------- what the search promises

  /** The fail-soft contract of a search in the window (alpha, beta) whose true value is v. */
  predicate FailSoft(score: int, alpha: int, beta: int, v: int)
  {
    && (score <= alpha ==> v <= score)
    && (score >= beta ==> v >= score)
    && (alpha < score < beta ==> v == score)
  }

  /** The move at idx was taken: its value reaches the score (equals it inside the window),
      and every move before it is strictly worse than the score. */
  predicate Chosen(vs: seq<int>, idx: nat, maximizing: bool, score: int, alpha: int, beta: int)
    requires idx < |vs|
  {
    if maximizing then
      && vs[idx] >= score && (score < beta ==> vs[idx] == score)
      && forall j :: 0 <= j < idx ==> vs[j] < score
    else
      && vs[idx] <= score && (score > alpha ==> vs[idx] == score)
      && forall j :: 0 <= j < idx ==> vs[j] > score
  }

  /** What the loop says about its move over `moves`, whose children have the values vs: there
      is one exactly when the score moved off its starting value, it is one of the moves, and
      once the score passed the window's near bound it is the first move that attains the score. */
  predicate Outcome(moves: seq<(nat, nat)>, vs: seq<int>, maximizing: bool, alpha: int, beta: int,
                    score: int, best: Option<(nat, nat)>)
    requires |vs| == |moves|
  {
    && (best.Some? <==> if maximizing then score > I32Min else score < I32Max)
    && (best.Some? ==>
          exists idx :: 0 <= idx < |moves| && moves[idx] == best.value &&
            ((if maximizing then score > alpha else score < beta) ==>
               Chosen(vs, idx, maximizing, score, alpha, beta)))
  }

  /** The same over the available moves of a node that is not terminal. It is stated for
      every list equal to the available moves, so that a caller that does not look at the move
      is not made to compute that list. */
  ghost predicate SearchResult(b: BoardState, depth: nat, maximizing: bool, player: Player,
                               alpha: int, beta: int, score: int, best: Option<(nat, nat)>)
    requires Playable(b) && player != Player2 && depth >= 1
  {
    forall moves :: moves == AvailableMoves(b) ==>
      Outcome(moves, ChildValues(b, moves, depth, maximizing, player), maximizing, alpha, beta, score, best)
  }

  /** How the running best score of the loop relates to the value of the moves seen so far. */
  predicate Tracks(maximizing: bool, alpha0: int, beta0: int, best: int, p: int)
  {
    if maximizing then (best <= alpha0 ==> p <= best) && (best > alpha0 ==> p == best)
    else (best >= beta0 ==> p >= best) && (best < beta0 ==> p == best)
  }

  /** One round of the loop on a maximizing node, on the scores alone. */
  lemma MaxRound(alpha0: int, beta: int, best: int, p: int, s: int, v: int)
    requires Max(alpha0, best) < beta && Tracks(true, alpha0, beta, best, p)
    requires FailSoft(s, Max(alpha0, best), beta, v)
    ensures s <= best ==> Tracks(true, alpha0, beta, best, Max(p, v))
    ensures s > best ==> p < s && (Max(alpha0, s) < beta ==> Tracks(true, alpha0, beta, s, Max(p, v)))
    ensures s > best && s > alpha0 ==> v >= s && (s < beta ==> v == s)
    ensures s > best && Max(alpha0, s) >= beta ==> s >= beta && v >= s
  {
  }

  /** One round of the loop on a minimizing node, on the scores alone. */
  lemma MinRound(alpha: int, beta0: int, best: int, p: int, s: int, v: int)
    requires alpha < Min(beta0, best) && Tracks(false, alpha, beta0, best, p)
    requires FailSoft(s, alpha, Min(beta0, best), v)
    ensures s >= best ==> Tracks(false, alpha, beta0, best, Min(p, v))
    ensures s < best ==> p > s && (alpha < Min(beta0, s) ==> Tracks(false, alpha, beta0, s, Min(p, v)))
    ensures s < best && s < beta0 ==> v <= s && (s > alpha ==> v == s)
    ensures s < best && alpha >= Min(beta0, s) ==> s <= alpha && v <= s
  {
  }

  /** A move that beats every earlier one becomes the chosen move. */
  lemma NewChoice(vs: seq<int>, i: nat, maximizing: bool, score: int, alpha: int, beta: int)
    requires i < |vs|
    requires var p := Best(maximizing, vs, i);
      if maximizing then p < score && vs[i] >= score && (score < beta ==> vs[i] == score)
      else p > score && vs[i] <= score && (score > alpha ==> vs[i] == score)
    ensures Chosen(vs, i, maximizing, score, alpha, beta)
  {
  }

  /** The invariant of the loop after its first i moves: the window follows the best score,
      the best score tracks the best child value so far, and the move kept is the chosen one. */
  predicate Loop(moves: seq<(nat, nat)>, vs: seq<int>, i: nat, maximizing: bool, alpha0: int, beta0: int,
                 alpha: int, beta: int, bestScore: int, bestMove: Option<(nat, nat)>, bestIdx: nat)
  {
    && |vs| == |moves| && i <= |moves|
    && I32Min <= alpha < beta <= I32Max && I32Min <= bestScore <= I32Max
    && (maximizing ==> alpha == Max(alpha0, bestScore) && beta == beta0)
    && (!maximizing ==> beta == Min(beta0, bestScore) && alpha == alpha0)
    && Tracks(maximizing, alpha0, beta0, bestScore, Best(maximizing, vs, i))
    && (bestMove.Some? <==> if maximizing then bestScore > I32Min else bestScore < I32Max)
    && (bestMove.Some? ==> bestIdx < i && moves[bestIdx] == bestMove.value)
    && (bestMove.Some? && (if maximizing then bestScore > alpha0 else bestScore < beta0) ==>
          Chosen(vs, bestIdx, maximizing, bestScore, alpha0, beta0))
  }

  /** What the loop ends with: the score is fail-soft for the best child value and the move is
      the one the score came from. */
  predicate Searched(moves: seq<(nat, nat)>, vs: seq<int>, maximizing: bool, alpha0: int, beta0: int,
                     score: int, best: Option<(nat, nat)>)
  {
    && |vs| == |moves| && I32Min <= score <= I32Max
    && FailSoft(score, alpha0, beta0, Best(maximizing, vs, |vs|))
    && Outcome(moves, vs, maximizing, alpha0, beta0, score, best)
  }

  /** The loop starts with the invariant. */
  lemma LoopStart(moves: seq<(nat, nat)>, vs: seq<int>, maximizing: bool, alpha0: int, beta0: int)
    requires |vs| == |moves| && I32Min <= alpha0 < beta0 <= I32Max
    ensures Loop(moves, vs, 0, maximizing, alpha0, beta0, alpha0, beta0,
                 if maximizing then I32Min else I32Max, None, 0)
  {
  }

  /** A move that does not beat the best score leaves everything but the count as it was. */
  lemma LoopKeep(moves: seq<(nat, nat)>, vs: seq<int>, i: nat, maximizing: bool, alpha0: int, beta0: int,
                 alpha: int, beta: int, bestScore: int, bestMove: Option<(nat, nat)>, bestIdx: nat, s: int)
    requires Loop(moves, vs, i, maximizing, alpha0, beta0, alpha, beta, bestScore, bestMove, bestIdx)
    requires i < |moves| && FailSoft(s, alpha, beta, vs[i])
    requires if maximizing then s <= bestScore else s >= bestScore
    ensures Loop(moves, vs, i + 1, maximizing, alpha0, beta0, alpha, beta, bestScore, bestMove, bestIdx)
  {
    var p := Best(maximizing, vs, i);
    if maximizing {
      MaxRound(alpha0, beta, bestScore, p, s, vs[i]);
    } else {
      MinRound(alpha, beta0, bestScore, p, s, vs[i]);
    }
  }

  /** A move that beats the best score becomes the best move; the loop then goes on with the
      narrowed window, or stops when the window closed. */
  lemma LoopImprove(moves: seq<(nat, nat)>, vs: seq<int>, i: nat, maximizing: bool, alpha0: int, beta0: int,
                    alpha: int, beta: int, bestScore: int, bestMove: Option<(nat, nat)>, bestIdx: nat, s: int,
                    alpha': int, beta': int)
    requires Loop(moves, vs, i, maximizing, alpha0, beta0, alpha, beta, bestScore, bestMove, bestIdx)
    requires i < |moves| && FailSoft(s, alpha, beta, vs[i]) && I32Min <= s <= I32Max
    requires if maximizing then s > bestScore && alpha' == Max(alpha, s) && beta' == beta
             else s < bestScore && beta' == Min(beta, s) && alpha' == alpha
    ensures alpha' < beta' ==> Loop(moves, vs, i + 1, maximizing, alpha0, beta0, alpha', beta', s, Some(moves[i]), i)
    ensures beta' <= alpha' ==> Searched(moves, vs, maximizing, alpha0, beta0, s, Some(moves[i]))
  {
    var p := Best(maximizing, vs, i);
    if maximizing {
      MaxRound(alpha0, beta, bestScore, p, s, vs[i]);
    } else {
      MinRound(alpha, beta0, bestScore, p, s, vs[i]);
    }
    if maximizing ==> s > alpha0 {
      if !maximizing ==> s < beta0 {
        NewChoice(vs, i, maximizing, s, alpha0, beta0);
      }
    }
  }

  /** A loop that ran through every move ends with what the search promises. */
  lemma LoopDone(moves: seq<(nat, nat)>, vs: seq<int>, maximizing: bool, alpha0: int, beta0: int,
                 alpha: int, beta: int, bestScore: int, bestMove: Option<(nat, nat)>, bestIdx: nat)
    requires var ok := Loop(moves, vs, |moves|, maximizing, alpha0, beta0, alpha, beta, bestScore, bestMove, bestIdx); ok
    ensures Searched(moves, vs, maximizing, alpha0, beta0, bestScore, bestMove)
  {
  }

  // ---------------------------------------------------------------- the search

  /** `minimax`. */
  method Minimax(board: Board, depth: nat, maximizing: bool, alpha: int, beta: int, player: Player)
    returns (score: int, best: Option<(nat, nat)>)
    requires Playable(board.Value()) && player != Player2 && I32Min <= alpha < beta <= I32Max
    ensures I32Min <= score <= I32Max
    ensures FailSoft(score, alpha, beta, Value(board.Value(), depth, maximizing, player))
    ensures Terminal(board.Value(), depth) ==> score == Evaluate(board.Value()) && best == None
    ensures !Terminal(board.Value(), depth) ==>
              SearchResult(board.Value(), depth, maximizing, player, alpha, beta, score, best)
    decreases UnclickedCount(board.Value()), 4
  {
    var all := board.AllIsClicked();
    if depth == 0 || all {
      return Evaluate(board.Value()), None;
    }
    score, best := SearchMoves(board, depth, maximizing, alpha, beta, player);
  }

  /** The clone and the click of one child of the loop. The click cannot fail on an available
      move, so the `expect` after it never fires. */
  method Play(board: Board, m: (nat, nat), player: Player) returns (child: Board, additionalMove: bool)
    requires Playable(board.Value()) && IsUnclickedWall(board.Value(), m)
    ensures fresh(child)
    ensures Click(board.Value(), m.0, m.1, player) == ClickOutcome(child.Value(), Ok(additionalMove))
  {
    ClickErrors(board.Value(), m.0, m.1, player);
    child := new Board.Copy(board);
    var r := child.ClickWall(m.0, m.1, player);
    additionalMove := r.value;
  }

  /** One child of the loop: the clone, the click and the search below it. */
  method SearchChild(board: Board, ghost b: BoardState, moves: seq<(nat, nat)>, i: nat, depth: nat, maximizing: bool,
                     alpha: int, beta: int, player: Player)
    returns (score: int)
    requires board.Value() == b && Playable(b) && player != Player2 && depth >= 1
    requires AllOpen(b, moves) && i < |moves| && I32Min <= alpha < beta <= I32Max
    ensures I32Min <= score <= I32Max
    ensures FailSoft(score, alpha, beta, ChildValues(b, moves, depth, maximizing, player)[i])
    decreases UnclickedCount(b), 0
  {
    var m := moves[i];
    var child, additionalMove := Play(board, m, player);
    ChildValueOf(b, m, depth, maximizing, player, child.Value(), additionalMove);
    score := Continue(child, child.Value(), additionalMove, depth, maximizing, alpha, beta, player,
                      ChildValues(b, moves, depth, maximizing, player)[i]);
  }

  /** The recursive call after a click: on the same side when the click completed a cell, on
      the other side one level deeper otherwise. v is the value this call stands for, the
      child's value in the caller's list. */
  method Continue(board: Board, ghost c: BoardState, additionalMove: bool, depth: nat, maximizing: bool,
                  alpha: int, beta: int, player: Player, ghost v: int)
    returns (score: int)
    requires board.Value() == c && Playable(c) && player != Player2 && depth >= 1 && I32Min <= alpha < beta <= I32Max
    requires v == AfterClick(c, additionalMove, depth, maximizing, player)
    ensures I32Min <= score <= I32Max
    ensures FailSoft(score, alpha, beta, v)
    decreases UnclickedCount(c), 5
  {
    AfterClickIs(c, additionalMove, depth, maximizing, player);
    var ignoredMove;
    score, ignoredMove := Minimax(board, if additionalMove then depth else depth - 1,
                                  if additionalMove then maximizing else !maximizing,
                                  alpha, beta, if additionalMove then player else Opponent(player));
  }

  /** The loop of `minimax` over the available moves of a node that is not terminal. */
  method SearchMoves(board: Board, depth: nat, maximizing: bool, alpha: int, beta: int, player: Player)
    returns (score: int, best: Option<(nat, nat)>)
    requires Playable(board.Value()) && player != Player2 && depth >= 1 && I32Min <= alpha < beta <= I32Max
    ensures I32Min <= score <= I32Max
    ensures FailSoft(score, alpha, beta,
                     InnerValue(board.Value(), depth, maximizing, player))
    ensures SearchResult(board.Value(), depth, maximizing, player, alpha, beta, score, best)
    decreases UnclickedCount(board.Value()), 3
  {
    var moves := AvailableMoves(board.Value());
    score, best := SearchList(board, moves, depth, maximizing, alpha, beta, player);
  }

  /** The `for` loop of `minimax` over a list of open walls. */
  method SearchList(board: Board, moves: seq<(nat, nat)>, depth: nat, maximizing: bool, alpha0: int, beta0: int,
                    player: Player)
    returns (score: int, best: Option<(nat, nat)>)
    requires Playable(board.Value()) && player != Player2 && depth >= 1 && I32Min <= alpha0 < beta0 <= I32Max
    requires AllOpen(board.Value(), moves)
    ensures var ok := Searched(moves, ChildValues(board.Value(), moves, depth, maximizing, player), maximizing, alpha0, beta0,
                     score, best); ok
    decreases UnclickedCount(board.Value()), 2
  {
    ghost var b := board.Value();
    ghost var vs := ChildValues(b, moves, depth, maximizing, player);
    var alpha, beta := alpha0, beta0;
    var bestScore := if maximizing then I32Min else I32Max;
    var bestMove: Option<(nat, nat)> := None;
    ghost var bestIdx: nat := 0;
    LoopStart(moves, vs, maximizing, alpha0, beta0);
    var i := 0;
    while i < |moves|
      invariant board.Value() == b
      invariant var ok := Loop(moves, vs, i, maximizing, alpha0, beta0, alpha, beta, bestScore, bestMove, bestIdx); ok
    {
      var cut;
      alpha, beta, bestScore, bestMove, bestIdx, cut :=
        Round(board, b, moves, i, depth, maximizing, player, vs, alpha0, beta0, alpha, beta, bestScore, bestMove, bestIdx);
      if cut {
        break;
      }
      i := i + 1;
    }
    if i == |moves| {
      LoopDone(moves, vs, maximizing, alpha0, beta0, alpha, beta, bestScore, bestMove, bestIdx);
    }
    score, best := bestScore, bestMove;
  }

  /** One pass of the loop: the search below the i-th move, then the update of the best score,
      the best move and the window; `cut` is the `break` of the pruning. */
  method Round(board: Board, ghost b: BoardState, moves: seq<(nat, nat)>, i: nat, depth: nat, maximizing: bool, player: Player,
               ghost vs: seq<int>, ghost alpha0: int, ghost beta0: int,
               alpha: int, beta: int, bestScore: int, bestMove: Option<(nat, nat)>, ghost bestIdx: nat)
    returns (alpha': int, beta': int, bestScore': int, bestMove': Option<(nat, nat)>, ghost bestIdx': nat, cut: bool)
    requires board.Value() == b && Playable(b) && player != Player2 && depth >= 1 && AllOpen(b, moves)
    requires vs == ChildValues(b, moves, depth, maximizing, player)
    requires var ok := Loop(moves, vs, i, maximizing, alpha0, beta0, alpha, beta, bestScore, bestMove, bestIdx); ok
    requires i < |moves|
    ensures !cut ==> Loop(moves, vs, i + 1, maximizing, alpha0, beta0, alpha', beta', bestScore', bestMove', bestIdx')
    ensures cut ==> Searched(moves, vs, maximizing, alpha0, beta0, bestScore', bestMove')
    decreases UnclickedCount(b), 1
  {
    alpha', beta', bestScore', bestMove', bestIdx', cut := alpha, beta, bestScore, bestMove, bestIdx, false;
    var s := SearchChild(board, b, moves, i, depth, maximizing, alpha, beta, player);
    if maximizing {
      if s > bestScore {
        LoopImprove(moves, vs, i, maximizing, alpha0, beta0, alpha, beta, bestScore, bestMove, bestIdx, s,
                    Max(alpha, s), beta);
        bestScore' := Max(bestScore, s);
        bestMove' := Some(moves[i]);
        bestIdx' := i;
        alpha' := Max(alpha, bestScore');
        cut := beta' <= alpha';
      } else {
        LoopKeep(moves, vs, i, maximizing, alpha0, beta0, alpha, beta, bestScore, bestMove, bestIdx, s);
      }
    } else if s < bestScore {
      LoopImprove(moves, vs, i, maximizing, alpha0, beta0, alpha, beta, bestScore, bestMove, bestIdx, s,
                  alpha, Min(beta, s));
      bestScore' := s;
      bestMove' := Some(moves[i]);
      bestIdx' := i;
      beta' := Min(beta, bestScore');
      cut := beta' <= alpha';
    } else {
      LoopKeep(moves, vs, i, maximizing, alpha0, beta0, alpha, beta, bestScore, bestMove, bestIdx, s);
    }
  }

  /** The move m is the first of the available moves of a node that is not terminal whose
      child is worth the value of the node, for the computer as the maximizing side. */
  ghost predicate FirstBest(b: BoardState, depth: nat, m: (nat, nat))
    requires Playable(b) && depth >= 1
  {
    var moves := AvailableMoves(b);
    var vs := ChildValues(b, moves, depth, true, CPU);
    var v := Value(b, depth, true, CPU);
    exists idx :: 0 <= idx < |moves| && moves[idx] == m && vs[idx] == v && forall j :: 0 <= j < idx ==> vs[j] < v
  }

  /** `next_move`: the move of the search from the root, for the computer, maximizing, with the
      whole `i32` range as window. */
  method NextMove(board: Board, maxDepth: nat) returns (m: Option<(nat, nat)>)
    requires Playable(board.Value())
    ensures Terminal(board.Value(), maxDepth) ==> m == None
    ensures !Terminal(board.Value(), maxDepth) ==>
              (m.Some? <==> Value(board.Value(), maxDepth, true, CPU) > I32Min)
    ensures m.Some? ==>
              maxDepth >= 1 && IsUnclickedWall(board.Value(), m.value) && FirstBest(board.Value(), maxDepth, m.value)
  {
    var score;
    score, m := Minimax(board, maxDepth, true, I32Min, I32Max, CPU);
    ghost var b := board.Value();
    assert score == Value(b, maxDepth, true, CPU);
    if !Terminal(b, maxDepth) {
      ghost var moves := AvailableMoves(b);
      ghost var vs := ChildValues(b, moves, maxDepth, true, CPU);
      assert Outcome(moves, vs, true, I32Min, I32Max, score, m);
      if m.Some? {
        ghost var idx :| 0 <= idx < |moves| && moves[idx] == m.value && Chosen(vs, idx, true, score, I32Min, I32Max);
        assert vs[idx] == score && forall j :: 0 <= j < idx ==> vs[j] < score;
      }
    }
  }
}
