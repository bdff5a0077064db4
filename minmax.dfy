/**
  The hard computer player of src/ai/minmax_player.rs: a depth-limited alpha-beta search that
  remembers the answer of every node it has searched in a cache, and that keeps every move
  tied for the best score so that `next_move` can pick one of them at random.

  A node is keyed by what `Hash for MinmaxParamters` feeds the hasher: the clicked flag of
  every wall, the owner of every cell, the depth left, the side and the player to move. The key
  leaves out the window (alpha, beta), so an answer found in one window is reused in another;
  the model therefore states what each answer is made of (the scores the cache holds for the
  children the loop explored, and the rules of the loop) rather than claiming it is the game
  value of the node.
*/
module Minmax {
  import opened Wrappers
  import opened Game
  import opened GameInvariants
  import opened AI
  import opened Boards
  import opened MoveOrder
  import opened Scores
  import Minimax
  import Greedy

  // ---------------------------------------------------------------- the cache key

  /** The data hashed by `hash_state`. The grids keep their rows; a search never changes the
      size of the board, so this is the information of the flattened sequence. */
  datatype Key = Key(walls: seq<seq<bool>>, owners: seq<seq<Option<Player>>>, depth: nat,
                     maximizing: bool, player: Player)

  /** `MinmaxBestMoves`: the score of a node and the moves tied for it. */
  datatype BestMoves = BestMoves(score: int, moves: seq<(nat, nat)>)

  /** The clicked flags of a row of walls. */
  function RowBits(ws: seq<Wall>): (r: seq<bool>)
    ensures |r| == |ws| && forall j :: 0 <= j < |ws| ==> r[j] == ws[j].isClicked
  {
    seq(|ws|, j requires 0 <= j < |ws| => ws[j].isClicked)
  }

  /** The clicked flags of all walls. */
  function WallBits(walls: seq<seq<Wall>>): (r: seq<seq<bool>>)
    ensures |r| == |walls| && forall i :: 0 <= i < |walls| ==> r[i] == RowBits(walls[i])
  {
    seq(|walls|, i requires 0 <= i < |walls| => RowBits(walls[i]))
  }

  /** The owners of all cells. */
  function Owners(cells: seq<seq<Cell>>): seq<seq<Option<Player>>>
  {
    seq(|cells|, i requires 0 <= i < |cells| =>
      seq(|cells[i]|, j requires 0 <= j < |cells[i]| => cells[i][j].owner))
  }

  /** The key of the node (board, depth, side, player). */
  function KeyOf(b: BoardState, depth: nat, maximizing: bool, player: Player): Key
  {
    Key(WallBits(b.walls), Owners(b.cells), depth, maximizing, player)
  }

  /** The flags say the wall m exists and is not clicked. */
  predicate OpenIn(bits: seq<seq<bool>>, m: (nat, nat))
  {
    m.0 < |bits| && m.1 < |bits[m.0]| && !bits[m.0][m.1]
  }

  function OpenInRowBits(bits: seq<bool>): nat
  {
    if bits == [] then 0 else OpenInRowBits(bits[..|bits| - 1]) + Ind(!bits[|bits| - 1])
  }

  /** How many flags are down: the walls still open on the keyed board. */
  function OpenBits(rows: seq<seq<bool>>): nat
  {
    if rows == [] then 0 else OpenBits(rows[..|rows| - 1]) + OpenInRowBits(rows[|rows| - 1])
  }

  lemma {:induction false} RowBitsCount(ws: seq<Wall>)
    ensures OpenInRowBits(RowBits(ws)) == UnclickedInRow(ws)
  {
    if ws != [] {
      var init := ws[..|ws| - 1];
      assert RowBits(ws)[..|ws| - 1] == RowBits(init);
      RowBitsCount(init);
    }
  }

  lemma {:induction false} WallBitsCount(walls: seq<seq<Wall>>)
    ensures OpenBits(WallBits(walls)) == UnclickedInRows(walls)
  {
    if walls != [] {
      var init := walls[..|walls| - 1];
      assert WallBits(walls)[..|walls| - 1] == WallBits(init);
      WallBitsCount(init);
      RowBitsCount(walls[|walls| - 1]);
    }
  }

  /** The key names exactly the open walls of the board, and counts them. */
  lemma KeyOfOpenWalls(b: BoardState, depth: nat, maximizing: bool, player: Player)
    ensures forall m :: OpenIn(KeyOf(b, depth, maximizing, player).walls, m) <==> IsUnclickedWall(b, m)
    ensures OpenBits(KeyOf(b, depth, maximizing, player).walls) == UnclickedCount(b)
  {
    WallBitsCount(b.walls);
  }

  // ---------------------------------------------------------------- the cache

  /** What a cached answer satisfies: an `i32` score, and only moves that are open walls of the
      keyed board. */
  predicate Sound(k: Key, r: BestMoves)
  {
    I32Min <= r.score <= I32Max && forall n :: 0 <= n < |r.moves| ==> OpenIn(k.walls, r.moves[n])
  }

  /** Every entry of `before` is in `after` with the same answer. */
  ghost predicate Grown(before: map<Key, BestMoves>, after: map<Key, BestMoves>)
  {
    forall k :: k in before ==> k in after && after[k] == before[k]
  }

  /** Every entry added since `before` is keyed by a board with fewer than `bound` open walls. */
  ghost predicate AddedBelow(before: map<Key, BestMoves>, after: map<Key, BestMoves>, bound: nat)
  {
    forall k :: k in after && k !in before ==> OpenBits(k.walls) < bound
  }

  /** `MinmaxCache`, the `HashMap` the search is given by `&mut`. */
  class Cache {
    var entries: map<Key, BestMoves>

    ghost predicate Valid()
      reads this
    {
      forall k :: k in entries ==> Sound(k, entries[k])
    }

    /** `HashMap::new`. */
    constructor ()
      ensures entries == map[] && Valid()
    {
      entries := map[];
    }

    /** `insert`: the answer r is stored under k, replacing what k held. */
    method Insert(k: Key, r: BestMoves)
      requires Valid() && Sound(k, r)
      modifies this
      ensures entries == old(entries)[k := r] && Valid()
    {
      entries := entries[k := r];
    }
  }

  // ---------------------------------------------------------------- the children of a node

  /** The key the search goes on with after the move m: a completing click keeps depth, side
      and player; any other click lowers the depth and passes the move to the opponent. */
  ghost function ChildKey(b: BoardState, m: (nat, nat), depth: nat, maximizing: bool, player: Player): Key
    requires Playable(b) && player != Player2 && depth >= 1 && IsUnclickedWall(b, m)
  {
    ClickErrors(b, m.0, m.1, player);
    var o := Click(b, m.0, m.1, player);
    var bonus := o.result.value;
    KeyOf(o.board, if bonus then depth else depth - 1, if bonus then maximizing else !maximizing,
          if bonus then player else Opponent(player))
  }

  /** The child keys of the moves, in move order. */
  ghost function ChildKeys(b: BoardState, moves: seq<(nat, nat)>, depth: nat, maximizing: bool,
                           player: Player): (keys: seq<Key>)
    requires Playable(b) && player != Player2 && depth >= 1 && AllOpen(b, moves)
    ensures |keys| == |moves|
  {
    seq(|moves|, k requires 0 <= k < |moves| => ChildKey(b, moves[k], depth, maximizing, player))
  }

  /** The child key is the key of the board the click leads to, which has one open wall less. */
  lemma ChildKeyOf(b: BoardState, m: (nat, nat), depth: nat, maximizing: bool, player: Player,
                   child: BoardState, bonus: bool)
    requires Playable(b) && player != Player2 && depth >= 1 && IsUnclickedWall(b, m)
    requires Click(b, m.0, m.1, player) == ClickOutcome(child, Ok(bonus))
    ensures Playable(child) && UnclickedCount(child) < UnclickedCount(b)
    ensures ChildKey(b, m, depth, maximizing, player) ==
              KeyOf(child, if bonus then depth else depth - 1, if bonus then maximizing else !maximizing,
                    if bonus then player else Opponent(player))
  {
    ClickDecreasesUnclicked(b, m.0, m.1, player);
    ClickPlayable(b, m.0, m.1, player);
  }

  /** The cache holds the score seen[k] for the k-th child key. */
  ghost predicate Scored(entries: map<Key, BestMoves>, keys: seq<Key>, seen: seq<int>)
  {
    |seen| <= |keys| && forall k :: 0 <= k < |seen| ==> keys[k] in entries && entries[keys[k]].score == seen[k]
  }

  // ---------------------------------------------------------------- the rules of the loop

  /** The moves among the first |seen| whose child scored s, in move order: `best_moves`. */
  function Tied(moves: seq<(nat, nat)>, seen: seq<int>, s: int): seq<(nat, nat)>
    requires |seen| <= |moves|
  {
    if seen == [] then []
    else Tied(moves, seen[..|seen| - 1], s) + (if seen[|seen| - 1] == s then [moves[|seen| - 1]] else [])
  }

  /** The window after the best score `best`: `beta < alpha`, the test of the `break`. */
  predicate Closed(maximizing: bool, alpha0: int, beta0: int, best: int)
  {
    if maximizing then beta0 < Minimax.Max(alpha0, best) else Minimax.Min(beta0, best) < alpha0
  }

  /** The j-th child beat the best score so far and closed the window: the loop stops there. */
  predicate Stops(maximizing: bool, alpha0: int, beta0: int, seen: seq<int>, j: nat)
    requires j < |seen|
  {
    var before := Minimax.Best(maximizing, seen, j);
    && (if maximizing then seen[j] > before else seen[j] < before)
    && Closed(maximizing, alpha0, beta0, Minimax.Best(maximizing, seen, j + 1))
  }

  /** What the loop over `moves` returned, given the scores of the children it explored: it
      explored a prefix of the moves (at least one when there is one), stopping exactly where a
      child closed the window; the score is the best of those children for the side to move
      (starting from the worst `i32`), and the moves are those of the children scoring it. */
  predicate Outcome(moves: seq<(nat, nat)>, seen: seq<int>, maximizing: bool, alpha0: int, beta0: int, r: BestMoves)
  {
    && |seen| <= |moves| && (|moves| > 0 ==> |seen| > 0)
    && r.score == Minimax.Best(maximizing, seen, |seen|)
    && r.moves == Tied(moves, seen, r.score)
    && (forall j :: 0 <= j < |seen| - 1 ==> !Stops(maximizing, alpha0, beta0, seen, j))
    && (|seen| < |moves| ==> Stops(maximizing, alpha0, beta0, seen, |seen| - 1))
  }

  /** The same over the available moves of a node, stated for every list equal to them so that
      callers that do not look at it are not made to compute that list. */
  ghost predicate SearchOutcome(entries: map<Key, BestMoves>, b: BoardState, depth: nat, maximizing: bool,
                                player: Player, alpha: int, beta: int, seen: seq<int>, r: BestMoves)
    requires Playable(b) && player != Player2 && depth >= 1
  {
    forall moves :: moves == AvailableMoves(b) ==>
      Outcome(moves, seen, maximizing, alpha, beta, r) &&
      Scored(entries, ChildKeys(b, moves, depth, maximizing, player), seen)
  }

  /** `alpha` and `beta` follow the best score: on a maximizing node alpha is the larger of its
      start and the best score and beta stays; the minimizing node mirrors this. */
  predicate Window(maximizing: bool, alpha0: int, beta0: int, alpha: int, beta: int, best: int)
  {
    if maximizing then alpha == Minimax.Max(alpha0, best) && beta == beta0
    else beta == Minimax.Min(beta0, best) && alpha == alpha0
  }

  /** The invariant of the loop after the children `seen`. */
  predicate LoopInv(moves: seq<(nat, nat)>, seen: seq<int>, maximizing: bool, alpha0: int, beta0: int,
                    alpha: int, beta: int, best: int, bestMoves: seq<(nat, nat)>)
  {
    && |seen| <= |moves|
    && Window(maximizing, alpha0, beta0, alpha, beta, best)
    && best == Minimax.Best(maximizing, seen, |seen|)
    && bestMoves == Tied(moves, seen, best)
    && forall j :: 0 <= j < |seen| ==> !Stops(maximizing, alpha0, beta0, seen, j)
  }

  lemma {:induction false} BestOfPrefix(maximizing: bool, vs: seq<int>, ws: seq<int>, n: nat)
    requires n <= |vs| <= |ws| && vs == ws[..|vs|]
    ensures Minimax.Best(maximizing, vs, n) == Minimax.Best(maximizing, ws, n)
  {
    if n > 0 {
      BestOfPrefix(maximizing, vs, ws, n - 1);
      assert vs[n - 1] == ws[n - 1];
    }
  }

  /** One more child leaves the stopping points of the earlier ones as they were. */
  lemma StopsSnoc(maximizing: bool, alpha0: int, beta0: int, seen: seq<int>, s: int)
    ensures forall j :: 0 <= j < |seen| ==>
              (Stops(maximizing, alpha0, beta0, seen + [s], j) <==> Stops(maximizing, alpha0, beta0, seen, j))
    ensures Minimax.Best(maximizing, seen + [s], |seen|) == Minimax.Best(maximizing, seen, |seen|)
  {
    var seen' := seen + [s];
    assert seen == seen'[..|seen|];
    forall j | 0 <= j < |seen|
      ensures Stops(maximizing, alpha0, beta0, seen', j) <==> Stops(maximizing, alpha0, beta0, seen, j)
    {
      BestOfPrefix(maximizing, seen, seen', j);
      BestOfPrefix(maximizing, seen, seen', j + 1);
      assert seen'[j] == seen[j];
    }
    BestOfPrefix(maximizing, seen, seen', |seen|);
  }

  lemma TiedSnoc(moves: seq<(nat, nat)>, seen: seq<int>, x: int, s: int)
    requires |seen| < |moves|
    ensures Tied(moves, seen + [x], s) == Tied(moves, seen, s) + (if x == s then [moves[|seen|]] else [])
  {
    assert (seen + [x])[..|seen|] == seen;
  }

  /** No child scored s: no move is tied for it. */
  lemma {:induction false} TiedNone(moves: seq<(nat, nat)>, seen: seq<int>, s: int)
    requires |seen| <= |moves| && forall k :: 0 <= k < |seen| ==> seen[k] != s
    ensures Tied(moves, seen, s) == []
  {
    if seen != [] {
      TiedNone(moves, seen[..|seen| - 1], s);
    }
  }

  /** `best_moves` holds only explored moves whose child scored the best score. */
  lemma {:induction false} TiedAmong(moves: seq<(nat, nat)>, seen: seq<int>, s: int)
    requires |seen| <= |moves|
    ensures forall x :: x in Tied(moves, seen, s) ==> exists k :: 0 <= k < |seen| && moves[k] == x && seen[k] == s
  {
    if seen != [] {
      TiedAmong(moves, seen[..|seen| - 1], s);
    }
  }

  /** Every explored move whose child scored s is in `best_moves`. */
  lemma {:induction false} TiedHas(moves: seq<(nat, nat)>, seen: seq<int>, s: int, k: nat)
    requires k < |seen| <= |moves| && seen[k] == s
    ensures moves[k] in Tied(moves, seen, s)
  {
    if k < |seen| - 1 {
      TiedHas(moves, seen[..|seen| - 1], s, k);
    }
  }

  /** The best of at least one `i32` child score is one of them. */
  lemma {:induction false} BestAttained(maximizing: bool, vs: seq<int>, n: nat) returns (k: nat)
    requires 1 <= n <= |vs| && forall j :: 0 <= j < n ==> I32Min <= vs[j] <= I32Max
    ensures k < n && vs[k] == Minimax.Best(maximizing, vs, n)
  {
    if n == 1 {
      k := 0;
    } else {
      var p := BestAttained(maximizing, vs, n - 1);
      if Minimax.Best(maximizing, vs, n) == vs[n - 1] {
        k := n - 1;
      } else {
        k := p;
      }
    }
  }

  /** The loop starts with the invariant. */
  lemma LoopStart(moves: seq<(nat, nat)>, maximizing: bool, alpha0: int, beta0: int)
    requires I32Min <= alpha0 <= I32Max && I32Min <= beta0 <= I32Max
    ensures LoopInv(moves, [], maximizing, alpha0, beta0, alpha0, beta0, if maximizing then I32Min else I32Max, [])
  {
  }

  /** A child that does not beat the best score: its move is added to `best_moves` when it ties. */
  lemma LoopKeep(moves: seq<(nat, nat)>, seen: seq<int>, maximizing: bool, alpha0: int, beta0: int,
                 alpha: int, beta: int, best: int, bestMoves: seq<(nat, nat)>, s: int)
    requires LoopInv(moves, seen, maximizing, alpha0, beta0, alpha, beta, best, bestMoves)
    requires |seen| < |moves| && if maximizing then s <= best else s >= best
    ensures LoopInv(moves, seen + [s], maximizing, alpha0, beta0, alpha, beta, best,
                    bestMoves + if s == best then [moves[|seen|]] else [])
  {
    StopsSnoc(maximizing, alpha0, beta0, seen, s);
    TiedSnoc(moves, seen, s, best);
  }

  /** A child that beats the best score becomes the only best move, and the window narrows;
      the loop goes on while the window is open and stops otherwise. */
  lemma LoopImprove(moves: seq<(nat, nat)>, seen: seq<int>, maximizing: bool, alpha0: int, beta0: int,
                    alpha: int, beta: int, best: int, bestMoves: seq<(nat, nat)>, s: int,
                    alpha': int, beta': int)
    requires LoopInv(moves, seen, maximizing, alpha0, beta0, alpha, beta, best, bestMoves)
    requires |seen| < |moves|
    requires if maximizing then s > best && alpha' == Minimax.Max(alpha, s) && beta' == beta
             else s < best && beta' == Minimax.Min(beta, s) && alpha' == alpha
    ensures !(beta' < alpha') ==>
              LoopInv(moves, seen + [s], maximizing, alpha0, beta0, alpha', beta', s, [moves[|seen|]])
    ensures beta' < alpha' ==> Outcome(moves, seen + [s], maximizing, alpha0, beta0, BestMoves(s, [moves[|seen|]]))
  {
    StopsSnoc(maximizing, alpha0, beta0, seen, s);
    TiedSnoc(moves, seen, s, s);
    TiedNone(moves, seen, s);
  }

  /** A loop that ran through every move returns its best score and moves. */
  lemma LoopDone(moves: seq<(nat, nat)>, seen: seq<int>, maximizing: bool, alpha0: int, beta0: int,
                 alpha: int, beta: int, best: int, bestMoves: seq<(nat, nat)>)
    requires var ok := LoopInv(moves, seen, maximizing, alpha0, beta0, alpha, beta, best, bestMoves); ok
    requires |seen| == |moves|
    ensures Outcome(moves, seen, maximizing, alpha0, beta0, BestMoves(best, bestMoves))
  {
  }

  /** The scores the cache holds for the explored children, with one more. */
  lemma ScoredSnoc(before: map<Key, BestMoves>, after: map<Key, BestMoves>, keys: seq<Key>, seen: seq<int>, s: int)
    requires Scored(before, keys, seen) && Grown(before, after) && |seen| < |keys|
    requires keys[|seen|] in after && after[keys[|seen|]].score == s
    ensures Scored(after, keys, seen + [s])
  {
  }

  /** An answer built from the explored children is `i32` and names only available moves. */
  lemma OutcomeSound(moves: seq<(nat, nat)>, seen: seq<int>, maximizing: bool, alpha0: int, beta0: int, r: BestMoves)
    requires Outcome(moves, seen, maximizing, alpha0, beta0, r)
    requires forall k :: 0 <= k < |seen| ==> I32Min <= seen[k] <= I32Max
    ensures I32Min <= r.score <= I32Max && forall x :: x in r.moves ==> x in moves
  {
    TiedAmong(moves, seen, r.score);
  }

  // ---------------------------------------------------------------- what a call promises

  /** The cache facts the loop keeps: every old entry is kept, every added entry is keyed by a
      board with fewer than `bound` open walls, and the cache holds the explored children's
      scores. */
  ghost predicate Progress(e0: map<Key, BestMoves>, e: map<Key, BestMoves>, keys: seq<Key>, bound: nat, seen: seq<int>)
  {
    Grown(e0, e) && AddedBelow(e0, e, bound) && Scored(e, keys, seen)
  }

  /** A child searched: the cache grew by entries below the bound and holds its score. */
  lemma ProgressStep(e0: map<Key, BestMoves>, e: map<Key, BestMoves>, e': map<Key, BestMoves>, keys: seq<Key>,
                     bound: nat, seen: seq<int>, s: int)
    requires Progress(e0, e, keys, bound, seen) && |seen| < |keys|
    requires Grown(e, e') && AddedBelow(e, e', bound)
    requires keys[|seen|] in e' && e'[keys[|seen|]].score == s
    ensures Progress(e0, e', keys, bound, seen + [s])
  {
  }

  /** The answer of `minmax` for the node (b, depth, maximizing, player) searched in the window
      (alpha, beta), taking the cache from e0 to e: the answer is what the cache holds for the
      node's key; every old entry is kept and the others are keyed by boards with at most as
      many open walls; a node found in the cache changes nothing; a terminal node is scored by
      `evaluate` with no move; any other node is answered by the loop over its available moves,
      from the scores the cache holds for the children it explored. */
  ghost predicate Answered(e0: map<Key, BestMoves>, e: map<Key, BestMoves>, b: BoardState, depth: nat,
                           maximizing: bool, player: Player, alpha: int, beta: int, seen: seq<int>, r: BestMoves)
    requires Playable(b) && player != Player2
  {
    var key := KeyOf(b, depth, maximizing, player);
    && Grown(e0, e) && key in e && e[key] == r
    && AddedBelow(e0, e, UnclickedCount(b) + 1)
    && (key in e0 ==> e == e0)
    && (key !in e0 && Minimax.Terminal(b, depth) ==> r == BestMoves(Evaluate(b), []) && e == e0[key := r])
    && (key !in e0 && !Minimax.Terminal(b, depth) ==>
          SearchOutcome(e, b, depth, maximizing, player, alpha, beta, seen, r))
  }

  /** The answer of a node found in the cache. */
  lemma AnswerCached(e: map<Key, BestMoves>, b: BoardState, depth: nat, maximizing: bool, player: Player,
                     alpha: int, beta: int)
    requires Playable(b) && player != Player2 && KeyOf(b, depth, maximizing, player) in e
    ensures Answered(e, e, b, depth, maximizing, player, alpha, beta, [], e[KeyOf(b, depth, maximizing, player)])
  {
  }

  /** The answer of a terminal node missing from the cache. */
  lemma AnswerLeaf(e: map<Key, BestMoves>, b: BoardState, depth: nat, maximizing: bool, player: Player,
                   alpha: int, beta: int)
    requires Playable(b) && player != Player2 && KeyOf(b, depth, maximizing, player) !in e
    requires Minimax.Terminal(b, depth)
    ensures var r := BestMoves(Evaluate(b), []);
      Answered(e, e[KeyOf(b, depth, maximizing, player) := r], b, depth, maximizing, player, alpha, beta, [], r)
  {
    KeyOfOpenWalls(b, depth, maximizing, player);
  }

  /** The scores of the children survive an insertion under a new key. */
  lemma ScoredInsert(e: map<Key, BestMoves>, keys: seq<Key>, seen: seq<int>, key: Key, r: BestMoves)
    requires Scored(e, keys, seen) && key !in e
    ensures Scored(e[key := r], keys, seen)
  {
  }

  /** The answer of a searched node: its key is new in the cache when the loop ends, since
      every entry the loop added has fewer open walls. */
  lemma AnswerSearched(e0: map<Key, BestMoves>, e: map<Key, BestMoves>, b: BoardState, depth: nat, maximizing: bool,
                       player: Player, alpha: int, beta: int, seen: seq<int>, r: BestMoves)
    requires Playable(b) && player != Player2 && depth >= 1 && !AllClicked(b)
    requires KeyOf(b, depth, maximizing, player) !in e0
    requires Grown(e0, e) && AddedBelow(e0, e, UnclickedCount(b))
    requires SearchOutcome(e, b, depth, maximizing, player, alpha, beta, seen, r)
    ensures KeyOf(b, depth, maximizing, player) !in e
    ensures var ok := Answered(e0, e[KeyOf(b, depth, maximizing, player) := r], b, depth, maximizing, player,
                               alpha, beta, seen, r); ok
  {
    var key := KeyOf(b, depth, maximizing, player);
    KeyOfOpenWalls(b, depth, maximizing, player);
    var moves := AvailableMoves(b);
    ScoredInsert(e, ChildKeys(b, moves, depth, maximizing, player), seen, key, r);
    var e' := e[key := r];
    assert Grown(e0, e');
    assert AddedBelow(e0, e', UnclickedCount(b) + 1);
    assert key in e' && e'[key] == r;
    assert !Minimax.Terminal(b, depth);
    assert SearchOutcome(e', b, depth, maximizing, player, alpha, beta, seen, r);
  }

  // ---------------------------------------------------------------- the search

  /** `minmax`: the cache lookup, the leaf, then the loop over the available moves; the answer
      is stored under the node's key before it is returned. */
  method Minmax(board: Board, depth: nat, maximizing: bool, player: Player, alpha: int, beta: int, cache: Cache)
    returns (r: BestMoves, ghost seen: seq<int>)
    requires Playable(board.Value()) && player != Player2
    requires I32Min <= alpha <= I32Max && I32Min <= beta <= I32Max && cache.Valid()
    modifies cache
    ensures cache.Valid()
    ensures var ok := Answered(old(cache.entries), cache.entries, board.Value(), depth, maximizing, player,
                               alpha, beta, seen, r); ok
    decreases UnclickedCount(board.Value()), 4
  {
    ghost var b := board.Value();
    var key := KeyOf(board.Value(), depth, maximizing, player);
    if key in cache.entries {
      AnswerCached(cache.entries, b, depth, maximizing, player, alpha, beta);
      return cache.entries[key], [];
    }
    var all := board.AllIsClicked();
    if depth == 0 || all {
      r := BestMoves(Evaluate(board.Value()), []);
      AnswerLeaf(cache.entries, b, depth, maximizing, player, alpha, beta);
      cache.Insert(key, r);
      return r, [];
    }
    ghost var e0 := cache.entries;
    r, seen := SearchMoves(board, depth, maximizing, player, alpha, beta, cache);
    AnswerSearched(e0, cache.entries, b, depth, maximizing, player, alpha, beta, seen, r);
    cache.Insert(key, r);
  }

  /** The loop of `minmax` over the available moves of a node that is not terminal. */
  method SearchMoves(board: Board, depth: nat, maximizing: bool, player: Player, alpha: int, beta: int, cache: Cache)
    returns (r: BestMoves, ghost seen: seq<int>)
    requires Playable(board.Value()) && player != Player2 && depth >= 1 && !AllClicked(board.Value())
    requires I32Min <= alpha <= I32Max && I32Min <= beta <= I32Max && cache.Valid()
    modifies cache
    ensures cache.Valid() && Grown(old(cache.entries), cache.entries)
    ensures AddedBelow(old(cache.entries), cache.entries, UnclickedCount(board.Value()))
    ensures Sound(KeyOf(board.Value(), depth, maximizing, player), r)
    ensures SearchOutcome(cache.entries, board.Value(), depth, maximizing, player, alpha, beta, seen, r)
    decreases UnclickedCount(board.Value()), 3
  {
    ghost var b := board.Value();
    var moves := AvailableMoves(board.Value());
    ghost var keys := ChildKeys(b, moves, depth, maximizing, player);
    AvailableMovesNonEmpty(b);
    r, seen := SearchList(board, moves, keys, depth, maximizing, player, alpha, beta, cache);
    ListSound(b, moves, depth, maximizing, player, r);
  }

  /** An answer naming only moves of a list of open walls is sound for the node's key. */
  lemma ListSound(b: BoardState, moves: seq<(nat, nat)>, depth: nat, maximizing: bool, player: Player, r: BestMoves)
    requires AllOpen(b, moves) && I32Min <= r.score <= I32Max && forall x :: x in r.moves ==> x in moves
    ensures Sound(KeyOf(b, depth, maximizing, player), r)
  {
    KeyOfOpenWalls(b, depth, maximizing, player);
    forall n | 0 <= n < |r.moves|
      ensures IsUnclickedWall(b, r.moves[n])
    {
      assert r.moves[n] in moves;
    }
  }

  /** The `for` loop of `minmax` over a list of open walls whose child keys are `keys`. */
  method SearchList(board: Board, moves: seq<(nat, nat)>, ghost keys: seq<Key>, depth: nat, maximizing: bool,
                    player: Player, alpha0: int, beta0: int, cache: Cache)
    returns (r: BestMoves, ghost seen: seq<int>)
    requires Playable(board.Value()) && player != Player2 && depth >= 1 && AllOpen(board.Value(), moves)
    requires keys == ChildKeys(board.Value(), moves, depth, maximizing, player)
    requires I32Min <= alpha0 <= I32Max && I32Min <= beta0 <= I32Max && cache.Valid()
    modifies cache
    ensures cache.Valid()
    ensures var ok := Progress(old(cache.entries), cache.entries, keys, UnclickedCount(board.Value()), seen); ok
    ensures var ok := Outcome(moves, seen, maximizing, alpha0, beta0, r); ok
    ensures I32Min <= r.score <= I32Max && forall x :: x in r.moves ==> x in moves
    decreases UnclickedCount(board.Value()), 2
  {
    ghost var b := board.Value();
    ghost var e0 := cache.entries;
    var alpha, beta := alpha0, beta0;
    var bestScore := if maximizing then I32Min else I32Max;
    var bestMoves: seq<(nat, nat)> := [];
    seen := [];
    LoopStart(moves, maximizing, alpha0, beta0);
    var i := 0;
    while i < |moves|
      invariant board.Value() == b && i == |seen| <= |moves|
      invariant cache.Valid()
      invariant var ok := Progress(e0, cache.entries, keys, UnclickedCount(b), seen); ok
      invariant var ok := LoopInv(moves, seen, maximizing, alpha0, beta0, alpha, beta, bestScore, bestMoves); ok
    {
      ghost var e := cache.entries;
      var cur := SearchChild(board, b, moves, keys, i, depth, maximizing, player, alpha, beta, cache);
      ProgressStep(e0, e, cache.entries, keys, UnclickedCount(b), seen, cur.score);
      ScoresAreI32(cache, keys, seen, cur);
      var cut;
      alpha, beta, bestScore, bestMoves, cut :=
        Update(moves, i, maximizing, alpha0, beta0, seen, alpha, beta, bestScore, bestMoves, cur.score);
      seen := seen + [cur.score];
      if cut {
        break;
      }
      i := i + 1;
    }
    r := BestMoves(bestScore, bestMoves);
    if i == |moves| {
      LoopDone(moves, seen, maximizing, alpha0, beta0, alpha, beta, bestScore, bestMoves);
    }
    ScoresInRange(cache, keys, seen);
    OutcomeSound(moves, seen, maximizing, alpha0, beta0, r);
  }

  /** The scores the cache holds are `i32`. */
  lemma ScoresInRange(cache: Cache, keys: seq<Key>, seen: seq<int>)
    requires cache.Valid() && Scored(cache.entries, keys, seen)
    ensures forall k :: 0 <= k < |seen| ==> I32Min <= seen[k] <= I32Max
  {
    forall k | 0 <= k < |seen|
      ensures I32Min <= seen[k] <= I32Max
    {
      assert Sound(keys[k], cache.entries[keys[k]]);
    }
  }

  /** An answer found or put in the cache has an `i32` score. */
  lemma ScoresAreI32(cache: Cache, keys: seq<Key>, seen: seq<int>, cur: BestMoves)
    requires cache.Valid() && |seen| < |keys| && keys[|seen|] in cache.entries && cache.entries[keys[|seen|]] == cur
    ensures I32Min <= cur.score <= I32Max
  {
    assert Sound(keys[|seen|], cache.entries[keys[|seen|]]);
  }

  /** The updates of the loop body after the child `moves[i]` scored s, in the order of the
      source: a tie joins `best_moves`; a better score replaces the best score and the best
      moves and narrows the window, and `cut` is the `break` when the window closed. */
  method Update(moves: seq<(nat, nat)>, i: nat, maximizing: bool, ghost alpha0: int, ghost beta0: int, ghost seen: seq<int>,
                alpha: int, beta: int, bestScore: int, bestMoves: seq<(nat, nat)>, s: int)
    returns (alpha': int, beta': int, bestScore': int, bestMoves': seq<(nat, nat)>, cut: bool)
    requires i == |seen| < |moves|
    requires var ok := LoopInv(moves, seen, maximizing, alpha0, beta0, alpha, beta, bestScore, bestMoves); ok
    ensures !cut ==> LoopInv(moves, seen + [s], maximizing, alpha0, beta0, alpha', beta', bestScore', bestMoves')
    ensures cut ==> Outcome(moves, seen + [s], maximizing, alpha0, beta0, BestMoves(bestScore', bestMoves'))
    ensures maximizing ==> alpha' >= alpha && beta' == beta
    ensures !maximizing ==> beta' <= beta && alpha' == alpha
  {
    alpha', beta', bestScore', bestMoves', cut := alpha, beta, bestScore, bestMoves, false;
    var m := moves[i];
    if s == bestScore {
      bestMoves' := bestMoves' + [m];
    }
    if maximizing {
      if s > bestScore {
        LoopImprove(moves, seen, maximizing, alpha0, beta0, alpha, beta, bestScore, bestMoves, s, Minimax.Max(alpha, s), beta);
        bestScore' := Minimax.Max(bestScore, s);
        bestMoves' := [m];
        alpha' := Minimax.Max(alpha, bestScore');
        cut := beta' < alpha';
      } else {
        LoopKeep(moves, seen, maximizing, alpha0, beta0, alpha, beta, bestScore, bestMoves, s);
      }
    } else if s < bestScore {
      LoopImprove(moves, seen, maximizing, alpha0, beta0, alpha, beta, bestScore, bestMoves, s, alpha, Minimax.Min(beta, s));
      bestScore' := s;
      bestMoves' := [m];
      beta' := Minimax.Min(beta, bestScore');
      cut := beta' < alpha';
    } else {
      LoopKeep(moves, seen, maximizing, alpha0, beta0, alpha, beta, bestScore, bestMoves, s);
    }
  }

  /** One child of the loop: the clone, the click and the search below it. The answer is the
      one the cache now holds for the child's key. */
  method SearchChild(board: Board, ghost b: BoardState, moves: seq<(nat, nat)>, ghost keys: seq<Key>, i: nat, depth: nat,
                     maximizing: bool, player: Player, alpha: int, beta: int, cache: Cache)
    returns (cur: BestMoves)
    requires board.Value() == b && Playable(b) && player != Player2 && depth >= 1
    requires AllOpen(b, moves) && i < |moves| && keys == ChildKeys(b, moves, depth, maximizing, player)
    requires I32Min <= alpha <= I32Max && I32Min <= beta <= I32Max && cache.Valid()
    modifies cache
    ensures cache.Valid() && Grown(old(cache.entries), cache.entries)
    ensures AddedBelow(old(cache.entries), cache.entries, UnclickedCount(b))
    ensures keys[i] in cache.entries && cache.entries[keys[i]] == cur
    decreases UnclickedCount(b), 1
  {
    var child, additionalMove := PlayChild(board, b, moves, keys, i, depth, maximizing, player);
    cur := Continue(child, additionalMove, depth, maximizing, player, alpha, beta, cache);
  }

  /** The clone and the click of the i-th move: a new board with one open wall less, whose key
      with the parameters the click calls for is the i-th child key. */
  method PlayChild(board: Board, ghost b: BoardState, moves: seq<(nat, nat)>, ghost keys: seq<Key>, i: nat, depth: nat,
                   maximizing: bool, player: Player)
    returns (child: Board, additionalMove: bool)
    requires board.Value() == b && Playable(b) && player != Player2 && depth >= 1
    requires AllOpen(b, moves) && i < |moves| && keys == ChildKeys(b, moves, depth, maximizing, player)
    ensures fresh(child) && Playable(child.Value()) && UnclickedCount(child.Value()) < UnclickedCount(b)
    ensures keys[i] == KeyOf(child.Value(), if additionalMove then depth else depth - 1,
                             if additionalMove then maximizing else !maximizing,
                             if additionalMove then player else Opponent(player))
  {
    var m := moves[i];
    child, additionalMove := Minimax.Play(board, m, player);
    ChildKeyOf(b, m, depth, maximizing, player, child.Value(), additionalMove);
  }

  /** The recursive call after a click, with the parameters the click calls for. */
  method Continue(board: Board, additionalMove: bool, depth: nat, maximizing: bool, player: Player,
                  alpha: int, beta: int, cache: Cache)
    returns (cur: BestMoves)
    requires Playable(board.Value()) && player != Player2 && depth >= 1
    requires I32Min <= alpha <= I32Max && I32Min <= beta <= I32Max && cache.Valid()
    modifies cache
    ensures cache.Valid() && Grown(old(cache.entries), cache.entries)
    ensures AddedBelow(old(cache.entries), cache.entries, UnclickedCount(board.Value()) + 1)
    ensures var key := KeyOf(board.Value(), if additionalMove then depth else depth - 1,
                             if additionalMove then maximizing else !maximizing,
                             if additionalMove then player else Opponent(player));
      key in cache.entries && cache.entries[key] == cur
    decreases UnclickedCount(board.Value()), 5
  {
    ghost var seen;
    cur, seen := Minmax(board, if additionalMove then depth else depth - 1,
                        if additionalMove then maximizing else !maximizing,
                        if additionalMove then player else Opponent(player), alpha, beta, cache);
  }

  // ---------------------------------------------------------------- the player

  /** `MinmaxPlayer`. */
  datatype MinmaxPlayer = MinmaxPlayer(maxDepth: nat)

  /** What the root answer gives `next_move`: no move exactly on a terminal root, and only open
      walls. */
  lemma RootAnswer(e: map<Key, BestMoves>, b: BoardState, maxDepth: nat, seen: seq<int>, r: BestMoves)
    requires Playable(b) && forall k :: k in e ==> Sound(k, e[k])
    requires Answered(map[], e, b, maxDepth, true, CPU, I32Min, I32Max, seen, r)
    ensures r.moves == [] <==> Minimax.Terminal(b, maxDepth)
    ensures forall n :: 0 <= n < |r.moves| ==> IsUnclickedWall(b, r.moves[n])
  {
    SoundMoves(b, maxDepth, true, CPU, e[KeyOf(b, maxDepth, true, CPU)]);
    if !Minimax.Terminal(b, maxDepth) {
      RootSearched(e, b, maxDepth, seen, r);
    }
  }

  /** The moves of a sound answer are open walls of the keyed board. */
  lemma SoundMoves(b: BoardState, depth: nat, maximizing: bool, player: Player, r: BestMoves)
    requires Sound(KeyOf(b, depth, maximizing, player), r)
    ensures forall n :: 0 <= n < |r.moves| ==> IsUnclickedWall(b, r.moves[n])
  {
    KeyOfOpenWalls(b, depth, maximizing, player);
  }

  /** A root that is not terminal: the loop explored every available move (the full window
      never closes), and some move is tied for the root's score. */
  lemma RootSearched(e: map<Key, BestMoves>, b: BoardState, maxDepth: nat, seen: seq<int>, r: BestMoves)
    requires Playable(b) && maxDepth >= 1 && !AllClicked(b) && forall k :: k in e ==> Sound(k, e[k])
    requires SearchOutcome(e, b, maxDepth, true, CPU, I32Min, I32Max, seen, r)
    ensures r.moves != []
    ensures Outcome(AvailableMoves(b), seen, true, I32Min, I32Max, r) && |seen| == |AvailableMoves(b)|
  {
    var moves := AvailableMoves(b);
    var keys := ChildKeys(b, moves, maxDepth, true, CPU);
    assert Outcome(moves, seen, true, I32Min, I32Max, r) && Scored(e, keys, seen);
    forall k | 0 <= k < |seen|
      ensures I32Min <= seen[k] <= I32Max
    {
      assert Sound(keys[k], e[keys[k]]);
    }
    RootExploresAll(moves, seen, r);
    AvailableMovesNonEmpty(b);
    var k := BestAttained(true, seen, |seen|);
    TiedHas(moves, seen, r.score, k);
  }

  /** A board with an open wall has an available move. */
  lemma AvailableMovesNonEmpty(b: BoardState)
    requires Playable(b) && !AllClicked(b)
    ensures AvailableMoves(b) != []
  {
    var o := Greedy.OpenWallExists(b);
    AvailableMovesExact(b, o);
  }

  /** With the whole `i32` range as window a maximizing loop never stops early. */
  lemma RootExploresAll(moves: seq<(nat, nat)>, seen: seq<int>, r: BestMoves)
    requires Outcome(moves, seen, true, I32Min, I32Max, r)
    requires forall k :: 0 <= k < |seen| ==> I32Min <= seen[k] <= I32Max
    ensures |seen| == |moves|
  {
  }

  /** `next_move`: a fresh cache, the search from the root for the computer, maximizing, with
      the whole `i32` range as window, then `choose_wall_index` over the tied moves, drawing
      with `draw`. */
  method NextMove(p: MinmaxPlayer, board: Board, draw: nat) returns (m: Option<(nat, nat)>, ghost root: BestMoves, ghost seen: seq<int>)
    requires Playable(board.Value())
    ensures m.None? <==> Minimax.Terminal(board.Value(), p.maxDepth)
    ensures m.Some? ==> IsUnclickedWall(board.Value(), m.value) && m.value in root.moves
    ensures !Minimax.Terminal(board.Value(), p.maxDepth) ==>
              Outcome(AvailableMoves(board.Value()), seen, true, I32Min, I32Max, root) &&
              |seen| == |AvailableMoves(board.Value())|
  {
    ghost var b := board.Value();
    var cache := new Cache();
    var best;
    best, seen := Minmax(board, p.maxDepth, true, CPU, I32Min, I32Max, cache);
    root := best;
    RootAnswer(cache.entries, b, p.maxDepth, seen, best);
    if !Minimax.Terminal(b, p.maxDepth) {
      RootSearched(cache.entries, b, p.maxDepth, seen, best);
    }
    m := ChooseWallIndex(best.moves, _ => true, draw);
  }

  // ---------------------------------------------------------------- the hard difficulty

  /** The player `get_cpu_player` builds for `Difficulty::Hard`: `MinmaxPlayer::default()`,
      whose derived `Default` sets `max_depth` to `usize::default()`, zero. */
  function HardPlayerAsWritten(): MinmaxPlayer
  {
    MinmaxPlayer(0)
  }

  /** `MinmaxPlayer::new`: the depth is the constant `MAX_MINMAX_DEPTH`, whose value is given as
      a parameter here. */
  function NewPlayer(maxMinmaxDepth: nat): MinmaxPlayer
  {
    MinmaxPlayer(maxMinmaxDepth)
  }

  /** The hard computer as written: every root is terminal at depth zero, so it never names a
      move. */
  method HardMoveAsWritten(board: Board, draw: nat) returns (m: Option<(nat, nat)>)
    requires Playable(board.Value())
    ensures m == None
  {
    ghost var root, seen;
    m, root, seen := NextMove(HardPlayerAsWritten(), board, draw);
  }

  /** A fresh one-cell board is playable and has open walls: on it the hard computer as
      written returns no move although four walls are open. */
  lemma FreshBoardIsOpen()
    ensures Playable(NewBoard(1, 1)) && IsUnclickedWall(NewBoard(1, 1), (0, 0)) && !AllClicked(NewBoard(1, 1))
  {
    NewBoardConsistent(1, 1);
    var b := NewBoard(1, 1);
    assert |b.walls[0]| == WallsInRow(1, 0) && b.walls[0][0] == NewWall(1, 1, 0, 0);
  }

  /** The hard computer with the player of `MinmaxPlayer::new` at any depth of at least one:
      it names an open wall exactly when the game is not over. */
  method HardMove(board: Board, maxMinmaxDepth: nat, draw: nat) returns (m: Option<(nat, nat)>)
    requires Playable(board.Value()) && maxMinmaxDepth >= 1
    ensures m.None? <==> AllClicked(board.Value())
    ensures m.Some? ==> IsUnclickedWall(board.Value(), m.value)
  {
    ghost var root, seen;
    m, root, seen := NextMove(NewPlayer(maxMinmaxDepth), board, draw);
  }
}
