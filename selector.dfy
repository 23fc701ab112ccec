// The move selector of the tic-tac-toe engine: the static evaluation, the
// exhaustive minimax search that places and undoes trial marks on the one
// shared board, and the choice of the computer's move.

module Selector {
  import opened Board

  datatype Option<T> = None | Some(value: T)

  /** evaluate: +10 when the computer has a line, else -10 when the player has one, else 0. */
  function Evaluate(g: Grid): (score: int)
    ensures score == 10 <==> HasLine(g, AiMark)
    ensures score == -10 <==> !HasLine(g, AiMark) && HasLine(g, PlayerMark)
    ensures score == 0 <==> !HasLine(g, AiMark) && !HasLine(g, PlayerMark)
  {
    if CheckWin(g, AiMark) then 10
    else if CheckWin(g, PlayerMark) then -10
    else 0
  }

  /** The mark the side to move places: the computer maximizes, the player minimizes. */
  function MarkFor(maximizing: bool): Cell {
    if maximizing then AiMark else PlayerMark
  }

  /**
   * One step of the running extremum. `None` stands for the starting
   * -infinity (maximizing) or +infinity (minimizing), which max and min
   * simply replace by the first score.
   */
  function Improve(maximizing: bool, best: Option<int>, s: int): int {
    match best
    case None => s
    case Some(b) => if maximizing then (if b >= s then b else s) else (if b <= s then b else s)
  }

  /** a is at least as good as b for the side to move. */
  predicate AtLeastAsGood(maximizing: bool, a: int, b: int) {
    if maximizing then a >= b else a <= b
  }

  predicate AllValid(g: Grid, moves: seq<Move>) {
    forall i | 0 <= i < |moves| :: IsValidMove(g, moves[i].row, moves[i].col)
  }

  // ---------------------------------------------------------------------
  // The value the search computes

  /**
   * minimax on a grid value: a won position scores evaluate minus depth at a
   * maximizing node and evaluate plus depth at a minimizing node; a full
   * board without a winner scores 0; otherwise the extremum over the
   * available moves, in row-major order, of the value one ply deeper.
   */
  ghost function MinimaxValue(g: Grid, depth: nat, maximizing: bool): int
    decreases |AvailableMoves(g)|, 1, 0
  {
    var score := Evaluate(g);
    if score != 0 then
      (if maximizing then score - depth else score + depth)
    else if IsBoardFull(g) then
      0
    else
      FullIffNoMoves(g);
      Extremum(g, AvailableMoves(g), depth, maximizing, None).value
  }

  /** The value of playing m at a node of the search. */
  ghost function Child(g: Grid, m: Move, depth: nat, maximizing: bool): int
    requires IsValidMove(g, m.row, m.col)
    decreases |AvailableMoves(g)|, 0, 0
  {
    PlaceRemovesMove(g, m, MarkFor(maximizing));
    MinimaxValue(Place(g, m, MarkFor(maximizing)), depth + 1, !maximizing)
  }

  /** The running extremum over moves, starting from best. */
  ghost function Extremum(g: Grid, moves: seq<Move>, depth: nat, maximizing: bool, best: Option<int>)
    : (r: Option<int>)
    requires AllValid(g, moves)
    ensures r.None? <==> moves == [] && best.None?
    decreases |AvailableMoves(g)|, 0, |moves| + 1
  {
    if moves == [] then best
    else
      var s := Child(g, moves[0], depth, maximizing);
      Extremum(g, moves[1..], depth, maximizing, Some(Improve(maximizing, best, s)))
  }

  /** Improve keeps the better of the running best and the new score. */
  lemma ImproveIsBetter(maximizing: bool, best: Option<int>, s: int)
    ensures AtLeastAsGood(maximizing, Improve(maximizing, best, s), s)
    ensures best.Some? ==> AtLeastAsGood(maximizing, Improve(maximizing, best, s), best.value)
    ensures Improve(maximizing, best, s) == s || (best.Some? && Improve(maximizing, best, s) == best.value)
  {
  }

  /** The extremum is as good as every move and as the start. */
  lemma {:induction false} ExtremumIsBest(g: Grid, moves: seq<Move>, depth: nat, maximizing: bool,
                                          best: Option<int>)
    requires AllValid(g, moves)
    requires moves != [] || best.Some?
    ensures var r := Extremum(g, moves, depth, maximizing, best).value;
      && (forall i | 0 <= i < |moves| :: AtLeastAsGood(maximizing, r, Child(g, moves[i], depth, maximizing)))
      && (best.Some? ==> AtLeastAsGood(maximizing, r, best.value))
  {
    if moves != [] {
      var s := Child(g, moves[0], depth, maximizing);
      var next := Some(Improve(maximizing, best, s));
      ImproveIsBetter(maximizing, best, s);
      ExtremumIsBest(g, moves[1..], depth, maximizing, next);
      var r := Extremum(g, moves, depth, maximizing, best).value;
      assert r == Extremum(g, moves[1..], depth, maximizing, next).value;
      forall i | 1 <= i < |moves|
        ensures AtLeastAsGood(maximizing, r, Child(g, moves[i], depth, maximizing))
      {
        assert moves[i] == moves[1..][i - 1];
      }
    }
  }

  /** The extremum is the start or the value of one of the moves. */
  lemma {:induction false} ExtremumIsReached(g: Grid, moves: seq<Move>, depth: nat, maximizing: bool,
                                             best: Option<int>)
    requires AllValid(g, moves)
    requires moves != [] || best.Some?
    ensures var r := Extremum(g, moves, depth, maximizing, best).value;
      (best.Some? && r == best.value) || exists i | 0 <= i < |moves| :: r == Child(g, moves[i], depth, maximizing)
  {
    if moves != [] {
      var s := Child(g, moves[0], depth, maximizing);
      var next := Some(Improve(maximizing, best, s));
      ImproveIsBetter(maximizing, best, s);
      ExtremumIsReached(g, moves[1..], depth, maximizing, next);
      var r := Extremum(g, moves, depth, maximizing, best).value;
      assert r == Extremum(g, moves[1..], depth, maximizing, next).value;
      if r != next.value {
        var i :| 0 <= i < |moves[1..]| && r == Child(g, moves[1..][i], depth, maximizing);
        assert moves[1..][i] == moves[i + 1];
      } else if r == s {
        assert r == Child(g, moves[0], depth, maximizing);
      }
    }
  }

  /** A won position: the computer's win at a minimizing node scores 10 + depth. */
  lemma MinimaxWon(g: Grid, depth: nat, maximizing: bool)
    requires HasLine(g, AiMark) || HasLine(g, PlayerMark)
    ensures HasLine(g, AiMark) ==>
      MinimaxValue(g, depth, maximizing) == if maximizing then 10 - depth else 10 + depth
    ensures !HasLine(g, AiMark) ==>
      MinimaxValue(g, depth, maximizing) == if maximizing then -10 - depth else -10 + depth
  {
  }

  /** A full board with no line scores 0, at any depth and for either side. */
  lemma MinimaxDraw(g: Grid, depth: nat, maximizing: bool)
    requires !HasLine(g, AiMark) && !HasLine(g, PlayerMark)
    requires AvailableMoves(g) == []
    ensures MinimaxValue(g, depth, maximizing) == 0
  {
    FullIffNoMoves(g);
  }

  /**
   * In an undecided position with moves left, the value is the extremum of
   * the children: at least as good as every move, and reached by one.
   */
  lemma MinimaxOpenNode(g: Grid, depth: nat, maximizing: bool)
    requires !HasLine(g, AiMark) && !HasLine(g, PlayerMark)
    requires AvailableMoves(g) != []
    ensures forall m | m in AvailableMoves(g) ::
      AtLeastAsGood(maximizing, MinimaxValue(g, depth, maximizing), Child(g, m, depth, maximizing))
    ensures exists m | m in AvailableMoves(g) ::
      MinimaxValue(g, depth, maximizing) == Child(g, m, depth, maximizing)
  {
    FullIffNoMoves(g);
    var moves := AvailableMoves(g);
    ExtremumIsBest(g, moves, depth, maximizing, None);
    ExtremumIsReached(g, moves, depth, maximizing, None);
    var i :| 0 <= i < |moves| && MinimaxValue(g, depth, maximizing) == Child(g, moves[i], depth, maximizing);
    assert moves[i] in moves;
  }

  /**
   * Every value the search produces lies within 10 + depth + (moves left) of
   * zero, so the starting -infinity and +infinity of the running extremum
   * are never the answer once one move has been tried.
   */
  lemma {:induction false} MinimaxBounds(g: Grid, depth: nat, maximizing: bool)
    ensures -10 - depth - |AvailableMoves(g)| <= MinimaxValue(g, depth, maximizing)
    ensures MinimaxValue(g, depth, maximizing) <= 10 + depth + |AvailableMoves(g)|
    decreases |AvailableMoves(g)|, 1, 0
  {
    if Evaluate(g) == 0 && !IsBoardFull(g) {
      FullIffNoMoves(g);
      ExtremumBounds(g, AvailableMoves(g), depth, maximizing, None);
    }
  }

  lemma {:induction false} ExtremumBounds(g: Grid, moves: seq<Move>, depth: nat, maximizing: bool,
                                          best: Option<int>)
    requires AllValid(g, moves)
    requires best.Some? ==> -10 - depth - |AvailableMoves(g)| <= best.value <= 10 + depth + |AvailableMoves(g)|
    ensures var r := Extremum(g, moves, depth, maximizing, best);
      r.Some? ==> -10 - depth - |AvailableMoves(g)| <= r.value <= 10 + depth + |AvailableMoves(g)|
    decreases |AvailableMoves(g)|, 0, |moves|
  {
    if moves != [] {
      var m := moves[0];
      PlaceRemovesMove(g, m, MarkFor(maximizing));
      MinimaxBounds(Place(g, m, MarkFor(maximizing)), depth + 1, !maximizing);
      var s := Child(g, m, depth, maximizing);
      ExtremumBounds(g, moves[1..], depth, maximizing, Some(Improve(maximizing, best, s)));
    }
  }

  /** Trying moves[i] advances the running extremum by that move's value. */
  lemma ExtremumStep(g: Grid, moves: seq<Move>, i: int, depth: nat, maximizing: bool, best: Option<int>)
    requires AllValid(g, moves) && 0 <= i < |moves|
    ensures Extremum(g, moves[i..], depth, maximizing, best)
      == Extremum(g, moves[i + 1..], depth, maximizing,
                  Some(Improve(maximizing, best, Child(g, moves[i], depth, maximizing))))
  {
    assert moves[i..][0] == moves[i];
    assert moves[i..][1..] == moves[i + 1..];
  }

  // ---------------------------------------------------------------------
  // The search on the board in place

  /**
   * Writing mark on the empty cell m of a board whose snapshot was g, then
   * clearing it, gives back g; in between the snapshot is g with m placed,
   * which has one move fewer.
   */
  lemma TrialPlaced(board: array2<Cell>, g: Grid, m: Move, mark: Cell)
    requires IsBoard(board) && IsValidMove(g, m.row, m.col) && mark != EmptyCell
    requires board[m.row, m.col] == mark
    requires forall r, c | 0 <= r < BoardSize && 0 <= c < BoardSize && (r != m.row || c != m.col) ::
      board[r, c] == g[r][c]
    ensures Snapshot(board) == Place(g, m, mark)
    ensures |AvailableMoves(Snapshot(board))| < |AvailableMoves(g)|
  {
    SnapshotAfterWrite(board, g, m, mark);
    PlaceRemovesMove(g, m, mark);
  }

  lemma TrialUndone(board: array2<Cell>, g: Grid, m: Move)
    requires IsBoard(board) && IsValidMove(g, m.row, m.col)
    requires board[m.row, m.col] == EmptyCell
    requires forall r, c | 0 <= r < BoardSize && 0 <= c < BoardSize && (r != m.row || c != m.col) ::
      board[r, c] == g[r][c]
    ensures Snapshot(board) == g
  {
    GridsEqual(Snapshot(board), g);
  }

  /**
   * `board[r][c] = mark`, the recursive minimax call, then `board[r][c] =
   * EMPTY_CELL`: the value of the position with m taken, and the board as
   * it was.
   */
  method Trial(board: array2<Cell>, m: Move, mark: Cell, depth: nat, maximizing: bool) returns (s: int)
    requires IsBoard(board) && IsValidMove(Snapshot(board), m.row, m.col) && mark != EmptyCell
    modifies board
    ensures Snapshot(board) == old(Snapshot(board))
    ensures s == MinimaxValue(Place(old(Snapshot(board)), m, mark), depth, maximizing)
    decreases |AvailableMoves(Snapshot(board))|, 0
  {
    ghost var g := Snapshot(board);
    board[m.row, m.col] := mark;
    TrialPlaced(board, g, m, mark);
    s := Minimax(board, depth, maximizing);
    board[m.row, m.col] := EmptyCell;
    TrialUndone(board, g, m);
  }

  /**
   * minimax: returns the value of the position for the given side and
   * depth, trying every available move on the board itself and clearing it
   * again, so that the board is as it was on entry.
   */
  method Minimax(board: array2<Cell>, depth: nat, maximizing: bool) returns (best: int)
    requires IsBoard(board)
    modifies board
    ensures Snapshot(board) == old(Snapshot(board))
    ensures best == MinimaxValue(old(Snapshot(board)), depth, maximizing)
    decreases |AvailableMoves(Snapshot(board))|, 1
  {
    ghost var g := Snapshot(board);
    var score := Evaluate(Snapshot(board));
    if score != 0 {
      return if maximizing then score - depth else score + depth;
    }
    if IsBoardFull(Snapshot(board)) {
      return 0;
    }
    FullIffNoMoves(g);
    var moves := GetAvailableMoves(board);
    var running: Option<int> := None;
    if maximizing {
      for i := 0 to |moves|
        invariant Snapshot(board) == g
        invariant Extremum(g, moves[i..], depth, true, running) == Extremum(g, moves, depth, true, None)
      {
        var s := Trial(board, moves[i], AiMark, depth + 1, false);
        ExtremumStep(g, moves, i, depth, true, running);
        running := Some(Improve(true, running, s));
      }
    } else {
      for i := 0 to |moves|
        invariant Snapshot(board) == g
        invariant Extremum(g, moves[i..], depth, false, running) == Extremum(g, moves, depth, false, None)
      {
        var s := Trial(board, moves[i], PlayerMark, depth + 1, true);
        ExtremumStep(g, moves, i, depth, false, running);
        running := Some(Improve(false, running, s));
      }
    }
    best := running.value;
  }

  // ---------------------------------------------------------------------
  // Choosing the computer's move

  /**
   * perm reorders n items: it has n entries, each below n, no index twice,
   * and every index below n occurs in it (so it is a bijection). This
   * stands for whatever order random.shuffle produced.
   */
  predicate IsPermutation(perm: seq<nat>, n: nat) {
    && |perm| == n
    && (forall i | 0 <= i < n :: perm[i] < n)
    && (forall i, j | 0 <= i < j < n :: perm[i] != perm[j])
    && (forall k | 0 <= k < n :: k in perm)
  }

  /** The moves in the order perm gives them. */
  function Shuffle(moves: seq<Move>, perm: seq<nat>): (order: seq<Move>)
    requires IsPermutation(perm, |moves|)
    ensures |order| == |moves|
    ensures forall i | 0 <= i < |order| :: order[i] == moves[perm[i]]
  {
    seq(|perm|, i requires 0 <= i < |perm| => moves[perm[i]])
  }

  /** Dropping the entry that holds the largest index leaves a permutation of the rest. */
  lemma DropLargest(perm: seq<nat>, n: nat, k: nat)
    requires n > 0 && IsPermutation(perm, n) && k < n && perm[k] == n - 1
    ensures IsPermutation(perm[..k] + perm[k + 1..], n - 1)
  {
    var rest := perm[..k] + perm[k + 1..];
    assert forall i | 0 <= i < n - 1 :: rest[i] == if i < k then perm[i] else perm[i + 1];
    forall j | 0 <= j < n - 1
      ensures j in rest
    {
      assert j in perm;
      var i :| 0 <= i < n && perm[i] == j;
      if i < k {
        assert rest[i] == j;
      } else {
        assert rest[i - 1] == j;
      }
    }
  }

  /** Shuffling with that entry dropped yields the shuffle less its last move. */
  lemma ShuffleDropLargest(moves: seq<Move>, perm: seq<nat>, k: nat)
    requires |moves| > 0 && IsPermutation(perm, |moves|) && k < |moves| && perm[k] == |moves| - 1
    ensures IsPermutation(perm[..k] + perm[k + 1..], |moves| - 1)
    ensures multiset(Shuffle(moves, perm))
      == multiset(Shuffle(moves[..|moves| - 1], perm[..k] + perm[k + 1..])) + multiset{moves[|moves| - 1]}
  {
    var n := |moves|;
    var order := Shuffle(moves, perm);
    DropLargest(perm, n, k);
    var shorter := Shuffle(moves[..n - 1], perm[..k] + perm[k + 1..]);
    assert shorter == order[..k] + order[k + 1..];
    assert order == order[..k] + [moves[n - 1]] + order[k + 1..];
  }

  /** By induction on the moves, a shuffle keeps every move's multiplicity. */
  lemma {:induction false} ShufflePermutes(moves: seq<Move>, perm: seq<nat>)
    requires IsPermutation(perm, |moves|)
    ensures multiset(Shuffle(moves, perm)) == multiset(moves)
    decreases |moves|
  {
    var n := |moves|;
    if n > 0 {
      assert n - 1 in perm;
      var k :| 0 <= k < n && perm[k] == n - 1;
      ShuffleDropLargest(moves, perm, k);
      ShufflePermutes(moves[..n - 1], perm[..k] + perm[k + 1..]);
      assert moves == moves[..n - 1] + [moves[n - 1]];
    }
  }

  /** A shuffle holds exactly the moves it was given. */
  lemma ShuffleSameMoves(moves: seq<Move>, perm: seq<nat>)
    requires IsPermutation(perm, |moves|)
    ensures multiset(Shuffle(moves, perm)) == multiset(moves)
    ensures forall m :: m in Shuffle(moves, perm) <==> m in moves
  {
    ShufflePermutes(moves, perm);
    var order := Shuffle(moves, perm);
    forall m | m in moves
      ensures m in order
    {
      var k :| 0 <= k < |moves| && moves[k] == m;
      assert k in perm;
      var i :| 0 <= i < |perm| && perm[i] == k;
      assert order[i] == m;
    }
  }

  /** The score find_best_move gives move m: minimax after the computer takes it. */
  ghost function MoveScore(g: Grid, m: Move): int
    requires InRange(m)
  {
    MinimaxValue(Place(g, m, AiMark), 0, false)
  }

  /** A move with the score find_best_move saw for it. */
  datatype Scored = Scored(move: Move, score: int)

  predicate AllInRange(order: seq<Move>) {
    forall i | 0 <= i < |order| :: InRange(order[i])
  }

  /** The score of each move of the order, in that order. */
  ghost function Scores(g: Grid, order: seq<Move>): (scores: seq<int>)
    requires AllInRange(order)
    ensures |scores| == |order|
    ensures forall i | 0 <= i < |order| :: scores[i] == MoveScore(g, order[i])
  {
    seq(|order|, i requires 0 <= i < |order| => MoveScore(g, order[i]))
  }

  /**
   * find_best_move's loop from position i on, given each move's score: a move
   * replaces the best so far only when its score is strictly greater.
   * `None` is the starting pair (-infinity, None).
   */
  function Pick(order: seq<Move>, scores: seq<int>, i: nat, best: Option<Scored>): Option<Scored>
    requires |scores| == |order| && i <= |order|
    decreases |order| - i
  {
    if i == |order| then best
    else
      Pick(order, scores, i + 1,
           if best.None? || scores[i] > best.value.score then Some(Scored(order[i], scores[i])) else best)
  }

  /** The move find_best_move returns when it tries the moves in this order. */
  ghost function BestMove(g: Grid, order: seq<Move>): (r: Option<Move>)
    requires AllInRange(order)
    ensures r.Some? ==> r.value in order
  {
    PickKeepsChoice(order, Scores(g, order), 0, None);
    match Pick(order, Scores(g, order), 0, None)
    case None => None
    case Some(b) => Some(b.move)
  }

  /**
   * Position k holds the first of the highest scores among the first n: no
   * score before it is as high, and none among the first n is higher.
   */
  predicate FirstBest(scores: seq<int>, n: nat, k: int)
    requires n <= |scores|
  {
    && 0 <= k < n
    && (forall j | 0 <= j < k :: scores[j] < scores[k])
    && (forall j | 0 <= j < n :: scores[j] <= scores[k])
  }

  /** What find_best_move's running pair means after the first i moves. */
  ghost predicate ChoiceSoFar(order: seq<Move>, scores: seq<int>, i: nat, best: Option<Scored>)
    requires |scores| == |order| && i <= |order|
  {
    && (best.None? <==> i == 0)
    && (best.Some? ==> exists k :: FirstBest(scores, i, k) && best.value == Scored(order[k], scores[k]))
  }

  /** One iteration of find_best_move's loop keeps the meaning of the running pair. */
  lemma ChoiceStep(order: seq<Move>, scores: seq<int>, i: nat, best: Option<Scored>)
    requires |scores| == |order| && i < |order|
    requires ChoiceSoFar(order, scores, i, best)
    ensures ChoiceSoFar(order, scores, i + 1,
      if best.None? || scores[i] > best.value.score then Some(Scored(order[i], scores[i])) else best)
  {
    if best.None? {
      assert FirstBest(scores, i + 1, i);
    } else {
      var k :| FirstBest(scores, i, k) && best.value == Scored(order[k], scores[k]);
      if scores[i] > best.value.score {
        assert FirstBest(scores, i + 1, i);
      } else {
        assert FirstBest(scores, i + 1, k);
      }
    }
  }

  lemma {:induction false} PickKeepsChoice(order: seq<Move>, scores: seq<int>, i: nat, best: Option<Scored>)
    requires |scores| == |order| && i <= |order|
    requires ChoiceSoFar(order, scores, i, best)
    ensures ChoiceSoFar(order, scores, |order|, Pick(order, scores, i, best))
    decreases |order| - i
  {
    if i < |order| {
      ChoiceStep(order, scores, i, best);
      PickKeepsChoice(order, scores, i + 1,
        if best.None? || scores[i] > best.value.score then Some(Scored(order[i], scores[i])) else best);
    }
  }

  /**
   * find_best_move returns None exactly when there is no move to try, and
   * otherwise the first move of the order among those with the highest score.
   */
  lemma BestMoveIsFirstBest(g: Grid, order: seq<Move>)
    requires AllInRange(order)
    ensures BestMove(g, order).None? <==> order == []
    ensures BestMove(g, order).Some? ==>
      exists k :: FirstBest(Scores(g, order), |order|, k) && order[k] == BestMove(g, order).value
  {
    PickKeepsChoice(order, Scores(g, order), 0, None);
  }

  /**
   * For a shuffle of the available moves: None exactly when the board has
   * no empty cell; otherwise a valid move whose score is at least that of
   * every available move, and the first such in the shuffled order.
   */
  lemma FindBestMoveChoice(g: Grid, perm: seq<nat>)
    requires IsPermutation(perm, |AvailableMoves(g)|)
    ensures var order := Shuffle(AvailableMoves(g), perm);
      && AllInRange(order)
      && (BestMove(g, order).None? <==> AvailableMoves(g) == [])
      && (BestMove(g, order).None? <==> IsBoardFull(g))
      && (BestMove(g, order).Some? ==>
            var m := BestMove(g, order).value;
            && IsValidMove(g, m.row, m.col)
            && (forall a | a in AvailableMoves(g) :: MoveScore(g, a) <= MoveScore(g, m))
            && (exists k | 0 <= k < |order| :: order[k] == m
                  && forall j | 0 <= j < k :: MoveScore(g, order[j]) < MoveScore(g, m)))
  {
    var moves := AvailableMoves(g);
    var order := Shuffle(moves, perm);
    assert AllInRange(order);
    FullIffNoMoves(g);
    BestMoveIsFirstBest(g, order);
    ShuffleSameMoves(moves, perm);
    if BestMove(g, order).Some? {
      var m := BestMove(g, order).value;
      var k :| FirstBest(Scores(g, order), |order|, k) && order[k] == m;
      assert m in moves;
      forall a | a in moves
        ensures MoveScore(g, a) <= MoveScore(g, m)
      {
        assert a in order;
        var j :| 0 <= j < |order| && order[j] == a;
        assert Scores(g, order)[j] <= Scores(g, order)[k];
      }
      assert forall j | 0 <= j < k :: MoveScore(g, order[j]) < MoveScore(g, m) by {
        forall j | 0 <= j < k ensures MoveScore(g, order[j]) < MoveScore(g, m) {
          assert Scores(g, order)[j] < Scores(g, order)[k];
        }
      }
    }
  }

  /**
   * find_best_move: tries every available move, in the shuffled order, for
   * the computer; scores it with minimax at depth 0 for the player to move;
   * keeps the first move of the highest score. The board ends as it began.
   */
  method FindBestMove(board: array2<Cell>, perm: seq<nat>) returns (bestMove: Option<Move>)
    requires IsBoard(board)
    requires IsPermutation(perm, |AvailableMoves(Snapshot(board))|)
    modifies board
    ensures Snapshot(board) == old(Snapshot(board))
    ensures bestMove == BestMove(old(Snapshot(board)), Shuffle(AvailableMoves(old(Snapshot(board))), perm))
  {
    ghost var g := Snapshot(board);
    var moves := GetAvailableMoves(board);
    ShuffleSameMoves(moves, perm);
    moves := Shuffle(moves, perm);
    ghost var scores := Scores(g, moves);
    var best: Option<Scored> := None;
    for i := 0 to |moves|
      invariant Snapshot(board) == g
      invariant Pick(moves, scores, i, best) == Pick(moves, scores, 0, None)
    {
      assert moves[i] in moves;
      var score := Trial(board, moves[i], AiMark, 0, false);
      assert score == scores[i];
      if best.None? || score > best.value.score {
        best := Some(Scored(moves[i], score));
      }
    }
    bestMove := if best.None? then None else Some(best.value.move);
  }

  // ---------------------------------------------------------------------
  // How the depth adjustment ranks wins

  /** A move that completes a computer line scores exactly 10: minimax sees the win at depth 0. */
  lemma ImmediateWinScoresTen(g: Grid, m: Move)
    requires InRange(m) && HasLine(Place(g, m, AiMark), AiMark)
    ensures MoveScore(g, m) == 10
  {
    MinimaxWon(Place(g, m, AiMark), 0, false);
  }

  /** A player's mark cannot complete a line of computer marks. */
  lemma PlayerMoveMakesNoAiLine(h: Grid, p: Move)
    requires InRange(p) && !HasLine(h, AiMark)
    ensures !HasLine(Place(h, p, PlayerMark), AiMark)
  {
  }

  /**
   * At a maximizing node where the computer can complete a line, the value
   * is at least 10 + depth + 1: that child is a won minimizing node.
   */
  lemma AiWinAvailableScoresAtLeast(h: Grid, depth: nat)
    requires !HasLine(h, AiMark) && !HasLine(h, PlayerMark)
    requires exists q | q in AvailableMoves(h) :: HasLine(Place(h, q, AiMark), AiMark)
    ensures MinimaxValue(h, depth, true) >= 10 + depth + 1
  {
    var q :| q in AvailableMoves(h) && HasLine(Place(h, q, AiMark), AiMark);
    MinimaxOpenNode(h, depth, true);
    assert AtLeastAsGood(true, MinimaxValue(h, depth, true), Child(h, q, depth, true));
    MinimaxWon(Place(h, q, AiMark), depth + 1, false);
  }

  /**
   * A move after which the computer wins on its next turn whatever the
   * player replies (and the player cannot win with that reply) scores at
   * least 12: that win is found at depth 2 of a minimizing node, 10 + 2.
   */
  lemma WinTwoPliesLaterScoresTwelve(g: Grid, m: Move)
    requires IsValidMove(g, m.row, m.col)
    requires var h := Place(g, m, AiMark);
      && !HasLine(h, AiMark) && !HasLine(h, PlayerMark) && AvailableMoves(h) != []
      && forall p | p in AvailableMoves(h) ::
           && !HasLine(Place(h, p, PlayerMark), PlayerMark)
           && exists q | q in AvailableMoves(Place(h, p, PlayerMark)) ::
                HasLine(Place(Place(h, p, PlayerMark), q, AiMark), AiMark)
    ensures MoveScore(g, m) >= 12
  {
    var h := Place(g, m, AiMark);
    MinimaxOpenNode(h, 0, false);
    var p :| p in AvailableMoves(h) && MinimaxValue(h, 0, false) == Child(h, p, 0, false);
    PlayerMoveMakesNoAiLine(h, p);
    AiWinAvailableScoresAtLeast(Place(h, p, PlayerMark), 1);
  }

  /**
   * As written, the depth adjustment ranks a slower forced win above an
   * immediate one: when both kinds of move are available, find_best_move
   * never returns the immediate win, whatever the shuffle.
   */
  lemma SlowerWinOutranksImmediateWin(g: Grid, perm: seq<nat>, now: Move, later: Move)
    requires IsPermutation(perm, |AvailableMoves(g)|)
    requires IsValidMove(g, now.row, now.col) && HasLine(Place(g, now, AiMark), AiMark)
    requires IsValidMove(g, later.row, later.col)
    requires var h := Place(g, later, AiMark);
      && !HasLine(h, AiMark) && !HasLine(h, PlayerMark) && AvailableMoves(h) != []
      && forall p | p in AvailableMoves(h) ::
           && !HasLine(Place(h, p, PlayerMark), PlayerMark)
           && exists q | q in AvailableMoves(Place(h, p, PlayerMark)) ::
                HasLine(Place(Place(h, p, PlayerMark), q, AiMark), AiMark)
    ensures MoveScore(g, later) > MoveScore(g, now)
    ensures BestMove(g, Shuffle(AvailableMoves(g), perm)) != Some(now)
  {
    ImmediateWinScoresTen(g, now);
    WinTwoPliesLaterScoresTwelve(g, later);
    FindBestMoveChoice(g, perm);
    AvailableMovesExact(g);
    assert later in AvailableMoves(g);
  }

  /** The shuffle only breaks ties: every order yields a move of the same score. */
  lemma ShuffleOnlyBreaksTies(g: Grid, perm1: seq<nat>, perm2: seq<nat>)
    requires IsPermutation(perm1, |AvailableMoves(g)|) && IsPermutation(perm2, |AvailableMoves(g)|)
    requires AvailableMoves(g) != []
    ensures var order1, order2 := Shuffle(AvailableMoves(g), perm1), Shuffle(AvailableMoves(g), perm2);
      && AllInRange(order1) && AllInRange(order2)
      && BestMove(g, order1).Some? && BestMove(g, order2).Some?
      && MoveScore(g, BestMove(g, order1).value) == MoveScore(g, BestMove(g, order2).value)
  {
    FindBestMoveChoice(g, perm1);
    FindBestMoveChoice(g, perm2);
    AvailableMovesExact(g);
    var m1 := BestMove(g, Shuffle(AvailableMoves(g), perm1)).value;
    var m2 := BestMove(g, Shuffle(AvailableMoves(g), perm2)).value;
    assert m1 in AvailableMoves(g) && m2 in AvailableMoves(g);
  }
}
