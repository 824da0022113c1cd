/** The optional value used wherever the source uses `null`, and the first-match scan. */
module Wrappers {
  datatype Option<+T> = None | Some(value: T)

  /** The index of the first element from `i` on that passes `p`. */
  function FirstFrom<T>(s: seq<T>, p: T -> bool, i: nat): (r: Option<nat>)
    requires i <= |s|
    decreases |s| - i
    ensures r.Some? ==> i <= r.value < |s| && p(s[r.value]) && forall j :: i <= j < r.value ==> !p(s[j])
    ensures r.None? ==> forall j :: i <= j < |s| ==> !p(s[j])
  {
    if i == |s| then None
    else if p(s[i]) then Some(i)
    else FirstFrom(s, p, i + 1)
  }

  /** The index of the first element of `s` that passes `p`, if any. */
  function First<T>(s: seq<T>, p: T -> bool): (r: Option<nat>)
    ensures r.Some? ==> r.value < |s| && p(s[r.value]) && forall j :: 0 <= j < r.value ==> !p(s[j])
    ensures r.None? <==> forall x :: x in s ==> !p(x)
  {
    var r := FirstFrom(s, p, 0);
    assert r.Some? ==> s[r.value] in s;
    r
  }
}

/**
 * The board model and the move rules of Ultimate Tic-Tac-Toe, as pure
 * definitions over values.  `makeMove`, `checkSmallBoardWinner` and
 * `isBoardFull` have identical bodies in `public/local-game.js` and
 * `server.js`; both copies of `makeMove` are modelled by the one engine in
 * module Engine, which is proved to compute `Play` below.  The meta-board
 * winner is the same scan over `boardWinners` in both files;
 * `findWinningCombination` exists on the local page only.
 */
module Rules {
  import opened Wrappers

  /** A player's symbol: 'X' for player 0, 'O' for player 1. */
  datatype Mark = X | O

  /** One cell of a sub-board, or one entry of `boardWinners`: `null`, 'X' or 'O'. */
  datatype Cell = Empty | Filled(mark: Mark)

  /** A winning pattern: three cell indices of a 3x3 grid. */
  datatype Line = Line(a: nat, b: nat, c: nat)

  /** A move: the sub-board to play in and the cell within it. */
  datatype Move = Move(boardIndex: nat, cellIndex: nat)

  /** The game's result: `null`, 'X', 'O' or 'tie'. */
  datatype Winner = Undecided | WonBy(mark: Mark) | Tie

  /** The eight patterns, in the order the source scans them: rows, columns, diagonals. */
  const LINES: seq<Line> := [
    Line(0, 1, 2), Line(3, 4, 5), Line(6, 7, 8),
    Line(0, 3, 6), Line(1, 4, 7), Line(2, 5, 8),
    Line(0, 4, 8), Line(2, 4, 6)
  ]

  function MarkOf(player: nat): (m: Mark) {
    if player == 0 then X else O
  }

  /** Pattern `l` holds three cells marked `m`. */
  predicate Holds(s: seq<Cell>, l: Line, m: Mark) {
    l.a < |s| && l.b < |s| && l.c < |s| &&
    s[l.a] == Filled(m) && s[l.b] == Filled(m) && s[l.c] == Filled(m)
  }

  /** Some pattern holds three cells marked `m`. */
  ghost predicate HasLine(s: seq<Cell>, m: Mark) {
    exists j :: 0 <= j < |LINES| && Holds(s, LINES[j], m)
  }

  /** The source's test on one pattern: `board[a] && board[a] === board[b] && board[a] === board[c]`. */
  predicate Complete(s: seq<Cell>, l: Line) {
    l.a < |s| && l.b < |s| && l.c < |s| &&
    s[l.a].Filled? && s[l.a] == s[l.b] && s[l.a] == s[l.c]
  }

  /** The scan of `checkSmallBoardWinner` from pattern `k` on. */
  function WinnerFrom(s: seq<Cell>, k: nat): (r: Cell)
    requires k <= |LINES|
    decreases |LINES| - k
    ensures r.Filled? ==>
      exists j :: k <= j < |LINES| && Holds(s, LINES[j], r.mark) &&
                  forall i :: k <= i < j ==> !Complete(s, LINES[i])
    ensures r.Empty? ==> forall j, m :: k <= j < |LINES| ==> !Holds(s, LINES[j], m)
  {
    if k == |LINES| then Empty
    else if Complete(s, LINES[k]) then s[LINES[k].a]
    else WinnerFrom(s, k + 1)
  }

  /**
   * `checkSmallBoardWinner`: the mark of the first complete pattern, if any.
   * Also used on `boardWinners` as the meta-board winner (`checkOverallWinner`).
   */
  function SmallBoardWinner(s: seq<Cell>): (r: Cell)
    ensures r.Filled? ==> HasLine(s, r.mark)
    ensures r.Filled? ==>
      exists j :: 0 <= j < |LINES| && Holds(s, LINES[j], r.mark) &&
                  forall i :: 0 <= i < j ==> !Complete(s, LINES[i])
    ensures r.Empty? <==> forall m :: !HasLine(s, m)
  {
    var r := WinnerFrom(s, 0);
    assert r.Filled? ==> HasLine(s, r.mark);
    r
  }

  /** `isBoardFull`: every entry is non-null. Also the source's "all boards won" test. */
  predicate IsFull(s: seq<Cell>): (r: bool)
    ensures r <==> Empty !in s
  {
    forall i :: 0 <= i < |s| ==> s[i].Filled?
  }

  /** The scan of `findWinningCombination` from pattern `k` on. */
  function CombinationFrom(s: seq<Cell>, m: Mark, k: nat): (r: Option<Line>)
    requires k <= |LINES|
    decreases |LINES| - k
    ensures r.Some? ==> r.value in LINES[k..] && Holds(s, r.value, m)
    ensures r.None? <==> forall j :: k <= j < |LINES| ==> !Holds(s, LINES[j], m)
  {
    if k == |LINES| then None
    else if Holds(s, LINES[k], m) then Some(LINES[k])
    else CombinationFrom(s, m, k + 1)
  }

  /** `findWinningCombination`: the first pattern whose three entries all equal `m`. */
  function FindWinningCombination(s: seq<Cell>, m: Mark): (r: Option<Line>)
    ensures r.Some? ==> r.value in LINES && Holds(s, r.value, m)
    ensures r.None? <==> !HasLine(s, m)
  {
    CombinationFrom(s, m, 0)
  }

  /** The combination reported with a meta-board winner is a pattern of three entries equal to it. */
  lemma WinningCombinationMatches(bw: seq<Cell>)
    requires SmallBoardWinner(bw).Filled?
    ensures var w := SmallBoardWinner(bw).mark;
            FindWinningCombination(bw, w).Some? &&
            Holds(bw, FindWinningCombination(bw, w).value, w)
  {
  }

  /** The part of the game state that the move rules read and write. */
  datatype Position = Position(
    board: seq<seq<Cell>>,
    boardWinners: seq<Cell>,
    currentPlayer: nat,
    nextBoard: Option<nat>)

  /** The shapes the source's state always has: a 9x9 grid, 9 winners, player 0 or 1. */
  predicate WellFormed(p: Position) {
    |p.board| == 9 && (forall i :: 0 <= i < 9 ==> |p.board[i]| == 9) &&
    |p.boardWinners| == 9 && p.currentPlayer <= 1 &&
    (p.nextBoard.Some? ==> p.nextBoard.value < 9)
  }

  /** Sub-board `k` is neither won nor full. */
  predicate Open(p: Position, k: nat)
    requires WellFormed(p) && k < 9
  {
    p.boardWinners[k] == Empty && !IsFull(p.board[k])
  }

  /** The winner cached for sub-board `i` is the winner of its cells. */
  ghost predicate Cached(p: Position, i: nat)
    requires WellFormed(p) && i < 9
  {
    p.boardWinners[i] == SmallBoardWinner(p.board[i])
  }

  /**
   * What every reachable state satisfies: each cached sub-board winner is the
   * winner of that sub-board's cells, and the mandatory sub-board is open.
   */
  ghost predicate Invariant(p: Position) {
    WellFormed(p) &&
    (forall i :: 0 <= i < 9 ==> Cached(p, i)) &&
    (p.nextBoard.Some? ==> Open(p, p.nextBoard.value))
  }

  /** A fresh game: all cells null, no sub-board winners, player 0 to move, free choice. */
  function Initial(): (p: Position) {
    Position(seq(9, _ => seq(9, _ => Empty)), seq(9, _ => Empty), 0, None)
  }

  lemma InitialInvariant()
    ensures Invariant(Initial())
    ensures SmallBoardWinner(Initial().boardWinners) == Empty
  {
    var p := Initial();
    assert forall k :: 0 <= k < |p.boardWinners| ==> p.boardWinners[k] == Empty;
    assert forall m :: !HasLine(p.boardWinners, m);
    forall i | 0 <= i < 9
      ensures p.boardWinners[i] == SmallBoardWinner(p.board[i])
    {
      var s := p.board[i];
      assert forall k :: 0 <= k < |s| ==> s[k] == Empty;
      assert forall m :: !HasLine(s, m);
    }
  }

  /**
   * The three checks of `makeMove`, in the source's order: the mandatory
   * sub-board, then the cell, then the sub-board's winner.  A won sub-board
   * never accepts a move, whatever `nextBoard` says.
   */
  predicate Legal(p: Position, b: nat, c: nat): (r: bool)
    requires WellFormed(p) && b < 9 && c < 9
    ensures r ==> Open(p, b)
    ensures r ==> p.nextBoard.None? || p.nextBoard == Some(b)
  {
    (p.nextBoard.None? || p.nextBoard.value == b) &&
    p.board[b][c] == Empty &&
    p.boardWinners[b] == Empty
  }

  /** The effect of an accepted `makeMove`: write the mark, cache a sub-board win, route the next move. */
  function Play(p: Position, b: nat, c: nat): (r: Position)
    requires WellFormed(p) && b < 9 && c < 9
    ensures WellFormed(r)
    ensures r.board[b][c] == Filled(MarkOf(p.currentPlayer)) && r.currentPlayer == p.currentPlayer
    ensures r.nextBoard == None || r.nextBoard == Some(c)
  {
    var m := MarkOf(p.currentPlayer);
    var sub := p.board[b][c := Filled(m)];
    var board := p.board[b := sub];
    var winners := if SmallBoardWinner(sub) != Empty then p.boardWinners[b := Filled(m)] else p.boardWinners;
    var next := if winners[c] != Empty || IsFull(board[c]) then None else Some(c);
    Position(board, winners, p.currentPlayer, next)
  }

  /** `currentPlayer = 1 - currentPlayer`. */
  function Flip(p: Position): (r: Position)
    requires p.currentPlayer <= 1
    ensures r.currentPlayer != p.currentPlayer && r.currentPlayer <= 1
    ensures r.board == p.board && r.boardWinners == p.boardWinners && r.nextBoard == p.nextBoard
  {
    p.(currentPlayer := 1 - p.currentPlayer)
  }

  /**
   * An accepted move writes the mover's mark into exactly one cell, may only
   * set the winner of the sub-board played in, and leaves the turn alone.
   */
  lemma PlayFrame(p: Position, b: nat, c: nat)
    requires WellFormed(p) && b < 9 && c < 9 && Legal(p, b, c)
    ensures var r := Play(p, b, c);
            r.board[b][c] == Filled(MarkOf(p.currentPlayer)) &&
            (forall i, j :: 0 <= i < 9 && 0 <= j < 9 && (i != b || j != c) ==> r.board[i][j] == p.board[i][j]) &&
            (forall i :: 0 <= i < 9 && i != b ==> r.boardWinners[i] == p.boardWinners[i]) &&
            (r.boardWinners[b] == Empty || r.boardWinners[b] == Filled(MarkOf(p.currentPlayer))) &&
            r.currentPlayer == p.currentPlayer
  {
  }

  /** Filled cells and recorded sub-board winners are never overwritten by an accepted move. */
  lemma PlayMonotone(p: Position, b: nat, c: nat)
    requires WellFormed(p) && b < 9 && c < 9 && Legal(p, b, c)
    ensures var r := Play(p, b, c);
            (forall i, j :: 0 <= i < 9 && 0 <= j < 9 && p.board[i][j] != Empty ==> r.board[i][j] == p.board[i][j]) &&
            (forall i :: 0 <= i < 9 && p.boardWinners[i] != Empty ==> r.boardWinners[i] == p.boardWinners[i])
  {
  }

  /** If `s` had no complete pattern, a pattern completed by writing `m` into cell `c` is `m`'s. */
  lemma NewLineIsMovers(s: seq<Cell>, c: nat, m: Mark, m': Mark)
    requires c < |s| && forall m :: !HasLine(s, m)
    requires HasLine(s[c := Filled(m)], m')
    ensures m' == m
  {
    var s' := s[c := Filled(m)];
    var j :| 0 <= j < |LINES| && Holds(s', LINES[j], m');
    assert !HasLine(s, m');
    assert !Holds(s, LINES[j], m');
    var l := LINES[j];
    assert l.a == c || l.b == c || l.c == c;
  }

  /**
   * The winner cached for the sub-board played in becomes the mover's mark
   * exactly when that sub-board now has a complete pattern.
   */
  lemma PlayRecordsWin(p: Position, b: nat, c: nat)
    requires Invariant(p) && b < 9 && c < 9 && Legal(p, b, c)
    ensures var r := Play(p, b, c);
            var m := MarkOf(p.currentPlayer);
            (r.boardWinners[b] == Filled(m) <==> HasLine(r.board[b], m)) &&
            (r.boardWinners[b] == Empty <==> forall m' :: !HasLine(r.board[b], m')) &&
            r.boardWinners[b] == SmallBoardWinner(r.board[b])
  {
    var r := Play(p, b, c);
    var m := MarkOf(p.currentPlayer);
    var sub := r.board[b];
    assert sub == p.board[b][c := Filled(m)];
    assert Cached(p, b);
    var w := SmallBoardWinner(sub);
    if w.Filled? {
      NewLineIsMovers(p.board[b], c, m, w.mark);
      assert w == Filled(m);
    }
  }

  /**
   * An accepted move keeps the invariant, so `nextBoard` is always null or an
   * open sub-board; and it routes the opponent to sub-board `c` exactly when
   * that sub-board is open afterwards.
   */
  lemma PlayPreservesInvariant(p: Position, b: nat, c: nat)
    requires Invariant(p) && b < 9 && c < 9 && Legal(p, b, c)
    ensures Invariant(Play(p, b, c))
    ensures var r := Play(p, b, c);
            (r.nextBoard == Some(c) <==> Open(r, c)) && (r.nextBoard == None <==> !Open(r, c))
  {
    var r := Play(p, b, c);
    PlayRecordsWin(p, b, c);
    forall i | 0 <= i < 9
      ensures Cached(r, i)
    {
      if i != b {
        assert Cached(p, i);
        assert r.board[i] == p.board[i];
        assert r.boardWinners[i] == p.boardWinners[i];
      }
    }
  }

  lemma FlipPreservesInvariant(p: Position)
    requires Invariant(p)
    ensures Invariant(Flip(p))
  {
    forall i | 0 <= i < 9
      ensures Cached(Flip(p), i)
    {
      assert Cached(p, i);
    }
  }

  /** The legal moves in sub-board `b` at cells before `c`, in cell order. */
  function CellMoves(p: Position, b: nat, c: nat): (moves: seq<Move>)
    requires WellFormed(p) && b < 9 && c <= 9
  {
    if c == 0 then []
    else CellMoves(p, b, c - 1) + (if Legal(p, b, c - 1) then [Move(b, c - 1)] else [])
  }

  /** The legal moves in the sub-boards before `b`, in the source's enumeration order: sub-board, then cell. */
  function MovesBefore(p: Position, b: nat): (moves: seq<Move>)
    requires WellFormed(p) && b <= 9
  {
    if b == 0 then [] else MovesBefore(p, b - 1) + CellMoves(p, b - 1, 9)
  }

  /** Every move `makeMove` accepts in `p`, in row-major order. */
  function LegalMoves(p: Position): (moves: seq<Move>)
    requires WellFormed(p)
  {
    MovesBefore(p, 9)
  }

  /** Position of a move in the enumeration order. */
  function Rank(m: Move): (k: nat) {
    9 * m.boardIndex + m.cellIndex
  }

  lemma {:induction false} CellMovesMembers(p: Position, b: nat, c: nat)
    requires WellFormed(p) && b < 9 && c <= 9
    ensures forall m :: m in CellMoves(p, b, c) ==> m.boardIndex == b && m.cellIndex < c && Legal(p, b, m.cellIndex)
    ensures forall k :: 0 <= k < c && Legal(p, b, k) ==> Move(b, k) in CellMoves(p, b, c)
  {
    if c > 0 {
      CellMovesMembers(p, b, c - 1);
    }
  }

  lemma {:induction false} MovesBeforeMembers(p: Position, b: nat)
    requires WellFormed(p) && b <= 9
    ensures forall m :: m in MovesBefore(p, b) ==>
      m.boardIndex < b && m.cellIndex < 9 && Legal(p, m.boardIndex, m.cellIndex)
    ensures forall i, k :: 0 <= i < b && 0 <= k < 9 && Legal(p, i, k) ==> Move(i, k) in MovesBefore(p, b)
  {
    if b > 0 {
      CellMovesMembers(p, b - 1, 9);
      MovesBeforeMembers(p, b - 1);
    }
  }

  /** Strictly increasing in the enumeration order, hence no move twice. */
  predicate Increasing(s: seq<Move>) {
    forall i, j :: 0 <= i < j < |s| ==> Rank(s[i]) < Rank(s[j])
  }

  lemma IncreasingAppend(s: seq<Move>, t: seq<Move>)
    requires Increasing(s) && Increasing(t)
    requires forall x, y :: x in s && y in t ==> Rank(x) < Rank(y)
    ensures Increasing(s + t)
  {
    forall i, j | 0 <= i < j < |s + t| ensures Rank((s + t)[i]) < Rank((s + t)[j]) {
      if j < |s| {
        assert (s + t)[i] == s[i] && (s + t)[j] == s[j];
      } else if i < |s| {
        assert (s + t)[i] == s[i] && s[i] in s;
        assert (s + t)[j] == t[j - |s|] && t[j - |s|] in t;
      } else {
        assert (s + t)[i] == t[i - |s|] && (s + t)[j] == t[j - |s|];
      }
    }
  }

  lemma {:induction false} CellMovesOrdered(p: Position, b: nat, c: nat)
    requires WellFormed(p) && b < 9 && c <= 9
    ensures Increasing(CellMoves(p, b, c))
  {
    if c > 0 {
      CellMovesOrdered(p, b, c - 1);
      CellMovesMembers(p, b, c - 1);
      var last: seq<Move> := if Legal(p, b, c - 1) then [Move(b, c - 1)] else [];
      IncreasingAppend(CellMoves(p, b, c - 1), last);
    }
  }

  /** The enumeration of the sub-boards before `b` is strictly increasing in `Rank`. */
  lemma {:induction false} MovesBeforeOrdered(p: Position, b: nat)
    requires WellFormed(p) && b <= 9
    ensures Increasing(MovesBefore(p, b))
  {
    if b > 0 {
      MovesBeforeOrdered(p, b - 1);
      MovesBeforeMembers(p, b - 1);
      CellMovesOrdered(p, b - 1, 9);
      CellMovesMembers(p, b - 1, 9);
      IncreasingAppend(MovesBefore(p, b - 1), CellMoves(p, b - 1, 9));
    }
  }

  /** `LegalMoves` lists exactly the moves `makeMove` accepts. */
  lemma LegalMovesExact(p: Position)
    requires WellFormed(p)
    ensures forall m :: m in LegalMoves(p) <==>
      m.boardIndex < 9 && m.cellIndex < 9 && Legal(p, m.boardIndex, m.cellIndex)
  {
    MovesBeforeMembers(p, 9);
    forall m: Move | m.boardIndex < 9 && m.cellIndex < 9 && Legal(p, m.boardIndex, m.cellIndex)
      ensures m in LegalMoves(p)
    {
      assert m == Move(m.boardIndex, m.cellIndex);
    }
  }

  /** `LegalMoves` lists the moves in increasing (sub-board, cell) order, each once. */
  lemma LegalMovesIncreasing(p: Position)
    requires WellFormed(p)
    ensures Increasing(LegalMoves(p))
  {
    MovesBeforeOrdered(p, 9);
  }

  /** The enumeration is empty exactly when `makeMove` would reject every (sub-board, cell) pair. */
  lemma NoLegalMoves(p: Position)
    requires WellFormed(p)
    ensures LegalMoves(p) == [] <==> forall b, c :: 0 <= b < 9 && 0 <= c < 9 ==> !Legal(p, b, c)
  {
    LegalMovesExact(p);
    if LegalMoves(p) == [] {
      forall b, c | 0 <= b < 9 && 0 <= c < 9 ensures !Legal(p, b, c) {
        assert Move(b, c) !in LegalMoves(p);
      }
    } else {
      var m := LegalMoves(p)[0];
      assert m in LegalMoves(p);
      assert Legal(p, m.boardIndex, m.cellIndex);
    }
  }

  /**
   * The mandatory sub-board always offers a move: in a reachable state with
   * `nextBoard` set, the bot's enumeration is not empty.
   */
  lemma ForcedBoardHasMove(p: Position)
    requires Invariant(p) && p.nextBoard.Some?
    ensures LegalMoves(p) != []
  {
    var b := p.nextBoard.value;
    assert Empty in p.board[b];
    var c :| 0 <= c < 9 && p.board[b][c] == Empty;
    assert Legal(p, b, c);
    LegalMovesExact(p);
    assert Move(b, c) in LegalMoves(p);
  }

  /** A sub-board the move rules do not allow contributes nothing to the enumeration. */
  lemma {:induction false} CellMovesSkipBoard(p: Position, b: nat, c: nat)
    requires WellFormed(p) && b < 9 && c <= 9
    requires (p.nextBoard.Some? && p.nextBoard.value != b) || p.boardWinners[b] != Empty
    ensures CellMoves(p, b, c) == []
  {
    if c > 0 {
      CellMovesSkipBoard(p, b, c - 1);
    }
  }
}
