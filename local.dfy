/**
 * The state logic of the local page, public/local-game.js: a human click,
 * the bot's turn, the legal-move enumeration and the bot's move choice,
 * all over one `Engine.Game` (the page's `gameState`).  Rendering, the
 * status line and the pacing timers are left out: a scheduled bot move is
 * reported as a result, and the caller runs `MakeBotMove` later.
 */
module Local {
  import opened Wrappers
  import opened Rules
  import opened Bot
  import Engine

  /**
   * The result recorded after an accepted move: a meta-board line wins,
   * taking priority over the tie; with no line, a tie only when all nine
   * sub-boards have a winner; otherwise the previous result stays.
   */
  function Outcome(bw: seq<Cell>, before: Winner): (w: Winner)
    ensures (exists m :: HasLine(bw, m)) ==> w.WonBy? && HasLine(bw, w.mark)
    ensures (forall m :: !HasLine(bw, m)) && IsFull(bw) ==> w == Tie
    ensures w != before ==> (w.WonBy? && HasLine(bw, w.mark)) ||
                            (w == Tie && IsFull(bw) && forall m :: !HasLine(bw, m))
  {
    match SmallBoardWinner(bw)
    case Filled(m) => WonBy(m)
    case Empty => if IsFull(bw) then Tie else before
  }

  /**
   * The combination kept after an accepted move: on a meta-board win, a
   * pattern of three entries equal to the winner (`checkOverallWinner`);
   * otherwise the previous one stays.
   */
  function Combination(bw: seq<Cell>, before: Option<Line>): (r: Option<Line>)
    ensures SmallBoardWinner(bw).Filled? ==>
      r.Some? && r.value in LINES && Holds(bw, r.value, SmallBoardWinner(bw).mark)
    ensures SmallBoardWinner(bw).Empty? ==> r == before
  {
    match SmallBoardWinner(bw)
    case Filled(m) =>
      WinningCombinationMatches(bw);
      FindWinningCombination(bw, m)
    case Empty => before
  }

  /**
   * A tie needs every sub-board won, and a full sub-board without a line is
   * never recorded as won.  So in every state whose sub-boards are each won
   * or full, with some sub-board not won and no meta-board line, no move is
   * legal (the bot's `calculateBotMove` returns null), and an accepted-move
   * judgement would leave the result as it was: the game stalls.
   */
  lemma BlockedBoardsStall(p: Position, before: Winner)
    requires Invariant(p)
    requires forall k :: 0 <= k < 9 ==> p.boardWinners[k] != Empty || IsFull(p.board[k])
    requires !IsFull(p.boardWinners) && forall m :: !HasLine(p.boardWinners, m)
    ensures LegalMoves(p) == []
    ensures Outcome(p.boardWinners, before) == before
  {
    forall b, c | 0 <= b < 9 && 0 <= c < 9 ensures !Legal(p, b, c) {
      assert !Open(p, b);
    }
    NoLegalMoves(p);
  }

  class LocalGame {
    const isBotGame: bool
    const botPlayerIndex: nat
    const difficulty: Difficulty
    var game: Engine.Game
    var winningCombination: Option<Line>

    ghost predicate Valid()
      reads this, game
    {
      game.Valid() && botPlayerIndex <= 1
    }

    /** Page load: the settings read from storage, then `initGame`. */
    constructor (gameMode: string, player2Name: string, botDifficulty: Option<string>)
      ensures Valid() && fresh(game)
      ensures isBotGame == (gameMode == "bot") && difficulty == ParseDifficulty(botDifficulty)
      ensures botPlayerIndex == if player2Name == "AI Bot" then 1 else 0
      ensures game.Position() == Initial() && game.winner == Undecided && winningCombination == None
    {
      isBotGame := gameMode == "bot";
      botPlayerIndex := if player2Name == "AI Bot" then 1 else 0;
      difficulty := ParseDifficulty(botDifficulty);
      game := new Engine.Game();
      winningCombination := None;
    }

    /** `initGame`: replace the whole state by a fresh game. */
    method InitGame()
      requires Valid()
      modifies this
      ensures Valid() && fresh(game)
      ensures game.Position() == Initial() && game.winner == Undecided && winningCombination == None
    {
      game := new Engine.Game();
      winningCombination := None;
    }

    /**
     * `canPlayHere` of `renderBoard`: a cell gets a click handler exactly
     * when the game has no result and `makeMove` would accept it.
     */
    function CanPlayHere(b: nat, c: nat): (r: bool)
      reads this, game
      requires Valid() && b < 9 && c < 9
      ensures r <==> game.winner == Undecided && Legal(game.Position(), b, c)
    {
      game.winner == Undecided &&
      (game.nextBoard.None? || game.nextBoard.value == b) &&
      game.board[b][c] == Empty &&
      game.boardWinners[b] == Empty
    }

    /** `checkOverallWinner`: the meta-board winner; on a win, also record its combination. */
    method CheckOverallWinner() returns (w: Cell)
      requires Valid()
      modifies this
      ensures Valid() && game == old(game)
      ensures w == SmallBoardWinner(game.boardWinners)
      ensures w.Filled? ==> winningCombination.Some? && Holds(game.boardWinners, winningCombination.value, w.mark)
      ensures winningCombination == Combination(game.boardWinners, old(winningCombination))
    {
      w := SmallBoardWinner(game.boardWinners);
      if w.Filled? {
        winningCombination := FindWinningCombination(game.boardWinners, w.mark);
        WinningCombinationMatches(game.boardWinners);
      }
    }

    /** The lines shared by both turn handlers after an accepted move: switch turns, then decide the result. */
    method SwitchTurnAndJudge()
      requires Valid()
      modifies this, game
      ensures Valid() && game == old(game)
      ensures game.Position() == Flip(old(game.Position()))
      ensures game.winner == Outcome(game.boardWinners, old(game.winner))
      ensures winningCombination == Combination(game.boardWinners, old(winningCombination))
    {
      FlipPreservesInvariant(game.Position());
      game.currentPlayer := 1 - game.currentPlayer;
      var overall := CheckOverallWinner();
      if overall.Filled? {
        game.winner := WonBy(overall.mark);
      } else if IsFull(game.boardWinners) {
        game.winner := Tie;
      }
    }

    /**
     * `handleCellClick`: ignored on the bot's turn; otherwise `makeMove`, and
     * on acceptance one turn switch and the result check.  Returns whether
     * a bot move is scheduled.  Nothing here checks `winner`: the board is
     * rendered before the result is set and not again after a win, so the
     * cells `CanPlayHere` enabled before the winning move keep their
     * handlers, and a click on one reaches this method.
     */
    method HandleCellClick(b: nat, c: nat) returns (botScheduled: bool)
      requires Valid() && b < 9 && c < 9
      modifies this, game
      ensures Valid() && game == old(game)
      ensures var accepted := !(isBotGame && old(game.currentPlayer) == botPlayerIndex) &&
                              Legal(old(game.Position()), b, c);
              game.currentPlayer == (if accepted then 1 - old(game.currentPlayer) else old(game.currentPlayer)) &&
              (accepted ==>
                game.Position() == Flip(Play(old(game.Position()), b, c)) &&
                game.winner == Outcome(game.boardWinners, old(game.winner)) &&
                winningCombination == Combination(game.boardWinners, old(winningCombination))) &&
              (!accepted ==>
                game.Position() == old(game.Position()) && game.winner == old(game.winner) &&
                winningCombination == old(winningCombination)) &&
              (botScheduled <==> (accepted && game.winner == old(game.winner) &&
                                  SmallBoardWinner(game.boardWinners) == Empty && !IsFull(game.boardWinners) &&
                                  isBotGame && game.currentPlayer == botPlayerIndex))
    {
      botScheduled := false;
      if isBotGame && game.currentPlayer == botPlayerIndex {
        return;
      }
      var ok := game.MakeMove(b, c);
      if ok {
        SwitchTurnAndJudge();
        if SmallBoardWinner(game.boardWinners) == Empty && !IsFull(game.boardWinners) {
          botScheduled := isBotGame && game.currentPlayer == botPlayerIndex;
        }
      }
    }

    /**
     * `makeBotMove`: nothing once the game has a result or when no move is
     * legal; otherwise the bot's choice is played (it is always accepted),
     * followed by one turn switch and the result check.
     */
    method MakeBotMove(roll: real, pick: real) returns (ghost played: Option<Move>)
      requires Valid() && 0.0 <= roll < 1.0 && 0.0 <= pick < 1.0
      modifies this, game
      ensures Valid() && game == old(game)
      ensures old(game.winner) != Undecided ==> played == None
      ensures old(game.winner) == Undecided ==> (played == None <==> LegalMoves(old(game.Position())) == [])
      ensures played == None ==>
                game.Position() == old(game.Position()) && game.winner == old(game.winner) &&
                winningCombination == old(winningCombination)
      ensures played.Some? ==>
                var mv := played.value;
                BotChoice(old(game.Position()), difficulty, roll, pick, mv) &&
                mv.boardIndex < 9 && mv.cellIndex < 9 &&
                Legal(old(game.Position()), mv.boardIndex, mv.cellIndex) &&
                game.Position() == Flip(Play(old(game.Position()), mv.boardIndex, mv.cellIndex)) &&
                game.winner == Outcome(game.boardWinners, old(game.winner)) &&
                winningCombination == Combination(game.boardWinners, old(winningCombination))
    {
      played := None;
      if game.winner != Undecided {
        return;
      }
      var botMove := CalculateBotMove(roll, pick);
      if botMove.Some? {
        var mv := botMove.value;
        var ok := game.MakeMove(mv.boardIndex, mv.cellIndex);
        if ok {
          played := Some(mv);
          SwitchTurnAndJudge();
        }
      }
    }

    /**
     * `calculateBotMove`: null exactly when no move is legal; otherwise the
     * bot's choice among the legal moves, which `makeMove` accepts.
     */
    method CalculateBotMove(roll: real, pick: real) returns (mv: Option<Move>)
      requires Valid() && 0.0 <= roll < 1.0 && 0.0 <= pick < 1.0
      ensures mv.None? <==> forall b, c :: 0 <= b < 9 && 0 <= c < 9 ==> !Legal(game.Position(), b, c)
      ensures mv.Some? ==> mv.value.boardIndex < 9 && mv.value.cellIndex < 9 &&
                           Legal(game.Position(), mv.value.boardIndex, mv.value.cellIndex)
      ensures mv.Some? ==> BotChoice(game.Position(), difficulty, roll, pick, mv.value)
      ensures mv.None? <==> LegalMoves(game.Position()) == []
    {
      NoLegalMoves(game.Position());
      var possibleMoves := GetPossibleMoves();
      if possibleMoves == [] {
        return None;
      }
      var m;
      if Strategic(difficulty, roll) {
        m := GetBestMove(possibleMoves, pick);
      } else {
        m := possibleMoves[RandomIndex(pick, |possibleMoves|)];
      }
      BotChoiceIsLegal(game.Position(), difficulty, roll, pick, m);
      return Some(m);
    }

    /**
     * `getPossibleMoves`: the nested scan over sub-boards and cells.  It lists
     * exactly the moves `makeMove` accepts, in (sub-board, cell) order.
     */
    method GetPossibleMoves() returns (moves: seq<Move>)
      requires Valid()
      ensures moves == LegalMoves(game.Position())
      ensures forall m :: m in moves <==>
        m.boardIndex < 9 && m.cellIndex < 9 && Legal(game.Position(), m.boardIndex, m.cellIndex)
    {
      ghost var p := game.Position();
      moves := [];
      var b := 0;
      while b < 9
        invariant 0 <= b <= 9
        invariant moves == MovesBefore(p, b)
      {
        var canPlayInBoard := game.nextBoard.None? || game.nextBoard.value == b;
        if !canPlayInBoard || game.boardWinners[b] != Empty {
          CellMovesSkipBoard(p, b, 9);
        } else {
          var c := 0;
          while c < 9
            invariant 0 <= c <= 9
            invariant moves == MovesBefore(p, b) + CellMoves(p, b, c)
          {
            if game.board[b][c] == Empty {
              moves := moves + [Move(b, c)];
            }
            c := c + 1;
          }
        }
        assert MovesBefore(p, b + 1) == MovesBefore(p, b) + CellMoves(p, b, 9);
        b := b + 1;
      }
      LegalMovesExact(p);
    }

    /** `getBestMove`: the fixed greedy priority list, with `pick` as the random draw. */
    method GetBestMove(moves: seq<Move>, pick: real) returns (m: Move)
      requires Valid() && moves != [] && 0.0 <= pick < 1.0
      requires forall mv :: mv in moves ==> mv.boardIndex < 9 && mv.cellIndex < 9
      ensures BestMove(game.board, moves, difficulty == Impossible, m)
    {
      var board := game.board;
      // Priority 1: win a sub-board as 'O'.
      var k := Scan(moves, Test(board, Completes(O)));
      if k.Some? {
        return moves[k.value];
      }
      // Priority 2: block 'X'.
      k := Scan(moves, Test(board, Completes(X)));
      if k.Some? {
        return moves[k.value];
      }
      // Priority 3: a fork, at the top tier only.
      if difficulty == Impossible {
        k := Scan(moves, Test(board, Fork));
        if k.Some? {
          return moves[k.value];
        }
      }
      // Priority 4: the first center move.
      var centerMoves := Filter(moves, Test(board, Center));
      if centerMoves != [] {
        return centerMoves[0];
      }
      // Priority 5: a random corner.
      var cornerMoves := Filter(moves, Test(board, Corner));
      if cornerMoves != [] {
        return cornerMoves[RandomIndex(pick, |cornerMoves|)];
      }
      // Priority 6: at the top tier, keep only the safe moves if there are any.
      var candidates := moves;
      if difficulty == Impossible {
        var safeMoves := Filter(moves, Test(board, Safe));
        if safeMoves != [] {
          candidates := safeMoves;
        }
      }
      m := candidates[RandomIndex(pick, |candidates|)];
    }
  }
}
