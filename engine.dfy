/**
 * The mutable game object of both clients of the rule engine: the local
 * page's `gameState` (public/local-game.js) and a server room's `game`
 * (server.js).  Its `MakeMove` is the single model of the two identical
 * `makeMove` functions.
 */
module Engine {
  import opened Wrappers
  import opened Rules

  class Game {
    var board: seq<seq<Cell>>
    var boardWinners: seq<Cell>
    var currentPlayer: nat
    var nextBoard: Option<nat>
    var winner: Winner

    /** The fields the move rules read and write, as a value. */
    function Position(): Rules.Position
      reads this
    {
      Rules.Position(board, boardWinners, currentPlayer, nextBoard)
    }

    ghost predicate Valid()
      reads this
    {
      Invariant(Position())
    }

    /** The state installed by `initGame` and by `startGame`. */
    constructor ()
      ensures Valid()
      ensures Position() == Initial() && winner == Undecided
    {
      board := seq(9, _ => seq(9, _ => Empty));
      boardWinners := seq(9, _ => Empty);
      currentPlayer := 0;
      nextBoard := None;
      winner := Undecided;
      new;
      InitialInvariant();
    }

    /**
     * `makeMove(boardIndex, cellIndex)`: reject (changing nothing) when the
     * move is not legal, otherwise play it in place.  It neither looks at
     * nor changes `winner` and `currentPlayer`.
     */
    method MakeMove(b: nat, c: nat) returns (ok: bool)
      requires Valid() && b < 9 && c < 9
      modifies this
      ensures Valid()
      ensures ok == Legal(old(Position()), b, c)
      ensures Position() == if ok then Play(old(Position()), b, c) else old(Position())
      ensures winner == old(winner) && currentPlayer == old(currentPlayer)
    {
      ghost var before := Position();
      if nextBoard.Some? && nextBoard.value != b {
        return false;
      }
      if board[b][c] != Empty {
        return false;
      }
      if boardWinners[b] != Empty {
        return false;
      }
      var symbol := if currentPlayer == 0 then X else O;
      board := board[b := board[b][c := Filled(symbol)]];
      if SmallBoardWinner(board[b]) != Empty {
        boardWinners := boardWinners[b := Filled(symbol)];
      }
      nextBoard := Some(c);
      if boardWinners[c] != Empty || IsFull(board[c]) {
        nextBoard := None;
      }
      ok := true;
      assert Position() == Play(before, b, c);
      PlayPreservesInvariant(before, b, c);
    }
  }
}
