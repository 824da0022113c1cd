# Ultimate Tic-Tac-Toe rule engine, local turn flow and room server

A Dafny model of the core of an Ultimate Tic-Tac-Toe web game:

- the move and win rules: `makeMove`, `checkSmallBoardWinner` and
  `isBoardFull`, which are written out twice with identical bodies in
  `public/local-game.js` and `server.js`; `checkOverallWinner`, which in both
  files applies the sub-board scan to `boardWinners`, and on the local page
  also records the winning combination; and `findWinningCombination`, which
  exists on the local page only;
- the state logic of the local page: a human click, the bot's turn, the
  legal-move enumeration and the bot's greedy move choice;
- the room state machine of the multiplayer server: the `rooms` and `games`
  maps and the `create-room`, `join-room`, `make-move` and `disconnect`
  handlers.

Modules (one per concern, in dependency order):

| file | module | contents |
|---|---|---|
| rules.dfy | `Wrappers`, `Rules` | `Option`, the first-match scan; the board as values, the eight patterns, the move rules `Legal`/`Play`, the reachable-state invariant, the enumeration `LegalMoves` |
| engine.dfy | `Engine` | `class Game`, the mutable game object of both programs; its `MakeMove` is proved to compute `Rules.Play` |
| bot.dfy | `Bot` | the difficulty table, the tests `getBestMove` applies, the specification `BestMove` of its priority list, the scan and filter loops |
| local.dfy | `Local` | `class LocalGame`: the page's `gameState` and its handlers |
| server.dfy | `Server` | the server's `makeMove` on raw message indices, and `class Registry` holding `rooms`, `games` and the rooms' insertion order |

The two copies of `makeMove` are modelled by a single `Engine.Game.MakeMove`.
The local page uses it directly. `Server.MakeMove` wraps it with the
server's handling of out-of-range indices taken from a network message.

The state invariant `Rules.Invariant` says two things. Each cached
sub-board winner is the winner of that sub-board's cells. The mandatory
sub-board is always open, meaning it is neither won nor full. Every
operation that mutates a game keeps this invariant.

The registry invariant `Server.Registry.Valid` says the following:
- every room is stored under its own id;
- a room has one or two distinct sockets, and it is waiting exactly while it has fewer than two;
- games exist only for rooms, and no two rooms share a game;
- a room past waiting has a game, and that room is finished exactly when its meta-board has a line.

Randomness is an argument. Each `Math.random()` draw is a real `roll` or
`pick` in [0, 1), and a random index is `Floor(pick * n)`. Because the
draw is arbitrary, every contract holds for every possible outcome.

Where the code and the prose description of the game differ, the model follows the code:
- `makeMove` checks three things, in this order: the mandatory sub-board, then whether the cell is occupied, then whether the sub-board is already won. It has no game-over check at all.
- A full sub-board with no line never gets a winner entry. A tie therefore needs all nine sub-boards won. Every state in which each sub-board is won or full, some sub-board is not won, and the meta-board has no line offers no legal move and gets no result: it stalls (`Local.BlockedBoardsStall`). The model does not show that play can reach such a state.
- The server never sets `game.winner` and has no tie path.

## Model

| member | source | states |
|---|---|---|
| Rules.IsFull | public/local-game.js:411-413 | a sub-board is full exactly when no cell is null |
| Rules.Legal | public/local-game.js:339-350 | a move passes the three checks only in an open sub-board (unwon and not full) that `nextBoard` allows |
| Rules.Play | public/local-game.js:352-367 | the played cell gets the mover's symbol, the turn is not changed, and the next sub-board is the played cell index or free choice |
| Rules.ForcedBoardHasMove | public/local-game.js:361-367 | in a reachable state with a mandatory sub-board, some move is legal |
| Rules.SmallBoardWinner | public/local-game.js:394-408 | a non-null result is the mark of the first pattern, in the order rows, columns, diagonals, whose three cells are equal and non-null; `null` exactly when no pattern holds three equal marks |
| Rules.FindWinningCombination | public/local-game.js:426-440 | a returned pattern is one of the eight and holds three entries equal to the given mark; `null` exactly when the mark has no line |
| Rules.WinningCombinationMatches | public/local-game.js:416-423 | when the meta-board has a winner, `findWinningCombination` finds a pattern whose three entries all equal that winner |
| Rules.InitialInvariant | public/local-game.js:43-52 | the fresh state (all cells null, no winners, player 0, free choice) satisfies the invariant, and its meta-board has no winner |
| Rules.Flip | public/local-game.js:136 | the turn switch changes the player to the other of 0 and 1, and leaves board, winners and mandatory sub-board alone |
| Rules.PlayFrame | public/local-game.js:352-359 | an accepted move writes the mover's symbol ('X' for player 0, else 'O') into the played cell only; it changes no other cell, only the played sub-board's winner entry, and that only to the mover's symbol |
| Rules.PlayMonotone | public/local-game.js:352-359 | filled cells and recorded sub-board winners are never overwritten |
| Rules.NewLineIsMovers | public/local-game.js:356-359 | on a sub-board without a line, a line created by writing one mark belongs to that mark |
| Rules.PlayRecordsWin | public/local-game.js:356-359 | the played sub-board's winner entry becomes the mover's symbol exactly when that sub-board now has the mover's line, and stays null exactly when it has no line |
| Rules.PlayPreservesInvariant | public/local-game.js:361-367 | an accepted move keeps the invariant; the next sub-board is the played cell index exactly when that sub-board is unwon and not full, else free choice |
| Rules.FlipPreservesInvariant | public/local-game.js:136 | switching turns keeps the invariant |
| Rules.CellMovesMembers | public/local-game.js:222-226 | the inner scan lists exactly the legal cells of its sub-board below the bound |
| Rules.MovesBeforeMembers | public/local-game.js:217-227 | the outer scan lists exactly the legal moves of the sub-boards below the bound |
| Rules.CellMovesOrdered | public/local-game.js:222-226 | the inner scan's list is strictly increasing in cell order |
| Rules.MovesBeforeOrdered | public/local-game.js:217-227 | the outer scan's list is strictly increasing in (sub-board, cell) order, so no move appears twice |
| Rules.LegalMovesExact | public/local-game.js:214-230 | the enumeration contains a move exactly when `makeMove` accepts it |
| Rules.LegalMovesIncreasing | public/local-game.js:214-230 | the enumeration is in (sub-board, cell) order without repeats |
| Rules.NoLegalMoves | public/local-game.js:214-230 | the enumeration is empty exactly when `makeMove` rejects every (sub-board, cell) pair |
| Rules.CellMovesSkipBoard | public/local-game.js:219-220 | a sub-board that is not allowed, or already won, contributes no move |
| Engine.Game.constructor | public/local-game.js:43-52 | a fresh game: all cells null, no winners, player 0, free choice, no result; it satisfies the invariant |
| Engine.Game.MakeMove | public/local-game.js:337-370 | accepted exactly when the three checks pass; a rejected move changes nothing; an accepted move's new state is `Play` of the old one; the invariant is kept; `winner` and `currentPlayer` are untouched |
| Bot.ParseDifficulty | public/local-game.js:5 | a missing or empty stored difficulty means easy; "medium", "hard" and "impossible" each mean their own level, and nothing else does; a string outside the table is reported as unlisted |
| Bot.WinChance | public/local-game.js:13-18 | the table's chance is defined exactly for the four listed difficulties, lies in (0, 1], and is 1.0 exactly for impossible |
| Bot.WinChanceIncreases | public/local-game.js:13-18 | easy is an even chance, the chances rise strictly through medium and hard, and impossible is certainty |
| Bot.Strategic | public/local-game.js:204 | with a draw in [0, 1), the bot plays strategically exactly when the draw is below the win chance; at impossible always, with an unlisted difficulty never |
| Bot.RandomIndex | public/local-game.js:209 | `Math.floor(Math.random() * n)` is a valid index into a list of length n |
| Bot.RandomIndexReaches | public/local-game.js:209 | every index of a list of length n is drawn by some value of `Math.random()` |
| Bot.OpenTwos | public/local-game.js:269-278 | the count of patterns holding two of the mark and one null is at most the patterns scanned, zero exactly when none does, and at least two (the fork test) exactly when two distinct patterns do |
| Bot.CountIsOccurrences | public/local-game.js:272-273 | the count of a value in a line is its number of occurrences |
| Bot.CountPartition | public/local-game.js:271-273 | the counts of 'X', 'O' and null cells add up to the length of the cells counted |
| Bot.BotChoiceIsLegal | public/local-game.js:198-211 | whatever the draws, the bot's choice is a move `makeMove` accepts |
| Bot.BestMove | public/local-game.js:233-334 | the priority list as a specification of the chosen move, which is always one of the candidates |
| Bot.BotChoice | public/local-game.js:198-211 | the strategic or random choice among the enumerated moves; a choice it allows is always an enumerated move |
| Bot.BestMoveTakesWin | public/local-game.js:234-252 | if some candidate wins a sub-board for 'O', the chosen move does; otherwise, if some candidate completes an 'X' line, the chosen move blocks it |
| Bot.Scan | public/local-game.js:235-242 | the loop returns the index of the first move passing the test, or none when no move passes |
| Bot.Filter | public/local-game.js:287 | `filter` keeps exactly the passing elements, is empty exactly when none passes, and starts with the first passing element |
| Local.Outcome | public/local-game.js:139-149 | a meta-line gives a win for a mark that has a line; with no line and all nine winners set (for any nine entries), a tie; the result changes only in those two ways |
| Local.Combination | public/local-game.js:418-421 | on a meta-board win, the kept combination is one of the eight patterns with three entries equal to the winner; otherwise the previous one stays |
| Local.BlockedBoardsStall | public/local-game.js:145-149 | every state whose sub-boards are each won or full, with one not won and no meta-board line, has no legal move and keeps its result |
| Local.LocalGame.constructor | public/local-game.js:5-9 | the mode, bot seat and difficulty come from the stored settings, and the game starts fresh |
| Local.LocalGame.InitGame | public/local-game.js:43-52 | the whole state is replaced by a fresh game with no result and no combination |
| Local.LocalGame.CanPlayHere | public/local-game.js:100-103 | a cell is clickable exactly when the game has no result and `makeMove` would accept it |
| Local.LocalGame.CheckOverallWinner | public/local-game.js:416-423 | returns the meta-board winner; on a win, the recorded combination is a pattern of three entries equal to it; otherwise the old combination stays |
| Local.LocalGame.SwitchTurnAndJudge | public/local-game.js:136-149 | one turn switch, then the result is updated as `Outcome` says, and the combination as `checkOverallWinner` records it |
| Local.LocalGame.HandleCellClick | public/local-game.js:120-159 | ignored on the bot's turn; otherwise accepted exactly when `makeMove` accepts; an accepted click plays the move, flips the turn once and updates the result; a refused one changes nothing; a bot move is scheduled exactly when the game goes on and the bot is to move |
| Local.LocalGame.MakeBotMove | public/local-game.js:162-195 | nothing happens when there is a result or no legal move; otherwise the bot's choice is legal, is played, flips the turn once and updates the result |
| Local.LocalGame.CalculateBotMove | public/local-game.js:198-211 | null exactly when no move is legal; otherwise a legal move, chosen by the bot's rule from the draws |
| Local.LocalGame.GetPossibleMoves | public/local-game.js:214-230 | the nested loop returns the enumeration, so it lists exactly the moves `makeMove` accepts, in (sub-board, cell) order |
| Local.LocalGame.GetBestMove | public/local-game.js:233-334 | the result is one of the candidates; it is the first 'O' win if any; else the first 'X' block; else, at impossible, the first fork; else the first center move; else a corner; else, at impossible, a safe move if there is one |
| Server.IndexOf | server.js:131 | `indexOf` gives the first position of the socket, and -1 exactly when it is absent |
| Server.RemoveAt | server.js:133 | `splice(i, 1)` shortens the list by one, keeping the entries before i and shifting the ones after |
| Server.RemoveAtDistinct | server.js:133 | splicing a list without repeats removes exactly that socket, and the list still has no repeats |
| Server.Admit | server.js:71-81 | the joining socket is in the room, appended at the end only if absent (so the first entrant stays at index 0 and plays 'X'), so a room never has more than two sockets or a repeat; the room starts playing when it reaches two |
| Server.Leave | server.js:133-141 | one socket fewer, status back to waiting |
| Server.ToMove | server.js:98 | `room.players[game.currentPlayer]` is a socket of the room when the index is in range, and `undefined` otherwise |
| Server.TurnPasses | server.js:98-105 | in a room past waiting, the first entrant is player 0's socket, and the socket to move differs after every turn switch |
| Server.MakeMove | server.js:175-206 | on raw indices: accepted exactly when both indices are in 0..8 and the move is legal, with the same effect as the local engine; a `TypeError` exactly when there is free choice and the sub-board index is out of range; nothing changes unless accepted |
| Server.Turn | server.js:102-105 | `makeMove`, then one turn switch exactly when it succeeds |
| Server.CataloguePut | server.js:44 | storing a well-formed room keeps every room well formed under its id, and keeps the insertion order in step with the keys |
| Server.CatalogueDelete | server.js:136 | deleting a room keeps the catalogue |
| Server.ProgressSetRoom | server.js:117-119 | storing a room record that agrees with its game keeps the lifecycle invariant |
| Server.ProgressSetGame | server.js:158 | storing a game that agrees with its room's record keeps the lifecycle invariant |
| Server.ProgressDelete | server.js:136-137 | deleting a room together with its game keeps the lifecycle invariant |
| Server.Registry.constructor | server.js:14-15 | a server starts with no rooms and no games |
| Server.Registry.CreateRoom | server.js:35-44 | the map holds a waiting room with exactly the creator under the given id, new ids go last in the order, and games are untouched |
| Server.Registry.StartGame | server.js:149-158 | a fresh game (all cells null, no winners, player 0, free choice, no winner) is installed for the room; nothing else changes |
| Server.Registry.JoinRoom | server.js:51-85 | an unknown id gets an empty waiting room; a room with two sockets is refused and left unchanged; otherwise the socket is added once, the reply is the new player count, and at two players the room plays with a fresh game; that game has no winner |
| Server.Registry.MakeMoveRequest | server.js:88-121 | ignored exactly when the room is missing or not playing, there is no game, or the sender is not the player to move; a refused move changes nothing; an accepted move plays, flips the turn, and the room finishes exactly when the meta-board has a line, and the socket to move is then the other player's; the game's `winner` never changes |
| Server.Registry.Advance | server.js:101-121 | past the guards: an accepted move plays and flips the turn, and the room finishes exactly when the meta-board has a line; otherwise nothing changes; the game's `winner` never changes |
| Server.Registry.Evict | server.js:131-143 | the socket is spliced out of the room; an emptied room is deleted with its game, otherwise the room waits again; no other room changes |
| Server.Registry.Disconnect | server.js:126-146 | the first room in insertion order holding the socket loses it, and no other room is touched; an emptied room is deleted with its game, otherwise it waits again; with no such room nothing changes |
| Server.FinishedMeansLine | server.js:117-121 | in every reachable registry, a room past waiting has a game, and it is finished exactly when that game's meta-board has a line |

## Left out

- Rendering and UI text are not modelled: `renderBoard`, `updateDisplay`, `showWinModal`, `showStatus`, the status message in `makeMove`, and the button listeners. `canPlayHere` is kept, as a function.
- `setTimeout` pacing and the auto-hide of status messages are not modelled. A scheduled bot move is the result of `HandleCellClick`, and the caller runs `MakeBotMove` afterwards. The same holds for the page-load bot move.
- `playerNames` and `humanPlayerIndex` are display data and are not modelled.
- `Math.random` is modelled as the arguments `roll` and `pick`. Its uniformity and exact floating-point values are not modelled. A bot turn draws at most twice: once for the strategy test, and once for a random index, whether in `calculateBotMove` or in `getBestMove`.
- Bot.BestMove: when the random fallback picks a corner or a candidate after the safe filter, the model says only which set the move comes from, not which element the draw selects.
- Local.LocalGame.GetBestMove: requires a non-empty list. Its only caller, `calculateBotMove`, returns early on an empty list, where the source would return `undefined`.
- Local.LocalGame.HandleCellClick: indices are taken as naturals below 9. The page only attaches the handler to its 81 cells, so `parseInt` of their data attributes always gives such values.
- Server.MakeMove: indices that are not integers, such as strings, fractions or `undefined`, are not modelled. For an out-of-range sub-board index the `TypeError` is an outcome, and the model leaves the game unchanged.
- The server's `uuidv4` room id is an argument of `CreateRoom`.
- Socket joins, emits, callbacks and `console.log` are not modelled. A callback's payload is the method's result; the `Room is full` reply is `RoomFull`.
- The `gameState` field of a room is always `null` and is not modelled. The same goes for the `yourTurn` broadcast field, which compares a value with itself.
- `game.winner` on the server is never set; the model keeps it unchanged. The server has no tie path: a full meta-board without a line leaves the room playing.
- public/game.js (the network client) and public/script.js (the menu) are not part of this model.
- Concurrency between socket events is not modelled. Each handler runs to completion, as on the single-threaded event loop.
