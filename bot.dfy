/**
 * The bot's move selection in public/local-game.js: the difficulty table,
 * the tests `getBestMove` applies to each candidate move, and the greedy
 * priority order it follows.  `Math.random` is an argument in [0, 1).
 */
module Bot {
  import opened Wrappers
  import opened Rules

  /** The stored difficulty; `Unlisted` is any string the table does not name. */
  datatype Difficulty = Easy | Medium | Hard | Impossible | Unlisted

  /** `localStorage.getItem('botDifficulty') || 'easy'`: a missing or empty entry means easy. */
  function ParseDifficulty(stored: Option<string>): (d: Difficulty)
    ensures d == Easy <==> stored == None || stored == Some("") || stored == Some("easy")
    ensures d == Medium <==> stored == Some("medium")
    ensures d == Hard <==> stored == Some("hard")
    ensures d == Impossible <==> stored == Some("impossible")
    ensures d == Unlisted <==>
      stored.Some? && stored.value !in {"", "easy", "medium", "hard", "impossible"}
  {
    match stored
    case None => Easy
    case Some(s) =>
      if s == "" || s == "easy" then Easy
      else if s == "medium" then Medium
      else if s == "hard" then Hard
      else if s == "impossible" then Impossible
      else Unlisted
  }

  /** `botWinChances[botDifficulty]`: the chance that the bot plays strategically, undefined off the table. */
  function WinChance(d: Difficulty): (p: Option<real>)
    ensures p.None? <==> d == Unlisted
    ensures p.Some? ==> 0.0 < p.value <= 1.0
    ensures p == Some(1.0) <==> d == Impossible
  {
    match d
    case Easy => Some(0.5)
    case Medium => Some(0.75)
    case Hard => Some(0.95)
    case Impossible => Some(1.0)
    case Unlisted => None
  }

  /**
   * The levels the table promises: an even chance at easy, rising strictly
   * through medium and hard to certainty at impossible.
   */
  lemma WinChanceIncreases()
    ensures WinChance(Easy) == Some(0.5) && WinChance(Impossible) == Some(1.0)
    ensures WinChance(Easy).value < WinChance(Medium).value < WinChance(Hard).value < WinChance(Impossible).value
  {
  }

  /**
   * `botDifficulty === 'impossible' || Math.random() < winChance`; a
   * comparison with `undefined` is false.  At the top tier the bot plays
   * strategically whatever the draw; with an unlisted difficulty it never
   * does; otherwise exactly when the draw is below the win chance.  With a
   * draw in [0, 1), the chance 1.0 alone needs no separate test.
   */
  predicate Strategic(d: Difficulty, roll: real): (r: bool)
    ensures d == Impossible ==> r
    ensures d == Unlisted ==> !r
    ensures 0.0 <= roll < 1.0 ==> (r <==> WinChance(d).Some? && roll < WinChance(d).value)
  {
    d == Impossible || (WinChance(d).Some? && roll < WinChance(d).value)
  }

  /** `Math.floor(Math.random() * n)`. */
  function RandomIndex(r: real, n: nat): (k: nat)
    requires 0.0 <= r < 1.0 && n > 0
    ensures k < n
  {
    var x := r * n as real;
    assert 0.0 <= x < n as real by {
      assert r * n as real <= r * n as real;
    }
    x.Floor
  }

  /** Every index of a list of length `n` is drawn by some value of `Math.random()`. */
  lemma RandomIndexReaches(n: nat, k: nat)
    requires k < n
    ensures 0.0 <= k as real / n as real < 1.0 && RandomIndex(k as real / n as real, n) == k
  {
    var r := k as real / n as real;
    assert r * n as real == k as real;
  }

  /** The tests `getBestMove` applies to one candidate move. */
  datatype Criterion =
    | Completes(mark: Mark)  // placing `mark` makes `checkSmallBoardWinner` return it
    | Fork                   // placing 'O' leaves two or more lines with two 'O' and one null
    | Center                 // cell 4
    | Corner                 // cell 0, 2, 6 or 8
    | Safe                   // placing 'X' leaves no line with two 'X' and one null

  /** The number of cells of `cells` equal to `v` (the source's `filter(...).length`). */
  function Count(cells: seq<Cell>, v: Cell): (n: nat)
    ensures n <= |cells|
  {
    if cells == [] then 0 else (if cells[0] == v then 1 else 0) + Count(cells[1..], v)
  }

  /** `Count` is the number of occurrences of `v`, as `filter(val => val === v).length`. */
  lemma {:induction false} CountIsOccurrences(cells: seq<Cell>, v: Cell)
    ensures Count(cells, v) == multiset(cells)[v]
  {
    if cells != [] {
      CountIsOccurrences(cells[1..], v);
      assert cells == [cells[0]] + cells[1..];
    }
  }

  /** Every cell is null, 'X' or 'O': the three counts add up to the length. */
  lemma {:induction false} CountPartition(cells: seq<Cell>)
    ensures Count(cells, Filled(X)) + Count(cells, Filled(O)) + Count(cells, Empty) == |cells|
  {
    if cells != [] {
      CountPartition(cells[1..]);
      match cells[0]
      case Empty =>
      case Filled(m) => assert m == X || m == O;
    }
  }

  /** Pattern `l` holds two cells marked `m` and one null cell. */
  predicate TwoAndOpen(s: seq<Cell>, l: Line, m: Mark) {
    l.a < |s| && l.b < |s| && l.c < |s| &&
    var values := [s[l.a], s[l.b], s[l.c]];
    Count(values, Filled(m)) == 2 && Count(values, Empty) == 1
  }

  /** The number of patterns from `k` on that hold two `m` and one null. */
  function OpenTwos(s: seq<Cell>, m: Mark, k: nat): (n: nat)
    requires k <= |LINES|
    decreases |LINES| - k
    ensures n <= |LINES| - k
    ensures n == 0 <==> forall j :: k <= j < |LINES| ==> !TwoAndOpen(s, LINES[j], m)
    ensures n >= 2 <==> exists i, j :: k <= i < j < |LINES| && TwoAndOpen(s, LINES[i], m) && TwoAndOpen(s, LINES[j], m)
  {
    if k == |LINES| then 0
    else (if TwoAndOpen(s, LINES[k], m) then 1 else 0) + OpenTwos(s, m, k + 1)
  }

  /** The move names a cell of `board`. */
  predicate Fits(board: seq<seq<Cell>>, mv: Move) {
    mv.boardIndex < |board| && mv.cellIndex < |board[mv.boardIndex]|
  }

  predicate AllFit(board: seq<seq<Cell>>, moves: seq<Move>) {
    forall mv :: mv in moves ==> Fits(board, mv)
  }

  /** The test of criterion `k` on move `mv`, on a copy of its sub-board (`slice()`). */
  predicate Meets(board: seq<seq<Cell>>, mv: Move, k: Criterion)
    requires Fits(board, mv)
  {
    var sub := board[mv.boardIndex];
    var c := mv.cellIndex;
    match k
    case Completes(m) => SmallBoardWinner(sub[c := Filled(m)]) == Filled(m)
    case Fork => OpenTwos(sub[c := Filled(O)], O, 0) >= 2
    case Center => c == 4
    case Corner => c == 0 || c == 2 || c == 6 || c == 8
    case Safe => OpenTwos(sub[c := Filled(X)], X, 0) == 0
  }

  /** Criterion `k` as a test on moves; a move outside the board fails every test. */
  function Test(board: seq<seq<Cell>>, k: Criterion): (t: Move -> bool) {
    mv => Fits(board, mv) && Meets(board, mv, k)
  }

  /** The index of the first move of the list that meets `k`, if any. */
  function FirstMeeting(board: seq<seq<Cell>>, moves: seq<Move>, k: Criterion): (i: Option<nat>) {
    First(moves, Test(board, k))
  }

  /**
   * What `getBestMove` promises of the move `m` it returns from `moves`: it is
   * one of them; the first move winning a sub-board for 'O' if there is one;
   * else the first move blocking 'X'; else, at the top tier, the first fork;
   * else the first center move; else a corner if any; else, at the top tier,
   * a safe move if any.
   */
  ghost predicate BestMove(board: seq<seq<Cell>>, moves: seq<Move>, impossible: bool, m: Move): (r: bool)
    ensures r ==> m in moves
  {
    var win := FirstMeeting(board, moves, Completes(O));
    var block := FirstMeeting(board, moves, Completes(X));
    var fork := if impossible then FirstMeeting(board, moves, Fork) else None;
    var center := FirstMeeting(board, moves, Center);
    m in moves &&
    if win.Some? then m == moves[win.value]
    else if block.Some? then m == moves[block.value]
    else if fork.Some? then m == moves[fork.value]
    else if center.Some? then m == moves[center.value]
    else if FirstMeeting(board, moves, Corner).Some? then Test(board, Corner)(m)
    else if impossible && FirstMeeting(board, moves, Safe).Some? then Test(board, Safe)(m)
    else true
  }

  /**
   * What `calculateBotMove` promises when some move is legal: strategically
   * (always at the top tier, otherwise when the draw `roll` is below the win
   * chance) a `getBestMove` choice among the legal moves, else the legal move
   * at the random index drawn by `pick`.
   */
  ghost predicate BotChoice(p: Position, d: Difficulty, roll: real, pick: real, mv: Move): (r: bool)
    requires WellFormed(p) && 0.0 <= pick < 1.0
    ensures r ==> mv in LegalMoves(p)
  {
    var moves := LegalMoves(p);
    moves != [] &&
    if Strategic(d, roll) then BestMove(p.board, moves, d == Impossible, mv)
    else mv == moves[RandomIndex(pick, |moves|)]
  }

  /** Whatever the draws, the bot's choice is a move `makeMove` accepts. */
  lemma BotChoiceIsLegal(p: Position, d: Difficulty, roll: real, pick: real, mv: Move)
    requires WellFormed(p) && 0.0 <= pick < 1.0 && BotChoice(p, d, roll, pick, mv)
    ensures mv.boardIndex < 9 && mv.cellIndex < 9 && Legal(p, mv.boardIndex, mv.cellIndex)
  {
    LegalMovesExact(p);
    assert mv in LegalMoves(p);
  }

  /**
   * A bot that can win a sub-board does so, whatever the center, corner and
   * fork preferences say; and when it cannot, it blocks an 'X' win if it can.
   */
  lemma BestMoveTakesWin(board: seq<seq<Cell>>, moves: seq<Move>, impossible: bool, m: Move)
    requires AllFit(board, moves) && BestMove(board, moves, impossible, m)
    ensures (exists mv :: mv in moves && Meets(board, mv, Completes(O))) ==> Meets(board, m, Completes(O))
    ensures ((forall mv :: mv in moves ==> !Meets(board, mv, Completes(O))) &&
             (exists mv :: mv in moves && Meets(board, mv, Completes(X)))) ==> Meets(board, m, Completes(X))
  {
  }

  /** The loops of priorities 1 to 3 of `getBestMove`: the first element passing `p`. */
  method Scan<T>(s: seq<T>, p: T -> bool) returns (r: Option<nat>)
    ensures r == First(s, p)
  {
    var i := 0;
    while i < |s|
      invariant 0 <= i <= |s|
      invariant forall j :: 0 <= j < i ==> !p(s[j])
    {
      if p(s[i]) {
        return Some(i);
      }
      i := i + 1;
    }
    return None;
  }

  /** `filter(p)`: the elements passing `p`, the first of them first. */
  method Filter<T>(s: seq<T>, p: T -> bool) returns (sub: seq<T>)
    ensures forall x :: x in sub <==> x in s && p(x)
    ensures sub == [] <==> First(s, p).None?
    ensures sub != [] ==> sub[0] == s[First(s, p).value]
  {
    sub := [];
    var i := 0;
    while i < |s|
      invariant 0 <= i <= |s|
      invariant forall x :: x in sub <==> x in s[..i] && p(x)
      invariant sub == [] <==> forall j :: 0 <= j < i ==> !p(s[j])
      invariant sub != [] ==> sub[0] == s[First(s, p).value]
    {
      assert s[..i + 1] == s[..i] + [s[i]];
      if p(s[i]) {
        sub := sub + [s[i]];
      }
      i := i + 1;
    }
    assert s[..i] == s;
  }
}
