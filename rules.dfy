// The rules of three-game.js as functions over a snapshot of the game's
// state: what handleCellClick, updateScore, endGame and the flag branch of
// onRightClick do to it. The class Minesweeper.Game runs these rules in
// place; its methods are proved to agree with the functions here, and the
// lemmas below state what the rules guarantee.

module Rules {
  import opened Board
  import opened HighScores
  import opened BombPlacement

  /** Safe reveals needed to win (the constant `maxScore`). */
  const MaxScore: int := 20

  /** Lives at the start of a game (the initial value of `lives`). */
  const StartLives: int := 3

  /** The game's mutable state: the globals score, lives, isGameOver and
      bombs, the outcome endGame was called with, the cell records in
      creation order, and the stored high-score value. */
  datatype GameState = GameState(
    score: int,
    lives: int,
    isGameOver: bool,
    won: bool,
    bombs: seq<int>,
    cells: seq<Cell>,
    storage: StoredValue)

  /** A game as init leaves it: a fresh board, the placed bombs, the stored
      high scores as found. */
  function InitialState(bombs: seq<int>, stored: StoredValue): (r: GameState)
    ensures r.score == 0 && r.lives == StartLives && !r.isGameOver
    ensures Numbered(r.cells) && RevealedSet(r.cells) == {}
    ensures forall k :: 0 <= k < |r.cells| ==> !r.cells[k].flagged
    ensures r.bombs == bombs && r.storage == stored
  {
    GameState(0, StartLives, false, false, bombs,
              seq(TotalCells, k => FreshCell(k + 1)), stored)
  }

  /** endGame: the game is over, with the given outcome, and the score is
      appended to the high-score list. */
  function EndGame(s: GameState, victory: bool): (r: GameState)
    ensures r.isGameOver && r.won == victory
    ensures r.storage == SaveHighScore(s.storage, s.score)
    ensures r.score == s.score && r.lives == s.lives
    ensures r.bombs == s.bombs && r.cells == s.cells
  {
    s.(isGameOver := true, won := victory,
       storage := SaveHighScore(s.storage, s.score))
  }

  /** updateScore: one more point; reaching MaxScore wins the game. */
  function UpdateScore(s: GameState): (r: GameState)
    ensures r.score == s.score + 1 && r.lives == s.lives
    ensures r.bombs == s.bombs && r.cells == s.cells
    ensures r.isGameOver <==> s.isGameOver || r.score >= MaxScore
  {
    var s' := s.(score := s.score + 1);
    if s'.score >= MaxScore then EndGame(s', true) else s'
  }

  /** handleCellClick on the cell with index n (slot n - 1). */
  function Reveal(s: GameState, n: int): (r: GameState)
    requires 1 <= n <= |s.cells|
    ensures r.score >= s.score && r.lives <= s.lives
    ensures r.bombs == s.bombs && |r.cells| == |s.cells|
    ensures s.isGameOver ==> r == s
  {
    var c := s.cells[n - 1];
    if s.isGameOver || c.revealed || c.flagged then s
    else if c.index in s.bombs then
      var s' := s.(lives := s.lives - 1);
      if s'.lives <= 0 then EndGame(s', false) else s'
    else
      UpdateScore(s.(cells := s.cells[n - 1 := c.(revealed := true)]))
  }

  /** The flag branch of onRightClick on the cell with index n. */
  function ToggleFlag(s: GameState, n: int): (r: GameState)
    requires 1 <= n <= |s.cells|
    ensures r.score == s.score && r.lives == s.lives
    ensures r.isGameOver == s.isGameOver && r.won == s.won
    ensures r.bombs == s.bombs && r.storage == s.storage
    ensures |r.cells| == |s.cells|
  {
    var c := s.cells[n - 1];
    if s.isGameOver || c.revealed then s
    else s.(cells := s.cells[n - 1 := c.(flagged := !c.flagged)])
  }

  /** A player event: a left click (reveal) or right click (flag) aimed at
      a cell index; an index that is not a cell stands for a ray that hit
      no cell. */
  datatype Action = Click(target: int) | RightClick(target: int)

  function Step(s: GameState, a: Action): (r: GameState)
    ensures s.isGameOver || !(1 <= a.target <= |s.cells|) ==> r == s
    ensures r.score >= s.score && r.lives <= s.lives
    ensures r.bombs == s.bombs && |r.cells| == |s.cells|
  {
    if !(1 <= a.target <= |s.cells|) then s
    else
      match a
      case Click(n) => Reveal(s, n)
      case RightClick(n) => ToggleFlag(s, n)
  }

  /** The state after a sequence of events, one handler call each. */
  function Run(s: GameState, acts: seq<Action>): GameState
    decreases |acts|
  {
    if acts == [] then s else Run(Step(s, acts[0]), acts[1..])
  }

  /** Indices 1..n. */
  function IndexRange(n: int): (r: set<int>)
    ensures forall x :: x in r <==> 1 <= x <= n
  {
    if n <= 0 then {} else IndexRange(n - 1) + {n}
  }

  /** The indices of the revealed cells (the cell with index x sits in slot
      x - 1). */
  function RevealedSet(cells: seq<Cell>): (r: set<int>)
    ensures forall x :: x in r <==> 1 <= x <= |cells| && cells[x - 1].revealed
  {
    if cells == [] then {}
    else
      var init := cells[..|cells| - 1];
      RevealedSet(init) + if cells[|cells| - 1].revealed then {|cells|} else {}
  }

  /** The board: TotalCells records, the one in slot k numbered k + 1. */
  ghost predicate Numbered(cells: seq<Cell>)
  {
    && |cells| == TotalCells
    && forall k :: 0 <= k < |cells| ==> cells[k].index == k + 1
  }

  /** The bombs: distinct cell indices, few enough to leave MaxScore safe
      cells. */
  ghost predicate BombsPlaced(bombs: seq<int>)
  {
    && NoDuplicates(bombs)
    && (forall b :: b in bombs ==> 1 <= b <= TotalCells)
    && |bombs| + MaxScore <= TotalCells
  }

  /** Only safe cells are ever revealed, and each one earned a point. */
  ghost predicate OnlySafeRevealed(cells: seq<Cell>, bombs: seq<int>, score: int)
  {
    && (forall x :: x in RevealedSet(cells) ==> x !in bombs)
    && |RevealedSet(cells)| == score
  }

  /** The game is over exactly when it is won or lost, never both, and the
      final score is saved once, when the game ends. */
  ghost predicate StatusAgrees(s: GameState, stored0: StoredValue)
  {
    && 0 <= s.score <= MaxScore
    && 0 <= s.lives <= StartLives
    && (s.isGameOver <==> s.score >= MaxScore || s.lives <= 0)
    && (s.won <==> s.score >= MaxScore)
    && !(s.score >= MaxScore && s.lives <= 0)
    && s.storage == (if s.isGameOver then SaveHighScore(stored0, s.score) else stored0)
  }

  /** What holds in every state a game reaches. stored0 is what the storage
      held when the game started. */
  ghost predicate Inv(s: GameState, stored0: StoredValue)
  {
    && Numbered(s.cells)
    && BombsPlaced(s.bombs)
    && OnlySafeRevealed(s.cells, s.bombs, s.score)
    && StatusAgrees(s, stored0)
  }

  // ---------------------------------------------------------------------
  // One click

  /** A click while the game is over, or on a revealed or flagged cell,
      changes nothing. */
  lemma RevealIgnored(s: GameState, n: int)
    requires 1 <= n <= |s.cells|
    requires s.isGameOver || s.cells[n - 1].revealed || s.cells[n - 1].flagged
    ensures Reveal(s, n) == s
  {
  }

  /** A click on a bomb costs exactly one life, scores nothing, leaves every
      cell as it was (the bomb stays hidden) and loses the game when no life
      is left. */
  lemma RevealBomb(s: GameState, n: int)
    requires 1 <= n <= |s.cells|
    requires !s.isGameOver && !s.cells[n - 1].revealed && !s.cells[n - 1].flagged
    requires s.cells[n - 1].index in s.bombs
    ensures Reveal(s, n).lives == s.lives - 1
    ensures Reveal(s, n).score == s.score
    ensures Reveal(s, n).cells == s.cells
    ensures Reveal(s, n).isGameOver <==> s.lives - 1 <= 0
    ensures Reveal(s, n).isGameOver ==>
      !Reveal(s, n).won && Reveal(s, n).storage == SaveHighScore(s.storage, s.score)
    ensures !Reveal(s, n).isGameOver ==> Reveal(s, n).storage == s.storage
  {
  }

  /** A click on a safe cell reveals that cell and no other, scores exactly
      one point, keeps the lives, and wins the game at MaxScore. */
  lemma RevealSafe(s: GameState, n: int)
    requires 1 <= n <= |s.cells|
    requires !s.isGameOver && !s.cells[n - 1].revealed && !s.cells[n - 1].flagged
    requires s.cells[n - 1].index !in s.bombs
    ensures Reveal(s, n).cells[n - 1] == s.cells[n - 1].(revealed := true)
    ensures forall k :: 0 <= k < |s.cells| && k != n - 1 ==> Reveal(s, n).cells[k] == s.cells[k]
    ensures Reveal(s, n).score == s.score + 1
    ensures Reveal(s, n).lives == s.lives
    ensures Reveal(s, n).isGameOver <==> s.score + 1 >= MaxScore
    ensures Reveal(s, n).isGameOver ==>
      Reveal(s, n).won && Reveal(s, n).storage == SaveHighScore(s.storage, s.score + 1)
  {
  }

  /** A right click flips the flag of a hidden cell while the game runs,
      and touches nothing else; otherwise it changes nothing. */
  lemma ToggleFlagEffect(s: GameState, n: int)
    requires 1 <= n <= |s.cells|
    ensures s.isGameOver || s.cells[n - 1].revealed ==> ToggleFlag(s, n) == s
    ensures !s.isGameOver && !s.cells[n - 1].revealed ==>
      ToggleFlag(s, n).cells == s.cells[n - 1 := s.cells[n - 1].(flagged := !s.cells[n - 1].flagged)]
  {
  }

  /** Two right clicks on the same cell restore the state exactly. */
  lemma ToggleFlagTwice(s: GameState, n: int)
    requires 1 <= n <= |s.cells|
    ensures ToggleFlag(ToggleFlag(s, n), n) == s
  {
  }

  // ---------------------------------------------------------------------
  // Runs of events

  lemma {:induction false} RunAppend(s: GameState, a: seq<Action>, b: seq<Action>)
    ensures Run(s, a + b) == Run(Run(s, a), b)
    decreases |a|
  {
    if a == [] {
      assert a + b == b;
    } else {
      assert (a + b)[0] == a[0] && (a + b)[1..] == a[1..] + b;
      RunAppend(Step(s, a[0]), a[1..], b);
    }
  }

  /** Once the game is over, every later click and right click is ignored. */
  lemma {:induction false} GameOverFreezes(s: GameState, acts: seq<Action>)
    requires s.isGameOver
    ensures Run(s, acts) == s
    decreases |acts|
  {
    if acts != [] {
      assert Step(s, acts[0]) == s;
      GameOverFreezes(s, acts[1..]);
    }
  }

  /** Over any run the score never falls, the lives never grow, the bombs
      stay put and a finished game stays finished. */
  lemma {:induction false} RunMonotone(s: GameState, acts: seq<Action>)
    ensures Run(s, acts).score >= s.score
    ensures Run(s, acts).lives <= s.lives
    ensures Run(s, acts).bombs == s.bombs
    ensures s.isGameOver ==> Run(s, acts).isGameOver
    decreases |acts|
  {
    if acts != [] {
      RunMonotone(Step(s, acts[0]), acts[1..]);
    }
  }

  // ---------------------------------------------------------------------
  // The invariant

  lemma RevealedSetAfterReveal(cells: seq<Cell>, n: int)
    requires 1 <= n <= |cells| && !cells[n - 1].revealed
    ensures n !in RevealedSet(cells)
    ensures RevealedSet(cells[n - 1 := cells[n - 1].(revealed := true)]) == RevealedSet(cells) + {n}
  {
  }

  lemma RevealedSetAfterFlag(cells: seq<Cell>, n: int, flagged: bool)
    requires 1 <= n <= |cells|
    ensures RevealedSet(cells[n - 1 := cells[n - 1].(flagged := flagged)]) == RevealedSet(cells)
  {
  }

  /** A new game, with bombs as generateBombs leaves them, satisfies the
      invariant. */
  lemma InitialInv(bombs: seq<int>, stored: StoredValue)
    requires NoDuplicates(bombs) && |bombs| <= 29
    requires forall b :: b in bombs ==> 1 <= b <= TotalCells
    ensures Inv(InitialState(bombs, stored), stored)
  {
  }

  lemma {:induction false} RevealPreservesInv(s: GameState, stored0: StoredValue, n: int)
    requires Inv(s, stored0) && 1 <= n <= |s.cells|
    ensures Inv(Reveal(s, n), stored0)
  {
    var c := s.cells[n - 1];
    if s.isGameOver || c.revealed || c.flagged {
    } else if c.index in s.bombs {
      BombHitPreservesInv(s, stored0, n);
    } else {
      SafeRevealPreservesInv(s, stored0, n);
    }
  }

  lemma BombHitPreservesInv(s: GameState, stored0: StoredValue, n: int)
    requires Inv(s, stored0) && 1 <= n <= |s.cells|
    requires !s.isGameOver && !s.cells[n - 1].revealed && !s.cells[n - 1].flagged
    requires s.cells[n - 1].index in s.bombs
    ensures Inv(Reveal(s, n), stored0)
  {
  }

  lemma {:induction false} SafeRevealPreservesInv(s: GameState, stored0: StoredValue, n: int)
    requires Inv(s, stored0) && 1 <= n <= |s.cells|
    requires !s.isGameOver && !s.cells[n - 1].revealed && !s.cells[n - 1].flagged
    requires s.cells[n - 1].index !in s.bombs
    ensures Inv(Reveal(s, n), stored0)
  {
    var c := s.cells[n - 1];
    var r := Reveal(s, n);
    assert r.cells == s.cells[n - 1 := c.(revealed := true)];
    NumberedAfterUpdate(s.cells, n - 1, c.(revealed := true));
    RevealedSetAfterReveal(s.cells, n);
    assert OnlySafeRevealed(r.cells, r.bombs, r.score);
  }

  lemma NumberedAfterUpdate(cells: seq<Cell>, k: int, c: Cell)
    requires Numbered(cells) && 0 <= k < |cells| && c.index == cells[k].index
    ensures Numbered(cells[k := c])
  {
  }

  lemma {:induction false} ToggleFlagPreservesInv(s: GameState, stored0: StoredValue, n: int)
    requires Inv(s, stored0) && 1 <= n <= |s.cells|
    ensures Inv(ToggleFlag(s, n), stored0)
  {
    var c := s.cells[n - 1];
    if !s.isGameOver && !c.revealed {
      RevealedSetAfterFlag(s.cells, n, !c.flagged);
    }
  }

  /** Every run of events from a reachable state keeps the invariant; in
      particular the score is saved exactly once, when the game ends. */
  lemma {:induction false} RunPreservesInv(s: GameState, stored0: StoredValue, acts: seq<Action>)
    requires Inv(s, stored0)
    ensures Inv(Run(s, acts), stored0)
    decreases |acts|
  {
    if acts != [] {
      var a := acts[0];
      if 1 <= a.target <= |s.cells| {
        match a
        case Click(n) => RevealPreservesInv(s, stored0, n);
        case RightClick(n) => ToggleFlagPreservesInv(s, stored0, n);
      }
      RunPreservesInv(Step(s, a), stored0, acts[1..]);
    }
  }

  // ---------------------------------------------------------------------
  // Progress

  lemma {:induction false} IndexRangeSize(n: nat)
    ensures |IndexRange(n)| == n
  {
    if n > 0 {
      IndexRangeSize(n - 1);
    }
  }

  lemma SubsetSize(a: set<int>, b: set<int>)
    requires a <= b
    ensures |a| <= |b|
  {
    assert b == a + (b - a);
  }

  /** While a game is running some hidden cell is safe: the bombs and the
      revealed cells together never cover the board. */
  lemma {:induction false} SafeCellExists(s: GameState, stored0: StoredValue) returns (n: int)
    requires Inv(s, stored0) && !s.isGameOver
    ensures 1 <= n <= TotalCells
    ensures !s.cells[n - 1].revealed && n !in s.bombs
  {
    var revealed := RevealedSet(s.cells);
    var bombSet := set b | b in s.bombs;
    if forall x :: 1 <= x <= TotalCells ==> s.cells[x - 1].revealed || x in s.bombs {
      assert IndexRange(TotalCells) <= revealed + bombSet;
      IndexRangeSize(TotalCells);
      SubsetSize(IndexRange(TotalCells), revealed + bombSet);
      NoDuplicatesCardinality(s.bombs);
      assert false;
    }
    n :| 1 <= n <= TotalCells && !(s.cells[n - 1].revealed || n in s.bombs);
  }

  /** From every running game some sequence of events wins it: a first
      right click takes the flag off a flagged safe cell, then the click
      reveals it, and MaxScore such reveals finish the game. */
  lemma {:induction false} WinReachable(s: GameState, stored0: StoredValue) returns (acts: seq<Action>)
    requires Inv(s, stored0) && !s.isGameOver
    ensures Run(s, acts).isGameOver && Run(s, acts).won
    decreases MaxScore - s.score
  {
    var n := SafeCellExists(s, stored0);
    var t := s;
    var first: seq<Action> := [];
    if s.cells[n - 1].flagged {
      first := [RightClick(n)];
      t := ToggleFlag(s, n);
      assert Run(s, first) == Run(t, []);
    }
    var u := Reveal(t, n);
    assert Step(t, Click(n)) == u;
    assert Run(t, [Click(n)]) == Run(u, []);
    RunAppend(s, first, [Click(n)]);
    first := first + [Click(n)];
    assert Run(s, first) == u;
    RunPreservesInv(s, stored0, first);
    assert u.score == s.score + 1;
    if u.isGameOver {
      acts := first;
    } else {
      var rest := WinReachable(u, stored0);
      RunAppend(s, first, rest);
      acts := first + rest;
    }
  }

  /** A bomb cell never becomes revealed, so it can be clicked again: with
      StartLives lives, three clicks on the same unflagged bomb always lose
      the game. */
  lemma {:induction false} RepeatedBombClicksLose(s: GameState, stored0: StoredValue, n: int)
    requires Inv(s, stored0) && !s.isGameOver
    requires 1 <= n <= TotalCells && n in s.bombs && !s.cells[n - 1].flagged
    ensures Run(s, [Click(n), Click(n), Click(n)]).isGameOver
    ensures !Run(s, [Click(n), Click(n), Click(n)]).won
  {
    var s1 := Reveal(s, n);
    var s2 := Reveal(s1, n);
    var s3 := Reveal(s2, n);
    assert Run(s, [Click(n), Click(n), Click(n)]) == Run(s1, [Click(n), Click(n)]);
    assert Run(s1, [Click(n), Click(n)]) == Run(s2, [Click(n)]);
    assert Run(s2, [Click(n)]) == Run(s3, []);
  }
}
