// The running game of three-game.js: its module-level state as the fields of
// a Game object, and the event handlers as methods that update those fields
// in place. Each method is proved to do what the matching function of Rules
// (or HighScores, or BombPlacement) says; the event handlers onMouseClick,
// handleCellClick and onRightClick also keep the invariant Rules.Inv.

module Minesweeper {
  import opened Board
  import opened HighScores
  import opened BombPlacement
  import opened Rules

  class Game {
    var score: int
    var lives: int
    var isGameOver: bool
    /** The outcome endGame was called with (isVictory). */
    var won: bool
    var bombs: seq<int>
    /** What the key 'highestScore' of the browser storage holds. */
    var storage: StoredValue
    const totalBombs: int
    /** The cell records of the board, in creation order. */
    const cells: array<Cell>
    /** What the storage held when the page loaded. */
    ghost const storedAtStart: StoredValue

    /** The state as a value, for the rules to speak about. */
    function State(): GameState
      reads this, cells
    {
      GameState(score, lives, isGameOver, won, bombs, cells[..], storage)
    }

    ghost predicate Valid()
      reads this, cells
    {
      && Inv(State(), storedAtStart)
      && 10 <= totalBombs <= 29
      && |bombs| == totalBombs
    }

    /** init: draws the bomb count from r, builds the board and places the
        bombs with the random source `rand`; horizon is a point by which that
        source has produced totalBombs distinct cell indices. */
    constructor (r: real, rand: nat -> real, ghost horizon: nat, stored: StoredValue)
      requires 0.0 <= r < 1.0
      requires forall t :: 0.0 <= rand(t) < 1.0
      requires TotalBombsFor(r) <= |DrawnValues(rand, TotalCells, horizon)|
      ensures Valid() && fresh(cells)
      ensures State() == InitialState(bombs, stored)
      ensures totalBombs == TotalBombsFor(r)
      ensures exists k: nat ::
                && bombs == Distinct(Draws(rand, TotalCells, k))
                && (k > 0 ==> |Distinct(Draws(rand, TotalCells, k - 1))| < totalBombs)
      ensures storedAtStart == stored
    {
      var board := CreateGameBoard();
      totalBombs := TotalBombsFor(r);
      cells := board;
      score, lives, isGameOver, won := 0, StartLives, false, false;
      bombs := [];
      storage := stored;
      storedAtStart := stored;
      new;
      var attempts := GenerateBombs(TotalCells, totalBombs, rand, horizon);
      assert cells[..] == InitialState(bombs, stored).cells;
      InitialInv(bombs, stored);
    }

    /** generateBombs: draws candidates Math.floor(Math.random() * cellCount) + 1
        until bombCount distinct ones are collected, skipping those already
        chosen. Returns the number of candidates drawn. */
    method GenerateBombs(cellCount: nat, bombCount: nat, rand: nat -> real, ghost horizon: nat)
      returns (attempts: nat)
      requires forall t :: 0.0 <= rand(t) < 1.0
      requires bombCount <= |DrawnValues(rand, cellCount, horizon)|
      modifies this`bombs
      ensures |bombs| == bombCount && NoDuplicates(bombs)
      ensures cellCount > 0 ==> forall b :: b in bombs ==> 1 <= b <= cellCount
      ensures bombs == Distinct(Draws(rand, cellCount, attempts))
      ensures attempts > 0 ==> |Distinct(Draws(rand, cellCount, attempts - 1))| < bombCount
    {
      bombs := [];
      attempts := 0;
      while |bombs| < bombCount
        invariant attempts <= horizon
        invariant |bombs| <= bombCount
        invariant bombs == Distinct(Draws(rand, cellCount, attempts))
        invariant attempts > 0 ==> |Distinct(Draws(rand, cellCount, attempts - 1))| < bombCount
        decreases horizon - attempts
      {
        if attempts == horizon {
          DistinctCountsDrawnValues(rand, cellCount, horizon);
          assert false;
        }
        ghost var before := bombs;
        var candidate := Candidate(rand(attempts), cellCount);
        DistinctStep(rand, cellCount, attempts);
        if candidate !in bombs {
          bombs := bombs + [candidate];
        }
        attempts := attempts + 1;
        assert Distinct(Draws(rand, cellCount, attempts - 1)) == before;
      }
      if cellCount > 0 {
        DistinctDrawsInRange(rand, cellCount, attempts);
      }
    }

    /** onMouseClick: a click while the game is over, or one that hits no
        cell, does nothing; otherwise handleCellClick on the cell hit. */
    method OnMouseClick(target: int)
      requires Valid()
      modifies this, cells
      ensures Valid()
      ensures State() == Step(old(State()), Click(target))
    {
      if isGameOver {
        return;
      }
      if 1 <= target <= TotalCells {
        HandleCellClick(target);
      }
    }

    /** handleCellClick on the cell with index n. */
    method HandleCellClick(n: int)
      requires Valid() && 1 <= n <= TotalCells
      modifies this, cells
      ensures Valid()
      ensures State() == Rules.Reveal(old(State()), n)
    {
      ghost var before := State();
      var cell := cells[n - 1];
      if isGameOver || cell.revealed || cell.flagged {
        return;
      }
      if cell.index in bombs {
        lives := lives - 1;
        if lives <= 0 {
          EndGame(false);
        }
      } else {
        cells[n - 1] := cell.(revealed := true);
        UpdateScore();
      }
      RevealPreservesInv(before, storedAtStart, n);
    }

    /** updateScore: one more point; reaching MaxScore ends the game as a win. */
    method UpdateScore()
      modifies this
      ensures State() == Rules.UpdateScore(old(State()))
    {
      score := score + 1;
      if score >= MaxScore {
        EndGame(true);
      }
    }

    /** endGame: marks the game over with its outcome and saves the score. */
    method EndGame(isVictory: bool)
      modifies this
      ensures State() == Rules.EndGame(old(State()), isVictory)
    {
      isGameOver := true;
      won := isVictory;
      SaveHighScore();
    }

    /** saveHighScore: loads the stored list (empty unless it is an array),
        pushes the score and stores the list again. */
    method SaveHighScore()
      modifies this`storage
      ensures storage == HighScores.SaveHighScore(old(storage), score)
    {
      var highestScore := LoadScores(storage);
      highestScore := highestScore + [score];
      storage := ScoreList(highestScore);
    }

    /** onRightClick: unless the game is over or the ray hits no cell, flips
        the flag of the cell hit if it is not revealed. */
    method OnRightClick(target: int)
      requires Valid()
      modifies cells
      ensures Valid()
      ensures State() == Step(old(State()), RightClick(target))
    {
      if isGameOver {
        return;
      }
      if 1 <= target <= TotalCells {
        ghost var before := State();
        var cell := cells[target - 1];
        if !cell.revealed {
          cells[target - 1] := cell.(flagged := !cell.flagged);
        }
        ToggleFlagPreservesInv(before, storedAtStart, target);
      }
    }
  }
}
