# Minesweeper rules engine (three-game.js), modelled and verified in Dafny

This project models the rules of the browser 3D Minesweeper game in
`three-game.js`: a 10 × 10 board of cells numbered 1..100, bombs placed by
rejection sampling, left clicks that reveal a cell or cost a life, right clicks
that toggle a flag, the end of the game on 20 points (a win) or no lives left
(a loss), and the high-score list kept in browser storage.

The model has five modules, one per part of the engine:

- `Board` (board.dfy): the cell record `{index, revealed, flagged}`, the
  row-major numbering `i * 10 + j + 1` and its inverse, and `CreateGameBoard`,
  the nested loops that fill an array with the fresh cell records.
- `BombPlacement` (bombs.dfy): the random bomb count and `Distinct`, the
  sequence of first appearances that the rejection loop of `generateBombs`
  builds from the candidates it draws.
- `HighScores` (highscores.dfy): the value stored under `highestScore`,
  `saveHighScore` (load or start empty, append, store) and `showHighestScore`
  (the maximum of a non-empty stored array).
- `Rules` (rules.dfy): the game state as a value (`GameState`) and the rules
  as functions over it: `Reveal` (`handleCellClick`), `UpdateScore`,
  `EndGame`, `ToggleFlag` (the flag branch of `onRightClick`), `Step` (one
  mouse event) and `Run` (a sequence of events). `Inv` is the invariant of
  every reachable state; the lemmas state what a click does, that a finished
  game is frozen, that score and lives move one way, that the score is saved
  exactly once, that a running game always has a safe hidden cell and can
  always still be won.
- `Minesweeper` (game.dfy): class `Game`, whose fields are the globals
  `score`, `lives`, `isGameOver`, `bombs`, the board's cell array, the bomb
  count, the stored high scores, and `won`, the `isVictory` argument that
  `endGame` was called with (not a global of the source, kept so that the
  outcome can be stated). Its methods update those fields in place as the
  functions do. The event handlers `OnMouseClick`, `HandleCellClick` and
  `OnRightClick` are proved to leave `State()` equal to `Rules.Step` or
  `Rules.Reveal` of the old state and to keep `Valid()`. The helpers
  `UpdateScore` and `EndGame` run in the middle of a click, where `Valid()`
  does not hold; they are proved equal to `Rules.UpdateScore` and
  `Rules.EndGame`. `SaveHighScore` is proved to change `storage` alone, as
  `HighScores.SaveHighScore` says, and `GenerateBombs` is proved equal to
  `BombPlacement.Distinct` of the candidates it draws.

Randomness is a parameter: the bomb count comes from a real `r` in [0, 1)
(the value of `Math.random()`), and `generateBombs` reads a stream `rand` of
reals in [0, 1), where `rand(t)` is the value `Math.random()` returns at the
loop's t-th attempt. The loop computes its candidate from it as the source
does, `Math.floor(rand(t) * totalCells) + 1` (`BombPlacement.Candidate`),
so the range 1..totalCells of every bomb is proved, not assumed. The loop
ends only once the candidates include `totalBombs` distinct indices; a ghost
`horizon` names an attempt by which they do, and is the termination measure. The click target of a mouse event is a given cell index (an index
outside 1..100 stands for a ray that hit no cell).

Constants as written: `maxScore = 20`, `totalCells = 100`, starting
`lives = 3`, board side 10. The bomb count `Math.floor(Math.random() * 20) + 10`
lies in 10..29 (`TotalBombsFor`, `TotalBombsAttained`); the source's comment
says 10-30, but 30 cannot occur.

The code has a single difficulty (no easy/medium/hard settings), never
rejects a bomb count, raises no error for a cell index (a click always
targets a cell the ray hit, and a ray that hits no cell does nothing), and
its handlers return nothing: their effect is the new state.

## Model

| member | source | states |
|---|---|---|
| Board.FreshCell | three-game.js:133-137 | a new cell record carries its index, is not revealed and not flagged |
| Board.CellIndex | three-game.js:134 | the index given to grid position (i, j) lies in 1..100; with CellIndexInverse, CellIndexOnto and CellIndicesDistinct it numbers the 100 positions one to one |
| Board.CellIndexInverse | three-game.js:120-137 | every grid position (i, j) gets an index in 1..100, from which row and column are recovered |
| Board.CellIndexOnto | three-game.js:120-137 | every index in 1..100 is the index of some grid position |
| Board.CellIndicesDistinct | three-game.js:120-137 | two different grid positions never share an index |
| Board.CreateGameBoard | three-game.js:120-141 | the board has 100 cells; the one in slot k has index k + 1 and starts hidden and unflagged |
| BombPlacement.TotalBombsFor | three-game.js:14 | the bomb count drawn from Math.random() lies in 10..29 |
| BombPlacement.TotalBombsAttained | three-game.js:14 | every count in 10..29 is drawn by some random value |
| BombPlacement.Distinct | three-game.js:202-208 | the bombs kept from the candidates have no repeats, are exactly the values drawn, and are no more than the draws |
| BombPlacement.DistinctStep | three-game.js:204-206 | one more draw adds the candidate when it is new and changes nothing when it is already a bomb |
| BombPlacement.DistinctCountsDrawnValues | three-game.js:204 | the loop has as many bombs as distinct values drawn, so it stops once the source has produced enough |
| BombPlacement.Candidate | three-game.js:205 | the candidate Math.floor(u * totalCells) + 1 computed from a random u in [0, 1) is a cell index in 1..totalCells |
| BombPlacement.DistinctDrawsInRange | three-game.js:205-206 | every bomb kept from the candidates is a cell index in 1..totalCells |
| Minesweeper.Game.GenerateBombs | three-game.js:202-208 | on return bombs has exactly totalBombs entries, distinct, each in 1..totalCells, the first-appearance sequence of the candidates computed from the random values, and the loop stopped at the first candidate that completed it |
| HighScores.LoadScores | three-game.js:347-357 | the stored array is used as it is; a missing, unparsable or non-array value counts as empty |
| HighScores.SaveHighScore | three-game.js:346-364 | the stored list becomes the loaded list with the score appended once at the end |
| HighScores.Max | three-game.js:372 | Math.max of a non-empty list is an element of the list that no element exceeds |
| HighScores.HighestScore | three-game.js:366-388 | a highest score is shown exactly when an array with values is stored, and it is the largest stored score |
| HighScores.HighestAfterSave | three-game.js:360-372 | after saving, the highest score shown is the larger of the new score and the previous highest |
| Rules.InitialState | three-game.js:8-14 | a new game has score 0, three lives, is not over, its 100 cells numbered 1..100, none revealed and none flagged, and keeps the given bombs and stored scores; InitialInv proves it satisfies the invariant |
| Rules.Step | three-game.js:432-478 | one mouse event: a ray that hits no cell, or any event after the game is over, changes nothing; otherwise it never lowers the score, never raises the lives and never moves a bomb (GameOverFreezes, RunMonotone and RunPreservesInv extend this to runs) |
| Rules.EndGame | three-game.js:314-344 | the game is over with the given outcome and the score is appended to the high-score list; score, lives, bombs and cells are unchanged |
| Rules.UpdateScore | three-game.js:232-239 | the score rises by one and the game ends exactly when it reaches maxScore |
| Rules.Reveal | three-game.js:241-278 | a click never lowers the score, never raises the lives, never moves a bomb, and changes nothing once the game is over |
| Rules.ToggleFlag | three-game.js:461-478 | a right click changes neither score, lives, outcome, bombs nor stored scores |
| Rules.RevealIgnored | three-game.js:242 | a click while the game is over or on a revealed or flagged cell changes nothing |
| Rules.RevealBomb | three-game.js:247-262 | a click on a bomb costs exactly one life, keeps the score and every cell (the bomb stays hidden), and ends the game as a loss exactly when no life is left |
| Rules.RevealSafe | three-game.js:263-277 | a click on a safe cell reveals that cell and no other, adds exactly one point, keeps the lives, and ends the game as a win exactly at maxScore |
| Rules.ToggleFlagEffect | three-game.js:461-478 | a right click flips the flag of a hidden cell of a running game and nothing else; otherwise it changes nothing |
| Rules.ToggleFlagTwice | three-game.js:476-478 | two right clicks on the same cell restore the state exactly |
| Rules.GameOverFreezes | three-game.js:432-478 | once the game is over every later click and right click is ignored |
| Rules.RunMonotone | three-game.js:241-278 | over any run of events the score never falls, lives never grow, bombs stay put and a finished game stays finished |
| Rules.RevealedSetAfterReveal | three-game.js:265 | revealing a hidden cell adds exactly its index to the revealed cells |
| Rules.RevealedSetAfterFlag | three-game.js:478 | setting a flag leaves the revealed cells as they were |
| Rules.InitialInv | three-game.js:8-14 | a new game with placed bombs satisfies the invariant |
| Rules.RevealPreservesInv | three-game.js:241-278 | a click keeps the invariant |
| Rules.BombHitPreservesInv | three-game.js:247-262 | a bomb hit keeps the invariant: lives stay in 0..3 and a loss saves the score |
| Rules.SafeRevealPreservesInv | three-game.js:263-277 | a safe reveal keeps the invariant: score equals the number of revealed cells, none a bomb, and a win saves the score |
| Rules.ToggleFlagPreservesInv | three-game.js:476-478 | a right click keeps the invariant |
| Rules.RunPreservesInv | three-game.js:314-344 | every run keeps the invariant, so the game ends exactly on a win or a loss, never both, and its score is saved exactly once |
| Rules.SafeCellExists | three-game.js:12-14 | while a game runs some hidden cell holds no bomb |
| Rules.WinReachable | three-game.js:232-239 | from every running game some sequence of clicks and right clicks wins it |
| Rules.RepeatedBombClicksLose | three-game.js:247-262 | a bomb cell stays clickable, so three clicks on the same unflagged bomb lose the game |
| Minesweeper.Game.constructor | three-game.js:75-79 | a new game is Rules.InitialState with a fresh board; its bomb count is the one drawn from r, its bombs are the first-appearance sequence of the candidates computed from the random values, up to the first that completed it, and it satisfies the invariant |
| Minesweeper.Game.OnMouseClick | three-game.js:432-452 | a left click updates the fields as Rules.Step with a click does and keeps the invariant |
| Minesweeper.Game.HandleCellClick | three-game.js:241-278 | updates the fields as Rules.Reveal does and keeps the invariant |
| Minesweeper.Game.UpdateScore | three-game.js:232-239 | updates the fields as Rules.UpdateScore does |
| Minesweeper.Game.EndGame | three-game.js:314-344 | updates the fields as Rules.EndGame does |
| Minesweeper.Game.SaveHighScore | three-game.js:346-364 | the stored value becomes the loaded list with the score appended |
| Minesweeper.Game.OnRightClick | three-game.js:458-502 | a right click updates the cells as Rules.Step with a right click does and keeps the invariant |

## Left out

- Three.js scene, camera, lights, textures, meshes, materials, the `animate`
  loop, explosions and the flag and bomb models (`activeFlags`, `activeBombs`,
  `explosions`, `revealAllBombs`): rendering only, no effect on the rules.
- Raycasting and mouse coordinates in `onMouseClick` and `onRightClick`:
  floating-point library code; the click target is a given cell index.
- Audio, DOM updates (`updateBombCounter`, `updateWinningScore`,
  `updateLives`, score padding, the end screen, the instructions toggle) and
  `setTimeout` delays: presentation only.
- `localStorage` and JSON themselves: the stored value is the abstract
  `StoredValue`; arrays holding non-numbers are not modelled.
- The play-again button reloads the page; a new game is a new `Game` object.
- Minesweeper.Game.GenerateBombs: requires that the random values eventually
  give totalBombs distinct candidates (they do with probability 1); the
  uniform distribution of the bombs is not modelled.
- Minesweeper.Game.constructor: requires the same of its random values, for
  the same reason; it does not model the page load that runs `init`.
- A single writer of the stored high scores is assumed: the invariant's
  claim that the storage holds what it held at the start, plus the final
  score once the game ends, fails if another browser tab writes the
  `highestScore` key during a game.
- effects.js, bomb-model.js, flag-model.js (graphics), the generate-*.js
  scripts (browser automation and file output) and sw.js (service-worker
  cache): not part of the rules.
- Numbers are unbounded integers; the source's scores stay far below the
  range where JavaScript numbers lose precision.
