# Snakes and Ladders: turn resolution and board layout

A Dafny model of the two pieces of logic in a 3D Snakes and Ladders game.

- **The game-flow controller (`GameManager`).** It keeps every player's tile in an array, plus whose turn it is, whether the game has ended, and whether the roll button is interactable. One click on the roll button runs a turn in a fixed order:
  1. Move the current player's piece by the die value.
  2. If that passes tile 100, bounce back from tile 100 by the overshoot.
  3. Follow at most one snake (down) or ladder (up), taken from two constant tables.
  4. On reaching tile 100, end the game with the button off and the turn kept by the winner.
  5. Otherwise, pass the turn round-robin and turn the button back on.
- **The board builder (`BoardGenerator`).** A loop places tile `i` (1 to `boardSize`) in the array slot `i`:
  - the row is `(i - 1) / 10`;
  - the column runs left to right on even rows and right to left on odd rows, through a `leftToRight` flag that flips after every tenth tile;
  - the colour follows a checkerboard;
  - slot 0 holds the green start tile.

  The builder then draws one segment per snake and per ladder between the tiles of its two ends.

Modules:

- `Rules` (rules.dfy) holds the two tables, the bounce-back arithmetic (`MoveTarget`), the single redirect (`Redirect`) and the landing tile of a turn (`Land`).
- `Session` (session.dfy) is the turn state machine on values. `State` holds the positions, the current player, the ended flag and the button flag. `Move`, `Roll` (one call of `RollDice`), `Restart` and `Play` (a sequence of calls) are its steps. `Click` and `Clicks` are presses of the roll button, which reach `RollDice` only while the button is interactable. `Inv` is the invariant every reachable session keeps.
- `Game` (game.dfy) is the class `GameManager`. Its array and fields are updated in place. `RollDice`, `MovePlayer` and `RestartGame` are proved equal to `Session.Roll`, `Session.Move` and `Session.Restart`; `InitializeGame` and `EndGame` state their new fields directly.
- `Layout` (layout.dfy) holds the serpentine row/column formulas, the checkerboard colour and their inverse `NumberAt`.
- `Board` (board.dfy) is the class `BoardGenerator`, with the tile-array loop and the snake and ladder placement.

A few things the model keeps exactly as the code does them:

- `RestartGame` does not turn the roll button back on. `EndGame` turned it off, so a game restarted after a win keeps the button disabled (`Session.RestartInv` states this). A disabled button delivers no press, so that game is stuck: no press moves anyone (`Session.RestartAfterWinIsStuck`). The restart button in `Assets/Scripts/UIManager.cs` reloads the scene and does not call `RestartGame`.
- The die controller returns 0 when a roll is already under way, so a turn with 0 steps is possible. The model takes the die value as a parameter in 0..6. A 0 leaves every piece where it is and passes the turn (`Session.RollZeroOnlyPassesTurn`).
- Winning is checked with `>= boardSize` after the redirect, so the ladder 80 → 100 wins too (`Rules.WinningLandings`).

## Model

| member | source | states |
|---|---|---|
| `Rules.TablesDisjoint` | Assets/Scripts/GameManager.cs:29-39 | no tile is both a snake head and a ladder foot |
| `Rules.TablesDirection` | Assets/Scripts/GameManager.cs:29-39 | every snake goes down, every ladder goes up, all ends are tiles 1..100 |
| `Rules.TargetsAreNotKeys` | Assets/Scripts/GameManager.cs:29-39 | no snake tail or ladder top is itself a snake head or ladder foot, so one redirect is final |
| `Rules.MoveTarget` | Assets/Scripts/GameManager.cs:75-81 | the position before any redirect is `p + steps` when that does not pass the final tile; otherwise it lies as far short of the final tile as the sum overshoots it |
| `Rules.Redirect` | Assets/Scripts/GameManager.cs:88-104 | snake head to tail, else ladder foot to top, else the tile kept (stated by `Rules.RedirectSpec`) |
| `Rules.RedirectSpec` | Assets/Scripts/GameManager.cs:88-104 | a snake head leads to its tail, else a ladder foot to its top, else the tile is kept; the piece goes down exactly on snake heads and up exactly on ladder feet, and never ends on a head or foot |
| `Rules.Land` | Assets/Scripts/GameManager.cs:75-104 | the tile a turn ends on: the bounced move target, then one redirect (bounds in `Rules.LandInBounds`, wins in `Rules.WinningLandings`) |
| `Rules.RedirectIdempotent` | Assets/Scripts/GameManager.cs:88-104 | at most one redirect applies: redirecting the result again changes nothing |
| `Rules.LandInBounds` | Assets/Scripts/GameManager.cs:75-104 | from tiles 0..99 with a roll of 1..6 the turn ends on a tile in 1..100; a roll of 0 only applies the redirect of the current tile |
| `Rules.WinningLandings` | Assets/Scripts/GameManager.cs:75-107 | nothing lands beyond tile 100; a turn reaches 100 exactly when the move reaches tile 80 or tile 100 |
| `Rules.SnakeAt99Example` | Assets/Scripts/GameManager.cs:75-93 | tile 95 with a roll of 4 reaches 99, a snake head, and ends on 78 |
| `Rules.BounceExample` | Assets/Scripts/GameManager.cs:75-81 | tile 97 with a roll of 5 bounces back to 98 |
| `Session.StartPositions` | Assets/Scripts/GameManager.cs:48-53 | one position per player, every one 0 |
| `Session.Initial` | Assets/Scripts/GameManager.cs:41-59 | the session at scene start: all on tile 0, player 0, not ended, button on (stated by `Session.InitialInv`) |
| `Session.Move` | Assets/Scripts/GameManager.cs:73-117 | the current player's turn: move to the landing tile, then win or pass (stated by `Session.RollMovesOnlyCurrent` and `Session.RollWinOrPass`) |
| `Session.Roll` | Assets/Scripts/GameManager.cs:62-71 | one call of `RollDice`: nothing once ended, else the button off and `Session.Move` (stated by `Session.RollAfterEndIsNoOp`, `Session.RollWinOrPass`, `Session.RollKeepsInv`) |
| `Session.Restart` | Assets/Scripts/GameManager.cs:152-157 | every piece on 0, player 0, not ended, button kept (stated by `Session.RestartInv`) |
| `Session.Play` | Assets/Scripts/GameManager.cs:62-117 | a sequence of `RollDice` calls keeps the player count and leaves the turn with one of the players |
| `Session.NextPlayer` | Assets/Scripts/GameManager.cs:114 | the next player index stays in range and wraps from the last player to the first |
| `Session.InitialInv` | Assets/Scripts/GameManager.cs:46-55 | a new game has every piece on tile 0, player 0 to move, not ended, and satisfies the invariant |
| `Session.RollMovesOnlyCurrent` | Assets/Scripts/GameManager.cs:86-103 | a turn changes only the current player's tile, to the landing tile; every other tile is unchanged |
| `Session.RollWinOrPass` | Assets/Scripts/GameManager.cs:106-116 | reaching tile 100 ends the game, turns the button off and keeps the turn; any other landing passes the turn to the next player and turns the button on |
| `Session.RollZeroOnlyPassesTurn` | Assets/Scripts/GameManager.cs:73-116 | a turn with die value 0 (the die still busy) moves nobody; the new session is the old one with the turn passed and the button on |
| `Session.RollAfterEndIsNoOp` | Assets/Scripts/GameManager.cs:64 | once the game has ended a call changes nothing |
| `Session.RollKeepsInv` | Assets/Scripts/GameManager.cs:62-117 | every turn with a die value 0..6 keeps the invariant: pieces on 0..100 and never on a snake head or ladder foot, the game ended exactly when the current player is on 100, the button off once ended |
| `Session.RestartInv` | Assets/Scripts/GameManager.cs:152-157 | restart puts every piece on tile 0, gives the turn to player 0, clears the win and keeps the button as it was (off after a win) |
| `Session.PlayKeepsInv` | Assets/Scripts/GameManager.cs:62-117 | any sequence of `RollDice` calls keeps the invariant |
| `Session.PlayTurnOrder` | Assets/Scripts/GameManager.cs:114 | while nobody has won, after k `RollDice` calls the turn belongs to player `(start + k) % n`: strict round-robin, nobody skipped |
| `Session.PlayAfterEnd` | Assets/Scripts/GameManager.cs:64 | an ended game stays ended and unchanged whatever the calls |
| `Session.Click` | Assets/Scripts/GameManager.cs:57-66 | a press of the roll button calls `RollDice` only while the button is interactable, and is ignored otherwise (stated by `Session.ClicksWhileDisabled` and `Session.ClicksAreCalls`) |
| `Session.Clicks` | Assets/Scripts/GameManager.cs:57-117 | a sequence of presses keeps the player count and leaves the turn with one of the players |
| `Session.ClicksWhileDisabled` | Assets/Scripts/GameManager.cs:57-66 | while the button is off, no sequence of presses changes the session |
| `Session.RestartAfterWinIsStuck` | Assets/Scripts/GameManager.cs:144-157 | a game restarted after a win has not ended, keeps the invariant, has its button off, and no press ever changes it |
| `Session.ClicksAreCalls` | Assets/Scripts/GameManager.cs:57-117 | while the button is on or the game has ended, presses give exactly the session the same `RollDice` calls give, since every call that does not win turns the button back on |
| `Session.ClickTurnOrder` | Assets/Scripts/GameManager.cs:57-117 | from a session with the button on, if nobody has won after k presses the turn belongs to player `(start + k) % n` |
| `Session.MoveWithCount` | Assets/Scripts/GameManager.cs:73-117 | the turn as written with line 114's count read from its own field (stated by `Session.StalePlayerCountOverruns` and `Session.MoveWithCountAgrees`) |
| `Session.StalePlayerCountOverruns` | Assets/Scripts/GameManager.cs:114 | when the player count exceeds the array length, a non-winning move by the last slot's player hands the turn to index `length`, past the end of the array |
| `Session.StalePlayerCountExample` | Assets/Scripts/UIManager.cs:89-96 | two slots and a count of three: player 1 climbs from tile 1 to 38 and the turn goes to player 2, who has no slot |
| `Session.MoveWithCountAgrees` | Assets/Scripts/GameManager.cs:73-117 | with the count equal to the array length the move as written is `Session.Move`, and the next player always has a slot |
| `Game.GameManager.constructor` | Assets/Scripts/GameManager.cs:41-60 | the game starts in the initial session and satisfies the invariant |
| `Game.GameManager.InitializeGame` | Assets/Scripts/GameManager.cs:46-55 | allocates one position per player, all 0, and changes nothing else |
| `Game.GameManager.RollDice` | Assets/Scripts/GameManager.cs:62-71 | the fields after a call equal `Session.Roll` of the fields before; the invariant is kept |
| `Game.GameManager.MovePlayer` | Assets/Scripts/GameManager.cs:73-117 | the fields after the move equal `Session.Move` of the fields before, in place in the same array |
| `Game.GameManager.EndGame` | Assets/Scripts/GameManager.cs:144-150 | the game is ended, the button is off, the turn and the positions are unchanged |
| `Game.GameManager.RestartGame` | Assets/Scripts/GameManager.cs:152-157 | the fields after a restart equal `Session.Restart` of the fields before; the invariant is kept |
| `Layout.Row` | Assets/Scripts/BoardGenerator.cs:35 | the row of tile `i`, counted from the bottom (stated by `Layout.CellInRange` and `Layout.ConsecutiveAdjacent`) |
| `Layout.Col` | Assets/Scripts/BoardGenerator.cs:36-40 | the column of tile `i`, left to right on even rows and right to left on odd rows (stated by `Layout.NumberAtCell` and `Layout.ConsecutiveAdjacent`) |
| `Layout.TileAt` | Assets/Scripts/BoardGenerator.cs:35-49 | tile `i`'s cell and checkerboard colour (stated by `Layout.CellInjective`, `Layout.BoardCoversGrid`, `Layout.ConsecutiveColoursDiffer`) |
| `Layout.Shade` | Assets/Scripts/BoardGenerator.cs:49 | a tile is light exactly when row plus column is even, and dark otherwise |
| `Layout.NumberAt` | Assets/Scripts/BoardGenerator.cs:33-40 | the tile number of a cell lies within that cell's row of ten |
| `Layout.CellInRange` | Assets/Scripts/BoardGenerator.cs:33-40 | every tile's column is 0..9; on a 100-tile board its row is 0..9 |
| `Layout.NumberAtCell` | Assets/Scripts/BoardGenerator.cs:33-40 | reading back the number of a tile's cell gives the tile's number |
| `Layout.CellAtNumber` | Assets/Scripts/BoardGenerator.cs:33-40 | every cell's number is placed in that cell |
| `Layout.CellInjective` | Assets/Scripts/BoardGenerator.cs:33-42 | no two tiles share a cell |
| `Layout.BoardCoversGrid` | Assets/Scripts/BoardGenerator.cs:33-42 | the 100 tiles fill the ten-by-ten grid: every cell holds one of tiles 1..100 |
| `Layout.ConsecutiveAdjacent` | Assets/Scripts/BoardGenerator.cs:35-40 | tile `i + 1` is directly above tile `i` at a row end, and beside it in the row's direction elsewhere |
| `Layout.ConsecutiveColoursDiffer` | Assets/Scripts/BoardGenerator.cs:35-49 | consecutive tiles never share a colour |
| `Board.Segments` | Assets/Scripts/BoardGenerator.cs:102-145 | one segment per listed pair, in list order, from the tile of its first end to the tile of its second |
| `Board.EndsInRange` | Assets/Scripts/BoardGenerator.cs:90-99 | every snake and ladder end indexes a 101-slot tile array; heads are above tails and bottoms below tops |
| `Board.SnakeEndsMatchRules` | Assets/Scripts/BoardGenerator.cs:90-93 | the snakes drawn are exactly the entries of the snake table the game moves by |
| `Board.LadderEndsMatchRules` | Assets/Scripts/BoardGenerator.cs:96-99 | the ladders drawn are exactly the entries of the ladder table the game moves by |
| `Board.BoardGenerator.constructor` | Assets/Scripts/BoardGenerator.cs:20-24 | builds the board, then places the snakes and ladders between the tiles of their ends |
| `Board.BoardGenerator.GenerateBoard` | Assets/Scripts/BoardGenerator.cs:26-73 | the tile array has `boardSize + 1` slots; slot `i` holds tile `i`'s serpentine cell and checkerboard colour, and slot 0 the start tile; the loop keeps `leftToRight` true exactly on even rows |
| `Board.BoardGenerator.PlaceSnakesAndLadders` | Assets/Scripts/BoardGenerator.cs:87-146 | appends one segment per snake and per ladder, in table order, between the tiles of its two ends; the tiles are unchanged |

## Left out

- Animation and timing are not modelled. The coroutines, `AnimatePlayerMovement`, `WaitForSeconds` and the interpolated piece movement are dropped, and a turn is one atomic step. While a turn is animating, the button is off and the intermediate tile is visible; the model shows only the turn's final state.
- The die's random draw and its sprite animation are left out. The die value is a parameter in 0..6, and the `isRolling` guard of the die controller appears only as the value 0.
- Button presses are modelled on values (`Session.Click`, `Session.Clicks`). The class has no press method, because the engine, not the game code, decides whether a press reaches `RollDice`.
- UI text, the win panel, button listeners, the piece objects and the board positions they are moved to are left out. They are engine widget calls. `InitializeGame` adds its click listener again on every restart; the model does not track listeners.
- `Game.GameManager.constructor` requires at least one player and fixes `numberOfPlayers` for the object's lifetime, so the array always has one slot per player. In the source the array is sized when the scene starts, with the default count of 2, and the menu later writes 2 to 4 into the public field without re-initialising. With 3 or 4 players the turn then reaches index 2 of a two-slot array, the next turn reads past its end and stops with the roll button off (see Findings). With no players the source's first turn would index an empty array.
- `boardSize` in the game controller is fixed at its default of 100, because both tables are laid out for a 100-tile board. In the board builder it is a parameter: the tile loop works for any size of at least 0, and placement needs at least 100.
- Float world coordinates, `Instantiate`, renderers, materials, text meshes and the rotation and scale of snake and ladder objects are left out. The model keeps only each tile's integer row and column, its colour, and each segment's two end tiles.
- The camera, audio, player-piece and UI-manager scripts are engine glue and are not part of this model.

## Findings

| source | as written | input that shows it | evidently intended | confidence | as-written member | corrected member |
|---|---|---|---|---|---|---|
| Assets/Scripts/GameManager.cs:114 | the turn passes modulo `numberOfPlayers`, which `Assets/Scripts/UIManager.cs:89-96` may raise after `Start` sized `playerPositions` with the default of 2 | 3 players chosen in the menu: after player 1's move the turn goes to player 2, and line 75 reads `playerPositions[2]` of a two-slot array | one slot per player, so every turn reads a valid slot | plausible; not executed; depends on the engine running `Start` before the menu's start button | `Session.StalePlayerCountOverruns` | `Session.MoveWithCountAgrees` |
