# Columns: a verified model of the game engine

This project models the rules engine of a Columns-style falling-jewel puzzle (`src/columns.py`).

**The field.** The field is a grid of jewels. Each jewel has a colour: 0 means an empty cell and 1..7 are jewel colours. Each jewel also has a state: frozen, falling, landed or matched.

- Above the visible rows sit two hidden spawn rows.
- Callers address cells in visible coordinates, which reach up to row −2. Storage adds 2 to the row.

**The faller.** A faller is three jewels stacked in one column.

- The player drops the faller into a column, rotates it, and moves it sideways.
- Each tick moves it one row down.
- When it cannot move further it freezes in place.

**The search and the tick.** After the faller freezes, the search marks every jewel that lies in a run of three or more of its colour. A run can lie along a row, a column or either diagonal, and the hidden rows count. A tick with no faller on the field does three things:

1. It removes the matched jewels.
2. It lets the rest fall.
3. It searches again, which is how cascades happen.

The game is over in two cases:

- after a freeze or a tick with no faller, when no jewel is matched but a hidden cell holds a jewel;
- when a faller is dropped into a column whose visible cell in row 0 is already occupied (`drop_faller`).

**The modules.**

- `Jewels` (`jewel.dfy`): the constants and the cell value.
- `Fallers` (`faller.dfy`): the faller as a class with a sequence of jewels.
- `Grids` (`grid.dfy`): grids as values, and cell-wise writes.
- `Moves` (`moves.dfy`): the faller's moves as functions of the grid.
- `Settling` (`settling.dfy`): gravity and seeding, one column at a time, with their properties.
- `Fields` (`field.dfy`): the field as a class whose `cells` the methods reassign. It contains the source's loops for gravity, seeding, counting and writing.
- `Matching` (`matching.dfy`): what a run is, and the proof that the source's chain walk marks exactly the runs.
- `Game` (`game.dfy`): the game state as a class. It holds a field, a faller and the anchor, which is the visible position of the faller's bottom jewel while it is on the field.

**Errors.** The source raises `GameRuleError` and `GameOver` as exceptions. Here they are a `Status` result: `Ok`, `RuleError` or `GameOver`.

**Shared jewels.** In the source, a faller on the field shares its jewel objects with the three grid cells it occupies. So landing, falling, freezing and marking change both at once. The model keeps two equal copies instead: `GameState.Valid` requires the faller's jewels to equal the cells at the anchor. While the faller is on the field, every operation that changes one side writes the other. Once the faller has frozen and left the field, the model no longer links it to the grid (see "Left out").

**Where the code behaves less simply than one might expect, the model follows the code:**

- Gravity (`apply_gravity`) moves every cell that has room below it, empty or not, and leaves a fresh empty jewel behind.
  - Colour by colour, a second call changes nothing for every grid (`GravityIdempotent`).
  - The whole grid is unchanged when every empty cell is a fresh empty jewel. Elimination (`EliminateClears`) and gravity (`GravityColumnFacts`) keep that property. Seeding a field that is not empty can break it: `fill` may write colour 0 into a cell whose state is not frozen.
- Seeding (`fill`) writes colours into the cells and never their states. For each visible cell, bottom row first, it writes at the lowest cell of the empty run below that cell. This settles the colours when the visible area starts empty (`FillOnEmptySettles`).
- Along the four backward deltas of the search, the walk collects only its starting jewel, so it never marks anything. Every cell it could reach comes after the start in row-major order. The four forward deltas each collect the whole run (`WalkIsChain`).
- The search never walks from the last listed jewel of a colour. No run can start there, so nothing is lost (`LastCovered`).

## Model

| member | source | states |
|---|---|---|
| Jewels.SameColor | src/columns.py:41-42 | `==` on jewels: true exactly when the two jewels are equal once their states are ignored |
| Jewels.Matches | src/columns.py:45-47 | `matches`: true exactly when colour and state both agree; implies `==` |
| Fallers.Rotated | src/columns.py:95-100 | the rotated faller has three jewels, and jewel i is old jewel (i − 1) mod 3 |
| Fallers.RotateThrice | src/columns.py:95-100 | three rotations restore the original order |
| Fallers.RotationChangesDistinct | src/columns.py:95-100 | with three distinct colours, one rotation and two rotations both change the order |
| Fallers.RotationsPeriodic | src/columns.py:95-100 | n rotations equal n mod 3 rotations |
| Fallers.WithState | src/columns.py:107-119 | every jewel keeps its colour and takes the given state |
| Fallers.Faller.State | src/columns.py:122-123 | the top jewel's state; it describes the whole faller exactly when the other two jewels have the same state |
| Fallers.Faller.constructor | src/columns.py:78-88 | three jewels with the given colours, all falling |
| Fallers.Faller.Rotate | src/columns.py:95-100 | the jewels become the rotation of the old jewels |
| Fallers.Faller.SetStates | src/columns.py:107-119 | every jewel takes the state, colours kept; the faller's state is then that state |
| Fallers.Faller.Fall | src/columns.py:107-109 | all three jewels become falling, colours kept |
| Fallers.Faller.Land | src/columns.py:112-114 | all three jewels become landed, colours kept |
| Fallers.Faller.Freeze | src/columns.py:117-119 | all three jewels become frozen, colours kept |
| Grids.WithFaller | src/columns.py:408-414 | the three cells of the column from the given row hold the jewels; no other cell changes |
| Grids.Eliminate | src/columns.py:595-600 | every matched cell becomes a fresh empty jewel; every other cell is unchanged |
| Grids.EliminateClears | src/columns.py:595-610 | after elimination no cell is matched, so `match_exists` is false; a clean grid stays clean |
| Moves.AfterLanding | src/columns.py:361-373 | colours kept; the faller is landed exactly when there is no room and it was falling or landed, and falling exactly when there is room; any other faller is unchanged. The jewels change only when the top jewel's state changes, and then all three take the new state |
| Moves.AfterLandingIdempotent | src/columns.py:361-373 | checking the landing twice with the same room gives the same jewels as checking once, whatever the jewels' states |
| Moves.Descended | src/columns.py:320-331 | the jewels sit one row lower, the old top cell is a fresh empty jewel, and nothing outside those four cells changes |
| Moves.Shifted | src/columns.py:433-438 | the jewels sit in the target column, their old cells are fresh empty jewels, and nothing else changes |
| Moves.ShiftRoundTrip | src/columns.py:417-443 | moving over and straight back restores the grid when the target cells were fresh empty jewels |
| Settling.EmptyRunFrom | src/columns.py:150-159 | the k cells from the start are empty, and the next cell is occupied or past the bottom |
| Settling.EmptyRunSame | src/columns.py:150-159 | the room below a cell depends only on the colours from there down |
| Settling.GravityColumn | src/columns.py:232-243 | one column's gravity keeps the column's length; `GravityColumnFacts` states what it holds |
| Settling.GravityColumnFacts | src/columns.py:232-243 | one column after gravity is settled, holds the same occupied jewels in the same order, and stays clean |
| Settling.GravityColumnIdempotent | src/columns.py:232-243 | a second pass over a column changes no colour, and changes nothing on a clean column |
| Settling.Gravity | src/columns.py:232-243 | gravity on the whole grid keeps its shape; the three lemmas below state what it holds |
| Settling.GravitySettles | src/columns.py:232-243 | after gravity no occupied cell lies above an empty cell of its column |
| Settling.GravityKeepsColumns | src/columns.py:232-243 | each column keeps its occupied jewels in the same top-to-bottom order |
| Settling.GravityIdempotent | src/columns.py:232-243 | a second gravity pass changes no colour; on a clean grid it changes nothing |
| Settling.FillStep | src/columns.py:142-148 | one write of `fill` changes no state and no cell above the written row |
| Settling.FillFrom | src/columns.py:140-148 | writing visible rows from the bottom up to row i of one column changes no state and no cell above that row |
| Settling.FillGrid | src/columns.py:140-148 | seeding the whole grid keeps its shape; `FillOnlyColors` and `FillOnEmptySettles` state what it holds |
| Settling.FillOnlyColors | src/columns.py:140-148 | seeding changes no state anywhere and never touches the hidden rows |
| Settling.FillOnEmptySettles | src/columns.py:140-148 | on an empty visible area, every column ends settled and holds that column's non-zero colours from the contents, in order |
| Fields.GravityByColumns | src/columns.py:232-243 | a grid in which every column has settled completely is the gravity of the starting grid |
| Fields.FillByColumns | src/columns.py:140-148 | a grid in which every column has been seeded completely is the seeding of the starting grid |
| Fields.Field.constructor | src/columns.py:130-137 | the storage has the visible rows plus 2 hidden rows, and every cell is a fresh empty jewel |
| Fields.Field.VisibleRows | src/columns.py:166-167 | the visible rows plus the hidden rows are the stored rows |
| Fields.Field.VisibleCells | src/columns.py:191-192 | visible row i is stored row i + 2 |
| Fields.Field.IsValidSpace | src/columns.py:222-225 | a visible position is valid exactly when its storage position is in the grid |
| Fields.Field.GetCell | src/columns.py:174-175 | the cell read is the one at the storage position |
| Fields.Field.IsEmptySpace | src/columns.py:228-229 | a space is empty exactly when its cell equals an empty jewel by colour |
| Fields.Field.SetCell | src/columns.py:178-179 | only the cell at the storage position changes |
| Fields.Field.SetCells | src/columns.py:182-184 | the pairs are written in order, so a later pair wins at the same place |
| Fields.Field.WriteFaller | src/columns.py:412-414 | the bottom-first write loop leaves the faller's three cells holding its jewels and changes nothing else |
| Fields.Field.DropInto | src/columns.py:398-403 | the jewels occupy rows −2, −1 and 0 of the column, and nothing else changes |
| Fields.Field.LowerFaller | src/columns.py:321-331 | the loop leaves the faller one row lower with a fresh empty cell above it, and nothing else changes |
| Fields.Field.ShiftFaller | src/columns.py:433-438 | the loop leaves the faller in the target column with fresh empty cells behind it |
| Fields.Field.MarkCells | src/columns.py:548-550 | the listed cells become matched; colours are unchanged |
| Fields.Field.CountEmptySpacesUnderneath | src/columns.py:150-159 | the count is the number of empty cells directly below, never past an occupied cell or the bottom edge |
| Fields.Field.Fill | src/columns.py:140-148 | the nested loops compute the column-wise seeding of the contents |
| Fields.Field.ApplyGravity | src/columns.py:232-243 | the nested loops compute gravity, so every property of gravity above holds after the call |
| Matching.DeltaOfPositions | src/columns.py:555-560 | the delta is the unique step that leads from the first position to the second |
| Matching.ForwardDeltasAreAxes | src/columns.py:476-517 | of the eight deltas tried, the ones that lead to later cells are exactly the four axes |
| Matching.EqualsAll | src/columns.py:588-592 | true exactly when every value equals the given one |
| Matching.MarkRuns | src/columns.py:465-520 | the search changes no colour and only ever sets states to matched |
| Matching.MarkRunsAt | src/columns.py:465-551 | after the search a cell is matched exactly when it was matched before or lies in a run of three or more of its colour (1..7) along a row, a column or a diagonal |
| Matching.MarkRunsIdempotent | src/columns.py:465-520 | searching a second time marks nothing new |
| Matching.Walk | src/columns.py:535-546 | the walk collects only listed cells, never more than are listed; `WalkIsChain` states which |
| Matching.WalkIsChain | src/columns.py:531-546 | the walk collects exactly the run from its start along a forward delta, and nothing beyond the start along a backward one |
| Matching.CellsOfListed | src/columns.py:452-462 | the scan lists exactly the cells of the colour, in row-major order |
| Matching.ColorListTail | src/columns.py:471-478 | the slice after each listed jewel holds exactly the later cells of its colour |
| Matching.ChainInRuns | src/columns.py:548-550 | every cell of a chain long enough to be marked lies in a run |
| Matching.MarkChainsSound | src/columns.py:476-517 | the walks from one start mark only cells in runs and unmark nothing |
| Matching.MarkFromFacts | src/columns.py:476-517 | the eight walks from one jewel mark only cells in runs, unmark nothing, and mark every window of three that starts at that jewel |
| Matching.LastCovered | src/columns.py:472-473 | skipping the last listed jewel loses no window: none starts there |
| Matching.RunsCovered | src/columns.py:468-520 | once every jewel has been a start, every cell of every run is matched |
| Matching.SoundAndCompleteIsMarkRuns | src/columns.py:465-551 | a grid that marks only run cells and marks all of them is the search's result |
| Game.RoomBelow | src/columns.py:150-159 | the room below a faller is a stretch of empty cells under it, ended by an occupied cell or the bottom edge |
| Game.RoomBelowSame | src/columns.py:150-159 | the room below a faller depends only on the colours below it |
| Game.DescendRoom | src/columns.py:320-336 | a faller that moved one row down has one cell less of room |
| Game.ColumnMove | src/columns.py:417-443 | a sideways move never raises and never changes the faller's row; it ends in the old or the target column, and in the old one nothing changes |
| Game.ColumnMoveFacts | src/columns.py:417-443 | a sideways move never raises. When a target cell is outside the field or occupied, grid, faller and anchor are unchanged. Otherwise the jewels move to the target column with their colours, their old cells become fresh empty jewels, and no other cell changes. The faller's jewels change state only all three together. A falling or landed faller then lands exactly when the new column has no room below it |
| Game.FallerTick | src/columns.py:315-342 | a tick with the faller on the field never raises a usage error and never changes the faller's column; on game over the faller stays where it was |
| Game.TickDown | src/columns.py:318-336 | the tick with room below keeps the status Ok, moves the anchor one row down and keeps the jewels' colours |
| Game.TickFreeze | src/columns.py:337-342 | the tick without room never raises a usage error; the faller leaves the field exactly when the status is Ok, and stays where it was on game over |
| Game.FallerTickDescends | src/columns.py:318-336 | with room below, a tick keeps the status Ok and moves the anchor one row down. The jewels sit one row lower with their colours, the old top cell is empty, and no other cell changes. The faller's jewels change state only all three together. A falling or landed faller lands exactly when it had room for one row |
| Game.FallerTickFreezes | src/columns.py:337-358 | without room, the grid becomes the search's result `MarkRuns` on the grid with the faller frozen in place, so `MarkRunsAt` says which cells are matched. The colours are kept. The game is over exactly when nothing is matched and a hidden cell holds a jewel. Otherwise the faller leaves the field. Its jewels are then frozen or matched |
| Game.BoardTick | src/columns.py:301-311 | with no faller, the grid becomes the search's result `MarkRuns` on gravity after elimination, so `MarkRunsAt` says which cells the chain-reaction search marks. No jewel floats. It ends the game exactly when nothing is matched and a hidden cell holds a jewel |
| Game.GameState.constructor | src/columns.py:252-268 | a field of the given size, all empty, a falling faller of the given colours, and no anchor |
| Game.GameState.Create | src/columns.py:252-257 | a usage error exactly when rows < 4 or cols < 3; otherwise a valid game of that size whose every cell is a fresh empty jewel and whose faller holds the given colours, all falling, with no anchor |
| Game.GameState.MatchExists | src/columns.py:603-610 | true exactly when some cell is matched |
| Game.GameState.InvisibleRowsAreEmpty | src/columns.py:352-358 | true exactly when every hidden cell is empty |
| Game.GameState.CheckIfFallerFits | src/columns.py:345-349 | true exactly when a match is pending or the hidden rows are empty |
| Game.GameState.EliminateMatches | src/columns.py:595-600 | the field becomes its elimination |
| Game.GameState.GetAllJewelsOf | src/columns.py:452-462 | the result lists every cell of the colour in row-major order |
| Game.GameState.AlignedAlong | src/columns.py:531-546 | the walk's loop collects exactly the chain along the delta, all of it inside the grid |
| Game.GameState.GetMatchesForDelta | src/columns.py:523-551 | the chain is marked when it has three or more jewels; colours are unchanged |
| Game.GameState.MatchesFrom | src/columns.py:476-517 | the eight walks from one jewel, in the source's order; colours are unchanged |
| Game.GameState.SearchColor | src/columns.py:469-520 | after one colour's round, every listed jewel of that colour and below has been covered as a start, and only run cells are marked |
| Game.GameState.SearchForMatches | src/columns.py:465-520 | the field becomes the search's specification `MarkRuns` of the old field |
| Game.GameState.ValidateContents | src/columns.py:272-288 | accepted exactly when the contents are the visible rows by the columns, with values in 0..7 |
| Game.GameState.FillField | src/columns.py:271-294 | invalid contents give a usage error and change nothing; valid contents seed the field, after which the runs are marked; with no faller on the field, the faller's jewels are unchanged |
| Game.GameState.CheckFallerLanding | src/columns.py:361-373 | returns whether there is no room below; the faller lands or falls again accordingly, and its cells follow |
| Game.GameState.UpdateFaller | src/columns.py:380-384 | a usage error exactly when a faller is on the field; otherwise a fresh falling faller of the given colours |
| Game.GameState.PlaceNew | src/columns.py:398-405 | the faller enters the top of the column with its anchor at visible row 0, then lands or falls by the room below |
| Game.GameState.DropFaller | src/columns.py:387-405 | a usage error when a faller is active or the column is outside 1..cols. Game over, with nothing changed, when visible cell (0, col − 1) is occupied. Otherwise the faller occupies rows −2..0 of that column and lands by the room below |
| Game.GameState.RotateFaller | src/columns.py:408-414 | the faller's jewels rotate and its three cells hold them |
| Game.GameState.CanShift | src/columns.py:419-431 | true exactly when the target column exists and its three cells beside the faller are empty |
| Game.GameState.ShiftOver | src/columns.py:433-443 | the faller moves to the target column, the anchor follows, and it lands or falls by the new room |
| Game.GameState.MoveFallerColumn | src/columns.py:417-443 | grid, faller and anchor become `ColumnMove` of the old ones, so `ColumnMoveFacts` holds of the call |
| Game.GameState.FallOneRow | src/columns.py:320-336 | the tick with room below equals `FallerTick` |
| Game.GameState.FreezeInPlace | src/columns.py:338 | the faller and its cells become frozen, colours kept |
| Game.GameState.FreezeFaller | src/columns.py:337-342 | the tick without room equals `FallerTick` |
| Game.GameState.MoveFallerDown | src/columns.py:315-342 | one tick with a faller equals `FallerTick`, whose properties are the two lemmas above |
| Game.GameState.HandleTime | src/columns.py:301-311 | with a faller the tick equals `FallerTick`; without one it equals `BoardTick` and no faller appears |

## Left out

- `src/columns_game.py`, the pygame front end: window, events, images, pacing and the random choice of spawn column. It holds no game rules.
- Random faller colours (`random.random()`): the faller's three colours are a parameter of `Fallers.Faller.constructor`, `Game.GameState.constructor` and `Game.GameState.UpdateFaller`.
- Fallers.Faller.constructor: it requires exactly three colours in 1..7. The source also accepts an empty list, meaning random colours, and lists of other lengths, which no caller passes.
- Game.GameState.UpdateFaller: it requires three colours in 1..7 for the same reason.
- Game.GameState.Create: the Python `type(...)` checks in the constructor and in `fill_field` have no counterpart. Dafny's types make them hold.
- `jewel_exists` and `get_position`: they compare object identities (`id`). The model addresses cells by position.
- The stubs `trigger_match`, `get_aligned_jewels`, `is_aligned` and `get_equivalent_deltas_from`: nothing calls them, and they change nothing.
- `game_over`: it returns a flag that is never set. The end of the game is the `GameOver` status.
- The accessors `rows`, `cols`, `cells`, `field`, `current_faller` and `get_faller_position` are the fields `rows`, `cols`, `cells`, `field` and `faller` and the anchor.
- Game.GameState.RotateFaller: it requires a faller on the field. Without one the source rotates the faller and then fails on the missing position.
- Game.GameState.MoveFallerColumn: it requires a faller on the field, for the same reason, and a non-zero direction. The front end passes only −1 and 1.
- Game.GameState.PlaceNew: the source moves the faller's position along with each write of `drop_faller`'s loop. The model sets the anchor once, after the loop, to the value the loop ends with.
- The sharing of jewel objects between the faller and the grid is modelled by two equal copies, as described above.
- Dropping the same faller twice without `update_faller` in between would make the source share jewel objects between old and new cells. The model does not capture this; the front end always calls `update_faller` first.
- Game.GameState.HandleTime: once a faller has frozen and left the field, the model keeps that faller's jewels as they were when it left. In the source those jewel objects stay in the grid, so a later tick's search can mark them, and elimination and gravity can remove or move them. Only `current_faller` could show the difference, and the front end replaces the faller before each drop.
- Game.GameState.SearchForMatches: with no faller on the field, the faller's jewels are left unchanged, for the same reason.
- Game.GameState.FillField: with no faller on the field, the faller's jewels are left unchanged, where `fill` in the source can recolour the old faller's jewel objects.
- Operations after the game is over are not modelled separately. The state left by the failing operation is the model's state.
