# Candy grid engine, modelled in Dafny

A model of the grid engine of a tile-matching game (`scripts/game_logic.py`).
The board is a grid of cells. Each cell is a pair of a candy name and a
texture; a name of `None` marks an empty slot. The engine has four grid
operations and one score keeper:

- `generate_grid` builds an empty `w × h` board.
- `fill_grid` lets the cells of every column fall into the empty slots
  below them, then drops new random cells into the slots still empty. It
  returns the log of movements and an "intermediate" grid, which is the
  input with every cell that moved blanked at its origin.
- `movements_from_grid` turns a board into one new-cell movement per slot.
- `detect_alignments` finds every window of three equal names (right, down,
  down-right, down-left), blanks those slots and counts them per name.
- `ScoreManager` keeps one score per objective and credits scores by cell
  name.

Files:

- `grid.dfy` (module `GameGrid`): cells, grids, movements, `GenerateGrid`
  and `MovementsFromGrid`.
- `columns.dfy` (module `Columns`): a closed-form description of what gravity
  does to one column. `Holes` is the number of empty slots. `Target(r)` is
  the row where the cell of row `r` settles. `SourceFor(y)` is the row that
  falls into `y`. The module also has the lemmas that follow the scan step
  by step.
- `gravity.dfy` (module `Gravity`): the imperative `FillGrid` and its loop
  steps, proved against `FillResult`, which describes every possible result
  whatever the random draws.
- `fill_properties.dfy` (module `FillProperties`): consequences of
  `FillResult`, and `Replay`. `Replay` writes each movement's cell into its
  destination, as the game loop does (`main.py:52-54`, and the finished
  animations at `main.py:120-123`).
- `alignment.dfy` (module `Alignment`): the imperative `DetectAlignments`,
  proved against `DetectResult`. That predicate is built on the reference
  definition `Aligned` ("the slot lies in some matching window").
- `alignment_properties.dfy` (module `AlignmentProperties`): what the counts
  and the new grid guarantee.
- `scoring.dfy` (module `Scoring`): the `ScoreManager` class and the
  functions that specify it.

What the code does, stated plainly where it is easy to misread:

- Only windows of exactly three slots are checked, in four directions.
  A longer run is covered by the overlapping windows of three inside it.
- Cells are compared by name only, so three empty slots (`None` names) in
  a line match each other and are blanked and counted under `None`.
- `update_score` raises `ValueError` for a name that no cell carries.
- The constructor does not check that `cells` and `objectives` have the
  same length. When a cell's index is past the end of the score list,
  crediting it raises `IndexError`.
- `fill_grid` draws new cells from whatever list it is given.

## Model

| member | source | states |
|---|---|---|
| GameGrid.GenerateGrid | scripts/game_logic.py:11-25 | the board has `h` rows of `w` slots (none for a non-positive size), and every slot is `(None, None)` |
| GameGrid.MovementsFromGrid | scripts/game_logic.py:70-81 | one movement per slot. Each has no origin, lands inside the grid and carries that slot's cell. They come bottom row first, left to right, and every slot is the destination of one of them |
| GameGrid.RowMovements | scripts/game_logic.py:78-79 | one row of the walk appends one new-cell movement per slot of the row, left to right, each carrying its slot's cell. Every slot of that row and the rows below it is then a destination |
| GameGrid.SlotsOfRect | scripts/game_logic.py:76-79 | on a rectangular board the movement count is height × width |
| FillProperties.ReplayRebuildsGrid | main.py:57-58 | landing the movements of `movements_from_grid(g)` on a blank board of the same shape rebuilds `g` exactly |
| Gravity.FillGrid | scripts/game_logic.py:28-67 | the movement log and intermediate grid satisfy `FillResult`. Each logged movement is a gravity fall or a new cell from `cells` dropped into a slot gravity leaves empty. All falls come before all new cells. Each kind is in bottom-up, left-to-right order of destinations. Every slot gravity fills from above has a fall, and every slot it leaves empty gets a new cell. The intermediate grid blanks exactly the cells that move |
| Gravity.GravityPass | scripts/game_logic.py:45-58 | after the whole gravity scan, every column is in its closed-form settled state, the intermediate grid blanks exactly the origins of falls, and every fall is logged in bottom-up, left-to-right order of destinations |
| Gravity.RefillPass | scripts/game_logic.py:60-65 | after the refill scan, every slot gravity left empty has received a cell from `cells`, logged as a new cell in bottom-up, left-to-right order |
| Gravity.GravityRow | scripts/game_logic.py:46-58 | after one row of the gravity scan, every column reflects the closed-form column state for the rows handled, and the falls into that row are logged |
| Gravity.PullDown | scripts/game_logic.py:48-58 | at an empty slot, the upward search finds exactly the row `SourceFor` names, if any. It moves that cell down, blanks its origin in both grids, and reports the matching movement |
| Gravity.RefillRow | scripts/game_logic.py:61-65 | every slot of the row that gravity left empty receives a cell drawn from `cells` and is logged as a new cell |
| Columns.SourceIsAbove | scripts/game_logic.py:49-54 | a cell pulled into row `y` comes from strictly above, is non-empty, and is the one that settles in `y` |
| Columns.SearchFinds | scripts/game_logic.py:50-58 | the first non-empty slot found searching upward from an empty row is the one gravity pulls from |
| Columns.SearchFails | scripts/game_logic.py:50-58 | when the upward search finds nothing, the row is one of the top `Holes` rows and nothing falls into it |
| Columns.TargetBounds | scripts/game_logic.py:46-58 | a non-empty cell settles at or below its own row and inside the column |
| Columns.MovesAwayIffSource | scripts/game_logic.py:51-56 | a cell leaves its slot exactly when it is the source of some fall |
| Columns.HolesAreEmpties | scripts/game_logic.py:60-65 | the number of slots gravity leaves empty in a column equals the number of empty slots it had |
| Columns.SettledEnd | scripts/game_logic.py:45-58 | after the whole scan, the column holds its empty slots on top and its non-empty cells below, in their original order |
| FillProperties.FallsGoDown | scripts/game_logic.py:46-58 | every fall keeps its column, moves strictly down, and carries the non-empty input cell of its origin |
| FillProperties.SpawnsFillTopRows | scripts/game_logic.py:60-65 | every new cell is drawn from `cells` and lands in the top rows of its column, above as many rows as the column has non-empty cells |
| FillProperties.DestinationsDistinct | scripts/game_logic.py:45-65 | every movement lands inside the grid, and no two movements land on the same slot |
| FillProperties.SpawnsPerColumn | scripts/game_logic.py:60-65 | each column receives exactly as many new cells as it had empty slots |
| FillProperties.FillFullGrid | scripts/game_logic.py:45-67 | on a board with no empty slot, nothing is logged and the intermediate grid equals the input |
| FillProperties.IntermediateBlanksOrigins | scripts/game_logic.py:38-58 | a slot of the intermediate grid is blank exactly when some logged fall leaves it; otherwise it holds the input cell |
| FillProperties.Place | main.py:54 | writing a cell into a slot sets that slot, keeps every other slot and keeps the board's shape |
| FillProperties.Replay | main.py:52-54 | replaying a log keeps the board's shape. What each slot then holds is stated by `ReplayLanded` and `ReplayUntouched` |
| FillProperties.ReplayLanded | main.py:52-54 | a slot that exactly one movement lands on ends with that movement's cell |
| FillProperties.ReplayUntouched | main.py:52-54 | a slot that no movement lands on keeps its cell |
| FillProperties.ReplayFill | scripts/game_logic.py:45-65 | after replaying the log onto the intermediate grid, the top `Holes` slots of each column hold cells from `cells`. Each slot below holds the input cell that settles there |
| FillProperties.ReplayLeavesNoHole | scripts/game_logic.py:45-65 | with a palette of named cells, the replayed board has no empty slot |
| FillProperties.ReplayKeepsColumnOrder | scripts/game_logic.py:45-65 | after the replay, each column reads top to bottom as its empty-slot count of new cells, then its non-empty input cells in their original order |
| Alignment.DetectAlignments | scripts/game_logic.py:85-136 | the counts and new grid satisfy `DetectResult`. The new grid blanks exactly the slots in some matching window and keeps every other cell. The counts give, per name, the number of blanked slots holding it |
| Alignment.CollectAligned | scripts/game_logic.py:91-117 | the scan over every anchor collects exactly the slots that lie in some matching window |
| Alignment.ScanRow | scripts/game_logic.py:95-117 | after one row of anchors, the set holds exactly the slots of the matching windows anchored in that row or in any row above it |
| Alignment.ScanAnchor | scripts/game_logic.py:97-117 | one anchor adds exactly the members of its matching windows in the four directions, under the source's bounds |
| Alignment.MarkedAllIsRemoved | scripts/game_logic.py:94-117 | the whole anchor scan collects exactly the slots that lie in some matching window |
| Alignment.BlankAligned | scripts/game_logic.py:119-126 | the new grid blanks exactly the collected slots and keeps every other cell |
| Alignment.CountByName | scripts/game_logic.py:128-134 | every name gets the number of collected slots holding it, and names with none are absent |
| AlignmentProperties.CountsSumToRemoved | scripts/game_logic.py:128-136 | the counts add up to the number of removed slots |
| AlignmentProperties.RemovedInThrees | scripts/game_logic.py:97-117 | a removed slot shares its name with at least two other removed slots |
| AlignmentProperties.CountsAtLeastThree | scripts/game_logic.py:97-134 | every name that is counted is counted at least three times |
| AlignmentProperties.EmptyCountsIffNoAlignment | scripts/game_logic.py:119-136 | the counts are empty exactly when no slot lies in a matching window, and then the returned grid equals the input |
| AlignmentProperties.DetectDeterministic | scripts/game_logic.py:85-136 | two results of the detection on the same board are identical |
| Scoring.FirstIndex | scripts/game_logic.py:171-173 | the search for a name finds the first cell carrying it, or reports that no cell carries it |
| Scoring.ScoreManager.constructor | scripts/game_logic.py:142-150 | it stores the cells and objectives and starts one zero score per objective |
| Scoring.ScoreManager.CheckCompletion | scripts/game_logic.py:152-163 | the result is true exactly when every score has reached its objective |
| Scoring.ScoreManager.UpdateScore | scripts/game_logic.py:165-177 | for a known name with a score entry, only the first matching cell's score grows by `amount`. An unknown name, or a matching cell beyond the score list, is refused and changes nothing |
| Scoring.ScoreManager.UpdateScoreFromDict | scripts/game_logic.py:179-185 | it succeeds exactly when every entry would be accepted, and then each score grows by its entries' amounts. Otherwise it stops at the first refused entry, with the entries before it credited |
| Scoring.CreditPointwise | scripts/game_logic.py:165-185 | after crediting a list of entries, each score has grown by exactly the sum of the amounts sent to it |
| Scoring.CreditKeepsCompletion | scripts/game_logic.py:152-185 | crediting non-negative amounts never undoes a completed set of objectives |

## Left out

- The renderer, animations, assets and the event loop of `main.py` are not part of this model. The game's replay of a movement log is modelled as `Replay`.
- The start-up loop that refills until the board has no alignment (`main.py:48-55`) is not modelled. It stops only with probability one, depending on random draws.
- Texture surfaces are opaque `Sprite` tokens. Only cell names take part in any comparison.
- `random.choice(cells)` is modelled as an arbitrary member of `cells`. Every property holds for every sequence of draws, and the distribution is not modelled.
- Gravity.FillGrid: requires `cells` to be non-empty unless the board has no empty slot. With an empty list and a hole, `random.choice` raises `IndexError`, and that exception path is not modelled.
- Gravity.FillGrid: requires a rectangular board, like `Alignment.DetectAlignments`. The source walks each row by its own length, and on a ragged board it can index past a shorter row. The generated boards are always rectangular.
- Alignment.DetectAlignments: requires a rectangular board, for the same reason.
- Scoring.ScoreManager.UpdateScoreFromDict: takes the dictionary's items as a sequence in iteration order. A raised exception is modelled as a returned `Outcome` that stops the walk. Scores credited before the failure stay credited, as in the source.
- `ScoreManager.update_score` raising `IndexError` is modelled as the `NoScoreEntry` outcome. This happens when the matching cell's index is past the end of the score list.
- Python integers are unbounded, so scores are `int` with no wrap-around.
