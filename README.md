# Minesweeper, Snake and the stopwatch, modelled in Dafny

This project models the game logic of three Swing programs and proves what they promise.

- **Minesweeper with a leaderboard** (`MinesweeperWithLeaderboard.java`):
  - The tile grid of one game: mines, revealed marks, flags and neighbour numbers.
  - The deferred placement of the mines around the first click, the neighbour count, the
    stack-driven flood fill, and the reveal state machine with its Lost and Won endings.
  - Flag toggling, the remaining-mines value and the custom-size dialog's validation.
  - The top-5 leaderboard per difficulty: the qualification test, name normalisation, the
    insert / stable sort / truncate step, and the `difficulty;player;seconds` line format
    read and written by `loadLeaderboard` / `saveLeaderboard`.
- **Snake** (`SnakeGameEnhanced.java`): the `GamePanel` state.
  - The parallel `snakeX` / `snakeY` arrays shifted in place and the wrap-around rule.
  - The direction rule that forbids reversing.
  - Growth, score, the speed schedule, obstacles and food placement.
  - Collision detection and the high score kept across games.
- **Stopwatch** (`SystemClock.java`, `StopwatchWindow` only): the millisecond counter
  advanced by a 10 ms timer, the Start / Stop / Reset buttons, and the
  `HH:MM:SS.mmm` label computed with Java's integer `/` and `%`.

Layout, one module per file:

- `grid.dfy` (`Grid`): cell sets of the board (rows, rectangles, the clipped 3x3 window) and
  their sizes.
- `java_lang.dfy` (`JavaLang`): the Java library behaviour the programs rely on.
  - Integer arithmetic: 32-bit `int` wrap-around, and `/` and `%` truncating toward zero.
  - Strings: `String.trim`, `Integer.parseInt` / `String.valueOf`, and `split(";", 3)`.
  - Lines: `BufferedReader.readLine` line cutting, and writing lines with `newLine()`.
- `minesweeper_config.dfy` (`MinesweeperConfig`): the difficulty presets, the custom-size
  check and `getSelectedDifficultyName`.
- `minesweeper_board.dfy` (`MinesweeperBoard`): class `Game` holds the tile grid (one
  `array2` per `Tile` field) and the frame's counters. Class `Board` holds the difficulty
  and the current game. `GameState` with `GameInv` is the game-level value that the
  methods are proved against.
- `minesweeper_leaderboard.dfy` (`MinesweeperLeaderboard`): the pure leaderboard and line
  format, and class `Leaderboard` with the load loop, the save loops and `handleWin`.
- `snake.dfy` (`Snake`): the pure rules, the `Panel` value with its invariant, and class
  `GamePanel` holding the arrays and fields that the methods update in place.
- `stopwatch.dfy` (`Stopwatch`): the field arithmetic, `String.format("%02d…")`, the label
  round trip, and class `StopwatchWindow`.

The snake keeps a quirk of the source. `moveSnake` shifts the body at the old length, and `checkFoodCollision` then raises the length (SnakeGameEnhanced.java:241-245, 263). So the new tail slot keeps whatever value the array held before, and the collision check of that tick reads it as a segment. In the first game that slot holds (0, 0). Food drawn at (0, 0) is allowed, since it is off the five segments, but eating it ends the game on the phantom segment. `Snake.GamePanel` models this as written, and `Snake.StaleTailCollides` states it. `Snake.GrowthKeepsTail` states what a shift that takes the growth into account would give instead.

Every class method states its new state as a function of its old state (`Model() ==
Transition(old(Model()), …)`). The lemmas beside the transition functions prove that the
invariant is kept and what each transition means.

## Model

| member | source | states |
|---|---|---|
| Grid.InWindow | MinesweeperWithLeaderboard.java:198 | a cell is in the clipped 3x3 window exactly when it lies on the grid within one row and one column of the centre |
| Grid.WindowCardinality | MinesweeperWithLeaderboard.java:198 | the clipped window holds exactly `WindowSize` cells, the product of its clipped row and column spans |
| Grid.WindowSizeBound | MinesweeperWithLeaderboard.java:198 | on the grid, a window never holds more than min(3, rows) * min(3, cols) cells |
| Grid.WindowInGrid | MinesweeperWithLeaderboard.java:212-214 | every cell of the clipped window lies on the grid |
| Grid.RectSize | MinesweeperWithLeaderboard.java:168-172 | a rectangle of cells has (rows of it) * (columns of it) cells |
| JavaLang.Wrap | SystemClock.java:290 | the result is a Java int congruent to the input modulo 2^32, and equals it when it is already in range |
| JavaLang.DivTruncates | SystemClock.java:311-313 | `Div`, Java's `/` by a positive divisor, truncates toward zero: for a non-negative dividend the quotient is the largest multiple of the divisor at or below it, for a negative one the smallest at or above it |
| JavaLang.Rem | SystemClock.java:310-312 | Java's `%`: `Div`'s quotient times divisor plus remainder gives the dividend back, and the remainder takes the dividend's sign, with magnitude below the divisor |
| JavaLang.Trim | MinesweeperWithLeaderboard.java:444 | the result is the input with its leading and trailing characters `<= ' '` removed; it neither starts nor ends with such a character |
| JavaLang.TrimUnchanged | MinesweeperWithLeaderboard.java:330 | trimming a string with no space at either end leaves it unchanged |
| JavaLang.NatToString | SnakeGameEnhanced.java:401 | decimal digits with no leading zero |
| JavaLang.NatToStringValue | SnakeGameEnhanced.java:401 | the digits written for n denote n |
| JavaLang.IntToString | SnakeGameEnhanced.java:401 | `String.valueOf(int)`: non-empty, with a leading minus sign exactly for negative values |
| JavaLang.ParseInt | MinesweeperWithLeaderboard.java:452 | `Integer.parseInt`: whatever it accepts is a Java int, written on a non-empty string that starts with a minus sign when the value is negative |
| JavaLang.ParseIntToString | SnakeGameEnhanced.java:399-403 | parsing what `String.valueOf` wrote gives back every int |
| JavaLang.ParsedHasNoSpace | MinesweeperWithLeaderboard.java:452 | a string `parseInt` accepts holds no blank, so trimming cannot change it |
| JavaLang.ParsedChars | MinesweeperWithLeaderboard.java:452 | `parseInt` refuses a string holding any char other than a digit or a sign |
| JavaLang.IndexOf | MinesweeperWithLeaderboard.java:447 | the first position of the separator, or the length when it is absent |
| JavaLang.Split3 | MinesweeperWithLeaderboard.java:447 | `split(sep, 3)`: one to three parts; only the last may hold the separator, and only when there are three |
| JavaLang.Split3Join | MinesweeperWithLeaderboard.java:447-450 | splitting `a;b;c` when a and b hold no `;` gives back exactly `[a, b, c]` |
| JavaLang.LineEnd | MinesweeperWithLeaderboard.java:443 | the end of the current line: the first `\n` or `\r`, or the end of the text |
| JavaLang.ReadLines | MinesweeperWithLeaderboard.java:441-443 | `readLine` cuts the text into lines, none of which holds a line break |
| JavaLang.WriteLines | MinesweeperWithLeaderboard.java:471-472 | the text holds at least one separator per line; ReadWrittenLines reads it back |
| JavaLang.ReadWrittenLines | MinesweeperWithLeaderboard.java:466-473 | reading back lines written with `\n` or `\r\n`, none holding a line break, gives the same lines |
| JavaLang.ReadLineThenRest | MinesweeperWithLeaderboard.java:443 | a line followed by the separator is read as that line, then the rest of the text |
| MinesweeperConfig.SelectedDifficultyName | MinesweeperWithLeaderboard.java:423-427 | the combo box choice when there is a non-empty one, "Custom" otherwise; never empty |
| MinesweeperConfig.CustomSizeAsWritten | MinesweeperWithLeaderboard.java:133-150 | the dialog as written: Cancel gives the cancelled outcome; after OK, "Enter integer values" exactly when a trimmed field does not parse; an accepted size is positive, parsed from the trimmed fields, named "Custom", with fewer mines than the 32-bit product rows * cols; once all three fields parse, the size is accepted exactly when rows, cols and mines are positive and mines is below that product |
| MinesweeperConfig.CustomSize | MinesweeperWithLeaderboard.java:133-150 | the corrected dialog: the same cancel and not-an-integer outcomes; an accepted size is positive and parsed from the trimmed fields; once all three fields parse, the size is accepted exactly when rows, cols and mines are positive and mines <= rows * cols - min(3, rows) * min(3, cols) (that this fits the mines is CustomSizeAcceptsPlaceable) |
| MinesweeperConfig.FullestWindow | MinesweeperWithLeaderboard.java:198 | on a non-empty grid the clipped window around (min(1, rows - 1), min(1, cols - 1)) holds min(3, rows) * min(3, cols) tiles |
| MinesweeperConfig.PlaceableIff | MinesweeperWithLeaderboard.java:190-201 | placeMines ends for every first click exactly when mines <= rows * cols - min(3, rows) * min(3, cols) |
| MinesweeperConfig.CustomSizeAcceptsPlaceable | MinesweeperWithLeaderboard.java:139 | every size the corrected check accepts has room for its mines around any first click; integer fields are rejected only for a non-positive or unplaceable size |
| MinesweeperConfig.CustomSizeAsWrittenAcceptsUnplaceable | MinesweeperWithLeaderboard.java:139 | the check as written accepts a 3x3 board with 1 mine, whose centre click leaves no tile for the mine; the corrected check rejects it |
| MinesweeperConfig.PresetsPlaceable | MinesweeperWithLeaderboard.java:25-27 | Beginner, Intermediate and Expert always have room for their mines |
| MinesweeperBoard.CountStep | MinesweeperWithLeaderboard.java:215 | scanning one more square adds one exactly when it holds a mine |
| MinesweeperBoard.ScanCoversWindow | MinesweeperWithLeaderboard.java:212-215 | the squares of the 3x3 scan that lie on the grid hold exactly the mines of the clipped window, the tile itself included |
| MinesweeperBoard.FreeTileExists | MinesweeperWithLeaderboard.java:193-201 | while fewer mines than the bound are placed, a mine-free tile outside the click's window exists, so every round of the loop can place one |
| MinesweeperBoard.NoMineAround | MinesweeperWithLeaderboard.java:203-207 | a tile with no mine in its window is numbered 0, so the first-clicked tile gets 0 |
| MinesweeperBoard.ZeroMeansNoMineAround | MinesweeperWithLeaderboard.java:271-277 | a neighbour of a 0-tile holds no mine |
| MinesweeperBoard.FloodStart | MinesweeperWithLeaderboard.java:261-262 | the flood invariant holds with only the clicked tile on the stack |
| MinesweeperBoard.FloodSkip | MinesweeperWithLeaderboard.java:267 | popping a revealed or flagged tile keeps the invariant |
| MinesweeperBoard.FloodOpen | MinesweeperWithLeaderboard.java:268-278 | opening the popped tile and pushing its hidden, mine-free neighbours when it is a 0-tile keeps the invariant |
| MinesweeperBoard.FloodOpenCover | MinesweeperWithLeaderboard.java:268-278 | after that step the revealed tiles still contain the clicked tile, every new tile is mine-free and unflagged, and every neighbour of an opened 0-tile is revealed, flagged, mined or still on the stack |
| MinesweeperBoard.FloodOpenTrail | MinesweeperWithLeaderboard.java:271-278 | every tile opened after the first was pushed by an earlier opened 0-tile next to it |
| MinesweeperBoard.FloodDone | MinesweeperWithLeaderboard.java:263-281 | once the stack is empty the revealed set satisfies `FloodResult`: the clicked tile is revealed unless flagged; no mine or flagged tile is newly revealed; every neighbour of a newly revealed 0-tile is revealed or flagged; and each newly revealed tile after the first lies next to an earlier newly revealed 0-tile |
| MinesweeperBoard.SafeCountGrows | MinesweeperWithLeaderboard.java:246-247 | revealing only safe tiles adds their number to the count of revealed safe tiles |
| MinesweeperBoard.AllSafeShown | MinesweeperWithLeaderboard.java:249 | the revealed safe tiles number total minus mines exactly when every safe tile is revealed |
| MinesweeperBoard.AllSafeCounted | MinesweeperWithLeaderboard.java:249 | on a rows x cols grid, revealedCount == rows * cols - totalMines exactly when every tile is a mine or revealed |
| MinesweeperBoard.NewGameInv | MinesweeperWithLeaderboard.java:158-162 | `NewGame` (no mine, nothing shown or flagged, first click pending) satisfies `GameInv`: running exactly while Playing, flagsPlaced counts the flags, revealedCount counts the shown safe tiles, exactly totalMines mines once placed, a running game shows no mine and no flag, a won game shows every tile and a lost one every mine |
| MinesweeperBoard.PlacedInv | MinesweeperWithLeaderboard.java:226-231 | `Placed` (totalMines mines at the first click, firstClick over) keeps `GameInv` |
| MinesweeperBoard.OpenedInv | MinesweeperWithLeaderboard.java:245-249 | `Opened` (a flood of safe, unflagged tiles, revealedCount grown by the tiles newly shown) keeps `GameInv`; the new count reaches rows * cols - totalMines exactly when every safe tile is revealed |
| MinesweeperBoard.EndedInv | MinesweeperWithLeaderboard.java:233-254 | `Ended` (stopped with the status, every mine shown) keeps `GameInv` for a loss, and for a win once every safe tile is revealed |
| MinesweeperBoard.FlaggedInv | MinesweeperWithLeaderboard.java:295-303 | `Flagged` (the flag of a hidden tile flipped, flagsPlaced following it) keeps flagsPlaced equal to the number of flags |
| MinesweeperBoard.Game.constructor | MinesweeperWithLeaderboard.java:168-175 | a fresh rows x cols grid with no mine, no revealed tile and no flag; the first click is still to come |
| MinesweeperBoard.Game.CountNeighborMines | MinesweeperWithLeaderboard.java:210-218 | the count is `MinesAround`: the number of mines in the clipped 3x3 window `Grid.Window`, the tile itself included |
| MinesweeperBoard.Game.PlaceMines | MinesweeperWithLeaderboard.java:190-208 | exactly totalMines mines are placed, none next to or on the safe tile; every tile gets its correct number, the safe tile 0; nothing else changes |
| MinesweeperBoard.Game.DrawMines | MinesweeperWithLeaderboard.java:192-201 | the rejection loop places exactly totalMines mines outside the safe tile's window |
| MinesweeperBoard.Game.ComputeNumbers | MinesweeperWithLeaderboard.java:203-207 | every tile's number is its window's mine count |
| MinesweeperBoard.Game.NumberRow | MinesweeperWithLeaderboard.java:204-206 | one row gets its counts; the other rows keep theirs |
| MinesweeperBoard.Game.NeighboursToPush | MinesweeperWithLeaderboard.java:273-278 | the pushed tiles are exactly the grid tiles next to (r, c) that are neither revealed nor mined |
| MinesweeperBoard.Game.FloodReveal | MinesweeperWithLeaderboard.java:259-282 | the result is the number of tiles newly revealed, and the revealed set is the flood's result; mines, flags and numbers are untouched |
| MinesweeperBoard.Game.Flood | MinesweeperWithLeaderboard.java:261-280 | the stack loop ends with the revealed marks on the flood's result, one count per tile opened |
| MinesweeperBoard.Game.FloodStep | MinesweeperWithLeaderboard.java:264-279 | one pop keeps the invariant, and either reveals a tile or shrinks the stack |
| MinesweeperBoard.Game.FloodOpenStep | MinesweeperWithLeaderboard.java:268-279 | opening a hidden, unflagged tile keeps the invariant and reveals one more tile |
| MinesweeperBoard.Game.OpenTile | MinesweeperWithLeaderboard.java:268-278 | the tile is marked revealed, and only a 0-tile pushes its hidden, mine-free neighbours |
| MinesweeperBoard.Game.RevealHit | MinesweeperWithLeaderboard.java:235-237 | the hit tile and then every mine are revealed; nothing else changes |
| MinesweeperBoard.Game.RevealAllMines | MinesweeperWithLeaderboard.java:284-292 | every mine becomes revealed, other tiles and all flags keep their marks |
| MinesweeperBoard.Game.RevealMinesInRow | MinesweeperWithLeaderboard.java:285-291 | one row's mines become revealed; every other mark is kept |
| MinesweeperBoard.Game.RemainingMines | MinesweeperWithLeaderboard.java:220-222 | the label's value is totalMines minus the number of flagged tiles, negative once there are more flags than mines |
| MinesweeperBoard.Game.RevealTile | MinesweeperWithLeaderboard.java:224-256 | ignored when not running or on a revealed or flagged tile; the first click is never a mine and has none next to it; a mine ends the game Lost with every mine shown; a safe tile floods, and the game is Won with every mine shown exactly when the last safe tile is revealed |
| MinesweeperBoard.Game.Click | MinesweeperWithLeaderboard.java:233-255 | on placed mines: Lost with every mine shown on a mine, otherwise `Flooded`: the flood, then Won with every mine shown when it covers the last safe tile |
| MinesweeperBoard.Game.Safe | MinesweeperWithLeaderboard.java:245-255 | the flood, then Won with the mines shown exactly when every safe tile is revealed |
| MinesweeperBoard.Game.FirstClick | MinesweeperWithLeaderboard.java:226-231 | totalMines mines are placed away from the clicked tile and firstClick is over |
| MinesweeperBoard.Game.Lose | MinesweeperWithLeaderboard.java:233-242 | the game stops as Lost with every mine revealed; flags and revealedCount stay |
| MinesweeperBoard.Game.Open | MinesweeperWithLeaderboard.java:245-247 | revealedCount grows by the tiles the flood newly revealed; it reaches rows * cols - totalMines exactly when every safe tile is revealed |
| MinesweeperBoard.Game.AddRevealed | MinesweeperWithLeaderboard.java:247 | revealedCount grows by n; nothing else changes |
| MinesweeperBoard.Game.Win | MinesweeperWithLeaderboard.java:249-253 | the game stops as Won with every mine revealed |
| MinesweeperBoard.Game.SetFlag | MinesweeperWithLeaderboard.java:297-302 | the tile's flag is set to the given value; no other mark changes |
| MinesweeperBoard.Game.ToggleFlag | MinesweeperWithLeaderboard.java:295-306 | ignored when not running or on a revealed tile; otherwise the tile's flag flips and flagsPlaced moves by one with it |
| MinesweeperBoard.Board.constructor | MinesweeperWithLeaderboard.java:105-107 | the window starts a new game of the given difficulty |
| MinesweeperBoard.Board.StartNewGame | MinesweeperWithLeaderboard.java:153-175 | a fresh grid of the difficulty's size: first click pending, running, Playing, no flag, nothing revealed |
| MinesweeperLeaderboard.InsertAt | MinesweeperWithLeaderboard.java:334-336 | the new entry goes after every entry with the same or fewer seconds and before every slower one, which is where a stable sort puts an appended entry |
| MinesweeperLeaderboard.SplitInsertSorted | MinesweeperWithLeaderboard.java:336 | inserting there keeps the list sorted by seconds |
| MinesweeperLeaderboard.SortIsSorted | MinesweeperWithLeaderboard.java:336 | `SortBySeconds` (an insertion sort, one `InsertBySeconds` step per entry, standing for `List.sort`): its result is in ascending order of seconds |
| MinesweeperLeaderboard.InsertPermutes | MinesweeperWithLeaderboard.java:334-336 | inserting adds exactly the new entry |
| MinesweeperLeaderboard.SortPermutes | MinesweeperWithLeaderboard.java:336 | the sort is a permutation of its input |
| MinesweeperLeaderboard.InsertKeepsTimes | MinesweeperWithLeaderboard.java:334-336 | among entries with equal seconds, the inserted one comes last |
| MinesweeperLeaderboard.SortIsStable | MinesweeperWithLeaderboard.java:336 | entries with equal seconds keep their relative order, as `List.sort` guarantees |
| MinesweeperLeaderboard.SortedUnchanged | MinesweeperWithLeaderboard.java:319 | sorting a sorted list changes nothing |
| MinesweeperLeaderboard.Top | MinesweeperWithLeaderboard.java:337-339 | the first five entries, or all of them when there are fewer |
| MinesweeperLeaderboard.RecordInserts | MinesweeperWithLeaderboard.java:334-339 | recording inserts the entry after the entries no slower than it and keeps the first five |
| MinesweeperLeaderboard.RecordWellFormed | MinesweeperWithLeaderboard.java:334-339 | after recording, a list is sorted and holds one to five entries |
| MinesweeperLeaderboard.QualifiesIffRecorded | MinesweeperWithLeaderboard.java:315-322 | `Qualifies` (fewer than five entries, or strictly faster than the slowest) holds exactly when `Record` (append, stable sort, keep five) changes the list, and then the entry is on it |
| MinesweeperLeaderboard.NormalizeName | MinesweeperWithLeaderboard.java:329-332 | a cancelled or blank name becomes "Anonymous"; otherwise the name is trimmed and cut to 20 characters |
| MinesweeperLeaderboard.CleanNameKept | MinesweeperWithLeaderboard.java:329-332 | a name of at most 20 characters with no blank at either end is kept as typed |
| MinesweeperLeaderboard.ParseLine | MinesweeperWithLeaderboard.java:443-454 | blank lines are skipped; a kept row has no `;` in its difficulty or name, and an int as its seconds |
| MinesweeperLeaderboard.ParseFormatted | MinesweeperWithLeaderboard.java:443-473 | a line written by `FormatLine` (`difficulty;player;seconds`) parses back to the same difficulty and entry |
| MinesweeperLeaderboard.FormattedIsTrimmed | MinesweeperWithLeaderboard.java:444 | trimming a written line changes nothing |
| MinesweeperLeaderboard.FormattedNoLineBreak | MinesweeperWithLeaderboard.java:471 | a written line holds no line break when its fields hold none |
| MinesweeperLeaderboard.SeparatorInNameLost | MinesweeperWithLeaderboard.java:447-450 | a line written for a name holding `;` is skipped when read back: its tail after the second `;` is not an int |
| MinesweeperLeaderboard.FormatRowsAppend | MinesweeperWithLeaderboard.java:468-473 | the lines written for two runs of rows are the lines of the first followed by those of the second |
| MinesweeperLeaderboard.ReadStep | MinesweeperWithLeaderboard.java:443-454 | reading one more line adds its row, if it parses, to the end of its difficulty's list |
| MinesweeperLeaderboard.LoadedWellFormed | MinesweeperWithLeaderboard.java:438-464 | after loading (`Loaded`: the parsed rows appended per difficulty, then `Finish` sorts and cuts each list), every list is sorted by seconds and holds one to five entries |
| MinesweeperLeaderboard.AddRowsAppend | MinesweeperWithLeaderboard.java:443-455 | adding two runs of rows is adding the first, then the second |
| MinesweeperLeaderboard.AddTagged | MinesweeperWithLeaderboard.java:454 | adding the rows of one new difficulty gives it exactly its entries |
| MinesweeperLeaderboard.AddSavedRows | MinesweeperWithLeaderboard.java:454 | adding the saved rows of every difficulty rebuilds each difficulty's list |
| MinesweeperLeaderboard.WellFormedUpdate | MinesweeperWithLeaderboard.java:334-339 | replacing one list with a sorted list of one to five entries keeps the board well formed |
| MinesweeperLeaderboard.RowsStorable | MinesweeperWithLeaderboard.java:468-471 | every saved row has fields that survive the format |
| MinesweeperLeaderboard.FormattedRows | MinesweeperWithLeaderboard.java:471 | every written line parses back to its row and holds no line break |
| MinesweeperLeaderboard.ParsedRowsOf | MinesweeperWithLeaderboard.java:443-455 | lines that each parse give back their rows in order |
| MinesweeperLeaderboard.SavedRowsRead | MinesweeperWithLeaderboard.java:441-473 | reading the saved text gives back the saved rows in order |
| MinesweeperLeaderboard.SaveThenLoad | MinesweeperWithLeaderboard.java:438-478 | loading (`Loaded`) the text `Serialize` saved restores every list, in any map order, when the board is well formed (every list sorted by seconds, one to five entries), no difficulty starts with a char up to U+0020 (trimming would drop it), names and difficulties hold no `;` or line break, and the seconds are ints |
| MinesweeperLeaderboard.FinishKeepsWellFormed | MinesweeperWithLeaderboard.java:456-460 | sorting and trimming lists that are already sorted and short changes nothing |
| MinesweeperLeaderboard.Leaderboard.constructor | MinesweeperWithLeaderboard.java:103 | the window starts with the leaderboard loaded from the file |
| MinesweeperLeaderboard.Leaderboard.Load | MinesweeperWithLeaderboard.java:438-464 | the read loop leaves exactly the lists the line format defines, each sorted, at most five |
| MinesweeperLeaderboard.Leaderboard.Save | MinesweeperWithLeaderboard.java:466-478 | the text written is one `difficulty;player;seconds` line per entry, difficulty by difficulty in map order |
| MinesweeperLeaderboard.Leaderboard.WriteList | MinesweeperWithLeaderboard.java:470-473 | the lines of one difficulty's entries, in list order |
| MinesweeperLeaderboard.Leaderboard.HandleWin | MinesweeperWithLeaderboard.java:309-345 | the time is recorded exactly when it qualifies, under the normalised name, and the leaderboard is then saved: the text returned is `Serialize` of the new lists in the map's order; otherwise the leaderboard is unchanged and nothing is saved |
| Snake.Heading | SnakeGameEnhanced.java:134-138 | each arrow key names a unit axis direction |
| Snake.Steer | SnakeGameEnhanced.java:134-138 | the direction stays a unit vector and never reverses; it changes only to an arrow's heading across the current axis, and always does so for such an arrow |
| Snake.TwoKeysReverse | SnakeGameEnhanced.java:134-138 | two keys within one tick can still reverse the snake: UP then LEFT turns (1, 0) into (-1, 0) |
| Snake.SteerFromMoved | SnakeGameEnhanced.java:134-138 | the intended rule: an arrow is taken only across the axis the snake last moved along; the direction stays a unit vector |
| Snake.SteerFromMovedNeverReverses | SnakeGameEnhanced.java:134-138 | under the intended rule no run of keys between two ticks turns the snake onto the reverse of its last move |
| Snake.TwoKeysTurnOnly | SnakeGameEnhanced.java:134-138 | under the intended rule UP then LEFT after moving right leaves the snake heading up |
| Snake.WrapCoord | SnakeGameEnhanced.java:250-255 | a coordinate one step off the grid comes back on the other side; one on the grid stays |
| Snake.NextHead | SnakeGameEnhanced.java:246-255 | the head moves by the direction; with wrap-around on it stays on the grid, taken modulo the grid size |
| Snake.Shift | SnakeGameEnhanced.java:242-245 | slot 0 gets the new head, slots 1..len-1 the previous slot's value, and later slots keep theirs |
| Snake.ShiftCovers | SnakeGameEnhanced.java:294-299 | after a move, the body covers a cell exactly when it is the new head or was covered by all but the old tail |
| Snake.MovedBodyMisses | SnakeGameEnhanced.java:262-264 | a cell off the old body and off the new head is off the moved body |
| Snake.StaleTailCollides | SnakeGameEnhanced.java:241-245 | the array slot past the tail is read as a segment after growth; a head on its stale value collides with it |
| Snake.GrowthKeepsTail | SnakeGameEnhanced.java:241-245 | when the growth is taken into the shift, the new tail slot holds the old tail, and a self-collision happens only on the old body |
| Snake.BodyCellsSize | SnakeGameEnhanced.java:197-199 | n segments cover at most n cells |
| Snake.FreeCell | SnakeGameEnhanced.java:190-201 | with fewer obstacles plus segments than cells, a free cell for the food exists |
| Snake.OutsideStartSize | SnakeGameEnhanced.java:182 | 375 grid cells lie outside the 5x5 start area |
| Snake.FreeOutsideStart | SnakeGameEnhanced.java:176-188 | with fewer than 375 obstacles a free cell outside the start area exists |
| Snake.SpeedUp | SnakeGameEnhanced.java:222-225 | the delay drops by 8 but never below 45, and never grows |
| Snake.Delay | SnakeGameEnhanced.java:207-214 | after any number of foods the delay lies between 45 and 140 |
| Snake.DelayStep | SnakeGameEnhanced.java:212-213 | a food speeds up the game exactly when the food count becomes a multiple of 3 |
| Snake.DelayNeverIncreases | SnakeGameEnhanced.java:222-225 | within one game the delay never increases |
| Snake.HighScoreAfter | SnakeGameEnhanced.java:308-310 | the high score becomes the score exactly when the score beats it |
| Snake.LoadedHighScore | SnakeGameEnhanced.java:386-397 | a missing or blank file, or text parseInt rejects, gives 0; the value is always an int |
| Snake.HighScoreRoundTrip | SnakeGameEnhanced.java:399-403 | loading what saveHighScore wrote gives back the high score |
| Snake.Initial | SnakeGameEnhanced.java:67-92 | the panel before the first game satisfies the invariant and is not running |
| Snake.RestartedInv | SnakeGameEnhanced.java:143-166 | `Restarted` (startGame with its draws) gives length 5, body (10 - i, 10), direction (1, 0), score 0, delay 140; the game is running and unpaused with no collision, and the high score and wrap mode are kept |
| Snake.PressedInv | SnakeGameEnhanced.java:115-139 | `Pressed` (the keys other than a starting SPACE: ignored after game over, P pauses a running game, W flips wrap-around, arrows steer) keeps `Inv`: unit direction, score, length and delay following the foods eaten, obstacles on the grid, food on a free cell, and a running head clear of every collision |
| Snake.TickDrawsMade | SnakeGameEnhanced.java:261-264 | the food drawn after growth and the obstacle added are on free cells |
| Snake.CheckedInv | SnakeGameEnhanced.java:270-300 | after `Checked` (checkCollision: game over and high score updated on a `Collision`) the game runs only when the head has not collided |
| Snake.TickedInv | SnakeGameEnhanced.java:203-220 | `Ticked` (`Moved`, then `Fed`, then `Scored` on a food, then `Checked`) keeps `Inv`: score 10 per food, length min(400, 5 + foods), the delay schedule, the food on a free cell |
| Snake.TickOutcome | SnakeGameEnhanced.java:203-220 | after a tick of a running game: game over exactly on a `Collision` (off the grid, on an obstacle, on a segment 1..len-1); with wrap-around the head is on the grid; the delay stays in 45..old; the high score changes only to a better final score |
| Snake.GamePanel.constructor | SnakeGameEnhanced.java:95-103 | the panel starts not running, with the high score loaded from the file |
| Snake.GamePanel.SetObstacle | SnakeGameEnhanced.java:184 | exactly one more cell holds an obstacle |
| Snake.GamePanel.ClearObstacles | SnakeGameEnhanced.java:145 | no cell holds an obstacle |
| Snake.GamePanel.PlaceInitialObstacles | SnakeGameEnhanced.java:176-188 | exactly count new obstacles, each on the grid and outside the start area |
| Snake.GamePanel.ResetObstacles | SnakeGameEnhanced.java:145-146 | exactly four obstacles, none in the start area |
| Snake.GamePanel.PlaceFood | SnakeGameEnhanced.java:190-201 | the food lies on the grid, off every obstacle and off every segment |
| Snake.GamePanel.Occupies | SnakeGameEnhanced.java:294-299 | true exactly when a segment from the given index on lies on the cell |
| Snake.GamePanel.ResetCounters | SnakeGameEnhanced.java:148-163 | length 5, direction (1, 0), score 0, no food eaten, delay 140, running, unpaused, not over |
| Snake.GamePanel.LayOutSnake | SnakeGameEnhanced.java:149-154 | slots 0..4 hold (10 - i, 10); later slots keep their values |
| Snake.GamePanel.StartFood | SnakeGameEnhanced.java:156 | the first food lies on the grid, off the obstacles and the body |
| Snake.GamePanel.StartGame | SnakeGameEnhanced.java:143-166 | the panel becomes the restarted game with the obstacles and food it drew, which lie where startGame allows them |
| Snake.GamePanel.TogglePause | SnakeGameEnhanced.java:168-174 | the pause flips only while the game runs |
| Snake.GamePanel.ShiftBody | SnakeGameEnhanced.java:242-245 | the arrays become the shift of the body by one slot |
| Snake.GamePanel.SetHead | SnakeGameEnhanced.java:257-258 | slot 0 takes the new head; nothing else changes |
| Snake.GamePanel.MoveSnake | SnakeGameEnhanced.java:241-259 | the panel becomes the moved panel: body shifted, head at the next head |
| Snake.GamePanel.CheckFoodCollision | SnakeGameEnhanced.java:261-268 | true exactly when the head is on the food; the snake then grows by one up to 400 and new food lies on a free cell |
| Snake.GamePanel.IncreaseSpeed | SnakeGameEnhanced.java:222-225 | the delay becomes max(45, delay - 8) |
| Snake.GamePanel.AddRandomObstacle | SnakeGameEnhanced.java:227-239 | at most one obstacle is added, on the grid and never on an obstacle, the snake or the food |
| Snake.GamePanel.Eat | SnakeGameEnhanced.java:207-217 | 10 points and one more food; a speed-up on every third food and an obstacle attempt on every fourth |
| Snake.GamePanel.DoGameOver | SnakeGameEnhanced.java:302-316 | the game is over and not running, and the high score is updated only by a better score; the text `saveHighScore` writes, `String.valueOf` of the new high score, is returned exactly when the high score went up (HighScoreRoundTrip reads it back) |
| Snake.GamePanel.CheckCollision | SnakeGameEnhanced.java:270-300 | the game ends exactly when the head is off the grid, on an obstacle or on a segment 1..len-1; the saved high-score text is returned exactly when the high score went up |
| Snake.GamePanel.Tick | SnakeGameEnhanced.java:203-220 | nothing happens unless the game runs unpaused; otherwise move, eat, check collision, keeping the invariant; the saved high-score text is returned exactly when the high score went up |
| Snake.GamePanel.KeyPressed | SnakeGameEnhanced.java:108-139 | SPACE starts a game that is not running; after a game over other keys are ignored; P pauses, W toggles wrap-around, arrows steer without reversing |
| Stopwatch.FieldsCompose | SystemClock.java:309-313 | `Fields` splits a non-negative time: millis in 0..999, seconds and minutes in 0..59, hours = t / 3600000, and the fields add back up to the time |
| Stopwatch.FieldsNegative | SystemClock.java:310-313 | once the int has wrapped to a negative time, every field is the negation of the positive time's field |
| Stopwatch.PadDigits | SystemClock.java:315-316 | `Pad`, standing for `%02d` / `%03d`, of a field that fits gives exactly 2 or 3 digits denoting it |
| Stopwatch.ParseFormatted | SystemClock.java:315-316 | a reading with fields in range formats to twelve characters that read back as its time |
| Stopwatch.DisplayRoundTrip | SystemClock.java:309-317 | below 100 hours the label `Display` computes is twelve characters and reads back as the elapsed time |
| Stopwatch.DisplayInjective | SystemClock.java:309-317 | below 100 hours two different times never show the same label |
| Stopwatch.InitialLabel | SystemClock.java:255 | the label for 0 ms is "00:00:00.000", the text the window starts with |
| Stopwatch.StopwatchWindow.constructor | SystemClock.java:247-283 | elapsed time 0, the initial label, Start enabled, Stop disabled, no timer running |
| Stopwatch.StopwatchWindow.Start | SystemClock.java:285-294 | Start is disabled, Stop enabled, and the timer runs |
| Stopwatch.StopwatchWindow.Stop | SystemClock.java:296-302 | Start is enabled, Stop disabled, and no timer runs; the time and label stay |
| Stopwatch.StopwatchWindow.Reset | SystemClock.java:304-307 | the time is 0 and the label "00:00:00.000"; a running timer keeps running |
| Stopwatch.StopwatchWindow.Tick | SystemClock.java:289-292 | the time grows by 10 ms in int arithmetic and the label shows it |
| Stopwatch.StopwatchWindow.UpdateDisplay | SystemClock.java:309-317 | the label is the display of the elapsed time |
| Stopwatch.Elapsed | SystemClock.java:289-292 | n timer firings from zero show 10 * n ms while that fits an int |

## Left out

- Swing presentation is not modelled: buttons and their colours, labels, `paintComponent`, dialogs, beeps, `pack` / `setSize`, and the 200 ms status poller.
- The Swing timers are not modelled. Each firing of a timer is a call of the method modelling its action: `GamePanel.Tick` for the snake, `StopwatchWindow.Tick` for the stopwatch.
- `java.util.Random` is not modelled. Every draw is an arbitrary choice among the cells the loop accepts. A rejected draw changes nothing, so each accepting round of `placeMines`, `placeInitialObstacles` and `placeFood` is one choice.
- File I/O is not modelled: readers, writers and the swallowed `IOException`s. A file's contents are an optional string (absent when the file does not exist), and what is written is a returned string: `Leaderboard.Save` and `Leaderboard.HandleWin` return the leaderboard text, and `GamePanel.DoGameOver`, `CheckCollision` and `Tick` return the high-score text `saveHighScore` writes.
- Minesweeper's `elapsedSeconds` is not modelled. The per-second timer is left out, and the time is an input of `Leaderboard.HandleWin`.
- The dialog answers are inputs: the custom-size fields, the name typed at a win, and the combo box selection.
- The map order of `HashMap` in `saveLeaderboard` is a parameter: any sequence holding each key once.
- The leaderboard dialog (`showLeaderboardDialog`) and the window's `toString` of entries are not modelled.
- `Leaderboard.HandleWin` is a separate call from `Game.Win`. The win ends the game; recording it on the leaderboard is then a call with the difficulty name and the time, which returns the text `saveLeaderboard` writes.
- MinesweeperBoard.Game.RevealTile: a first click that is heeded (running, on a hidden, unflagged tile) requires room for all mines outside the clicked tile's window; a click the method ignores needs nothing. Without that room the source's placement loop never returns.
- MinesweeperBoard.Game.FirstClick: same requirement as RevealTile, for the same reason.
- Snake.GamePanel.Tick: requires that obstacles plus segments leave at least two free cells while playing. This is stronger than strictly needed, since the food draw after growth loops forever only when no cell is free.
- Snake.GamePanel.StartGame: the counters are reset before the food is drawn, not after. `placeFood` reads only `snakeLength`, which startGame has already set to 5, so the resulting state is the same.
- Snake.GamePanel.CheckCollision: the wall test is written once. The source repeats the same test in both branches of the wrap-around `if`.
- Stopwatch.StopwatchWindow.Start: requires the Start button to be enabled, as the window only lets it be clicked then. The timer the source would orphan on a second Start is not modelled.
- Stopwatch.StopwatchWindow.Tick: requires the timer to be running, since only a running timer fires.
- JavaLang.ParseInt: accepts ASCII digits only. `Integer.parseInt` also accepts the other Unicode decimal digits (Arabic-Indic, fullwidth and so on), so a custom-size field (MinesweeperWithLeaderboard.java:136-138), a leaderboard line's seconds (MinesweeperWithLeaderboard.java:452) or the snake high-score file (SnakeGameEnhanced.java:390) written with such digits is read as a number by the program and rejected by the model.
- MinesweeperLeaderboard.NormalizeName: the 20-character cut counts Unicode scalar values, the chars of a Dafny string. Java's `length` and `substring` count UTF-16 code units, so a name with characters outside the Basic Multilingual Plane is cut shorter by the program, which can even split a surrogate pair; the model has no UTF-16 encoding.
- Stopwatch.Display: always writes ASCII digits. `String.format` uses the default locale, whose digits may differ (Arabic-Indic, for example); the model fixes a locale with ASCII digits.
- The snake score and the Minesweeper counters do not wrap around 32 bits in the model. The snake's score is bounded by the 400 cells, and the Minesweeper counters by the grid size.

## Findings

| source | as written | input that shows it | evidently intended | confidence | as-written member | corrected member |
|---|---|---|---|---|---|---|
| MinesweeperWithLeaderboard.java:139 | the custom-size check accepts any `nm < nr*nc`, but `placeMines` keeps the clipped 3x3 window of the first click free, so it needs `nm <= nr*nc - size(window)` | rows 3, cols 3, mines 1 is accepted; a first click on the centre tile excludes all nine tiles and the placement loop never ends | accept only sizes whose mines fit outside the fullest window: `nm <= nr*nc - min(3,nr)*min(3,nc)` | high, not executed | MinesweeperConfig.CustomSizeAsWrittenAcceptsUnplaceable | MinesweeperConfig.CustomSizeAcceptsPlaceable |
| SnakeGameEnhanced.java:241-245 | `moveSnake` shifts the body at the old length and `checkFoodCollision` then grows it, so the new tail slot (grown at line 263) keeps a stale array value that the collision check reads as a segment | first game, food drawn at (0, 0) (off the five segments, so `placeFood` allows it); the tick that eats it ends the game on the phantom segment at (0, 0) | the grown tail repeats the old tail, and eating never collides except on the old body | high, not executed | Snake.StaleTailCollides | Snake.GrowthKeepsTail |
| SnakeGameEnhanced.java:134-138 | the reversal test compares with the direction last set, not the one last moved in | moving right, UP then LEFT pressed before the next tick: the direction becomes (-1, 0) and the head runs into segment 2 | an arrow is taken only across the axis of the last move, so no key sequence reverses the snake | high, not executed | Snake.TwoKeysReverse | Snake.SteerFromMovedNeverReverses |

The custom-size check of the model is the corrected one. For the two snake rows, `Snake.GamePanel` keeps the behaviour as written, so the class does what the program does; the corrected members state the intended behaviour beside it.
