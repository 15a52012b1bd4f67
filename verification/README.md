# Maze solver model

A Dafny model of the maze solver in `mazesolver.c`. The solver loads a square maze from text. The first line fixes the size N. Cell (r, c) holds character c of line r, and `*` is a wall. From cell (0, 0) the solver enumerates by backtracking every simple path that moves right, left, down or up through non-wall cells and stops at the first cell it reaches in the rightmost column. It records each path as the string of its cells' characters. Then it picks the shortest path (fewest cells) and the cheapest path (lowest sum of digit values). In both cases the first of several equal candidates wins.

Modules:

- `MazeGrid` holds the maze cells. A cell has a character and a visited flag, and the grid is a square sequence of rows. It also defines the set of all coordinates, which gives the search its termination measure.
- `MazeLoader` covers the maze size taken from the first line, building the grid from the lines, and a checked `Load`.
- `SimpleWalks` is the meaning of the search in terms of coordinates. `Walks` enumerates walks in the search's order. `ValidWalk` states declaratively which walks count.
- `PathEnumerator` models the search. `Paths` gives the path strings a call appends, as a pure function. `Search` and `SearchNeighbours` follow `generate_all_paths` call by call: they keep the visited flags in the grid and thread the growing path set through the calls.
- `PathCost` covers a path's cost.
- `PathSelectors` holds the shared running-minimum loop and the shortest and cheapest selectors.
- `Wrappers` provides a `Result` type for the error paths.

## Model

| member | source | states |
|---|---|---|
| MazeLoader.DimensionAsWritten | MazeSolver_VS_Files/CPSC259_Lab4_TakeHomeFramework/mazesolver.c:77-90 | The size as `get_maze_dimension` computes it: the first line's length less 2 when a '\r' occurs anywhere in it, less 1 otherwise. It has no ensures of its own; `DimensionAsWrittenOfTerminatedLine` pins its value on terminated lines and `DimensionAsWrittenDropsUnterminatedCell` on an unterminated one. |
| MazeLoader.DimensionAsWrittenOfTerminatedLine | MazeSolver_VS_Files/CPSC259_Lab4_TakeHomeFramework/mazesolver.c:77-90 | Suppose the first line's cells `s` hold no terminator and the line ends in "\n" or "\r\n". Then the size mazesolver.c computes (length less 2 if a '\r' occurs, less 1 otherwise) is exactly the number of cells, `|s|`. |
| MazeLoader.DimensionAsWrittenDropsUnterminatedCell | MazeSolver_VS_Files/CPSC259_Lab4_TakeHomeFramework/mazesolver.c:77-90 | A first line "7" with no newline has one cell, but mazesolver.c computes size 0. |
| MazeLoader.Dimension | MazeSolver_VS_Files/CPSC259_Lab4_TakeHomeFramework/mazesolver.c:69-70 | The corrected size is at most the line's length, and the part of the line it leaves out is "", "\n", "\r\n" or "\r". |
| MazeLoader.DimensionExcludesTerminator | MazeSolver_VS_Files/CPSC259_Lab4_TakeHomeFramework/mazesolver.c:69-70 | For cells `s` holding no '\r' or '\n', followed by no terminator, "\n", "\r\n" or "\r", the corrected size is `|s|`: the length excluding any end-of-line characters. |
| MazeLoader.DimensionOfCarriageReturns | MazeSolver_VS_Files/CPSC259_Lab4_TakeHomeFramework/mazesolver.c:81-90 | A first line "12\r" has corrected size 2, since a lone final '\r' is a terminator. On "1\r2\n" the corrected size is 3 while mazesolver.c, subtracting 2 for any '\r', gives 2. |
| MazeLoader.DimensionAgreesOnTerminatedLines | MazeSolver_VS_Files/CPSC259_Lab4_TakeHomeFramework/mazesolver.c:77-90 | On a first line whose cells hold no '\r' or '\n' and that ends in "\n" or "\r\n", mazesolver.c's size and the corrected size agree, and both equal the number of cells. |
| MazeLoader.ParseMaze | MazeSolver_VS_Files/CPSC259_Lab4_TakeHomeFramework/mazesolver.c:114-139 | Given N lines of at least N characters, the grid is N by N. Cell (r, c) holds character c of line r, no cell is visited, and row r of characters is the first N characters of line r. |
| MazeLoader.Load | MazeSolver_VS_Files/CPSC259_Lab4_TakeHomeFramework/mazesolver.c:72-139 | Loading succeeds exactly when there is a first line, its size N is positive, there are N lines and each holds at least N characters. On success every cell is (character c of line r, unvisited). |
| MazeGrid.SetVisited | MazeSolver_VS_Files/CPSC259_Lab4_TakeHomeFramework/mazesolver.c:221-226 | Marking or unmarking one cell keeps the grid square and every character unchanged. It adds that cell to, or removes it from, the set of visited cells and changes nothing else. |
| MazeGrid.SetThenClear | MazeSolver_VS_Files/CPSC259_Lab4_TakeHomeFramework/mazesolver.c:221-226 | Marking an unvisited cell and then unmarking it gives back the grid as it was. |
| PathEnumerator.BaseCaseIsBlocked | MazeSolver_VS_Files/CPSC259_Lab4_TakeHomeFramework/mazesolver.c:179-181 | The six-way base-case test of `generate_all_paths` holds exactly when the cell is off the board, a wall, or already on the current path. |
| PathEnumerator.Search | MazeSolver_VS_Files/CPSC259_Lab4_TakeHomeFramework/mazesolver.c:166-230 | Every call leaves the grid, and so every visited flag, as it found it. It only appends to the path set, and what it appends is `Paths` of the board and the current visited set. In the base case it appends nothing. On an admissible rightmost-column cell it appends exactly `path + [character]`. |
| PathEnumerator.SearchNeighbours | MazeSolver_VS_Files/CPSC259_Lab4_TakeHomeFramework/mazesolver.c:221-225 | The four recursive calls, in the order right, left, down, up, leave the marked grid unchanged. They append the four neighbours' path lists in that order. |
| PathEnumerator.Paths | MazeSolver_VS_Files/CPSC259_Lab4_TakeHomeFramework/mazesolver.c:166-230 | The path strings one call of `generate_all_paths` appends, as a pure function of the board, the cells on the current path, the position and the path so far. It has no ensures of its own; `PathsAreTraces` equates it with the traces of the enumerated walks, `SearchFindsEverySimpleWalk` characterises it from (0, 0), and `Search` is specified against it. |
| PathEnumerator.PathsAreTraces | MazeSolver_VS_Files/CPSC259_Lab4_TakeHomeFramework/mazesolver.c:179-228 | The path strings a call appends are, in order, the current path followed by the characters along each walk that `Walks` enumerates from the same cell. |
| PathEnumerator.SearchFindsEverySimpleWalk | MazeSolver_VS_Files/CPSC259_Lab4_TakeHomeFramework/mazesolver.c:166-230 | Take the top-level search from (0, 0) with nothing visited. It records one string per simple 4-connected walk from (0, 0) that avoids walls and ends at its first rightmost-column cell. Each such walk is recorded exactly once, in search order, and the string is the characters along the walk. Every recorded string has at most N*N characters, and all flags are clear afterwards. |
| PathEnumerator.OneCellExamples | MazeSolver_VS_Files/CPSC259_Lab4_TakeHomeFramework/mazesolver.c:179-216 | A 1 by 1 maze with an open cell '5' records exactly ["5"]. A 1 by 1 wall records nothing. |
| PathEnumerator.WalledFinishExample | MazeSolver_VS_Files/CPSC259_Lab4_TakeHomeFramework/mazesolver.c:179-228 | A 2 by 2 maze whose right column is all wall records no path. |
| SimpleWalks.WalksSound | MazeSolver_VS_Files/CPSC259_Lab4_TakeHomeFramework/mazesolver.c:179-225 | Every walk the search order produces from p is valid and starts at p. Valid means: on the board, through open unvisited cells, without repeats, with unit steps, and ending at its first rightmost-column cell. |
| SimpleWalks.WalksComplete | MazeSolver_VS_Files/CPSC259_Lab4_TakeHomeFramework/mazesolver.c:179-225 | Every valid walk is among the walks produced from its first cell. |
| SimpleWalks.WalksExactlyValid | MazeSolver_VS_Files/CPSC259_Lab4_TakeHomeFramework/mazesolver.c:179-225 | A walk is produced from p if and only if it is valid and starts at p. |
| SimpleWalks.WalksDistinct | MazeSolver_VS_Files/CPSC259_Lab4_TakeHomeFramework/mazesolver.c:221-226 | No walk is produced twice. Sibling branches start with different second cells. |
| SimpleWalks.ValidWalkLength | MazeSolver_VS_Files/CPSC259_Lab4_TakeHomeFramework/mazesolver.c:221-226 | A valid walk has no more cells than the N*N cells of the board, since marking keeps it from revisiting a cell. |
| SimpleWalks.ExtendWalk | MazeSolver_VS_Files/CPSC259_Lab4_TakeHomeFramework/mazesolver.c:207-225 | Putting an admissible, non-rightmost cell in front of a valid walk that starts at one of its neighbours gives a valid walk. This holds when the walk is valid with that cell marked. |
| PathCost.ComputePathCost | MazeSolver_VS_Files/CPSC259_Lab4_TakeHomeFramework/mazesolver.c:242-253 | The loop's total is the sum of each character's value less '0'. For a string of digits it lies between 0 and 9 per character. |
| PathCost.CostExamples | MazeSolver_VS_Files/CPSC259_Lab4_TakeHomeFramework/mazesolver.c:233-237 | The documented examples: "" costs 0, "2" costs 2 and "871" costs 16. |
| PathCost.CostAppend | MazeSolver_VS_Files/CPSC259_Lab4_TakeHomeFramework/mazesolver.c:247-250 | The cost of a concatenation is the sum of the costs. |
| PathCost.CostOfDigits | MazeSolver_VS_Files/CPSC259_Lab4_TakeHomeFramework/mazesolver.c:248 | A string of digits costs between 0 and 9 times its length. |
| PathSelectors.FirstMinIndex | MazeSolver_VS_Files/CPSC259_Lab4_TakeHomeFramework/mazesolver.c:273-282 | On no keys the loop leaves index 0 and the sentinel -1. Otherwise, if no key is -1, it returns a position whose key is at most every key and strictly below every earlier key, together with that key. |
| PathSelectors.FirstMinUnique | MazeSolver_VS_Files/CPSC259_Lab4_TakeHomeFramework/mazesolver.c:255-258 | Only one position can be the first least key, so "the first shortest path found" is well defined. |
| PathSelectors.ShortestPath | MazeSolver_VS_Files/CPSC259_Lab4_TakeHomeFramework/mazesolver.c:267-285 | It fails exactly when there are no paths. Otherwise it picks a path that no path is shorter than, and every earlier path is strictly longer. |
| PathSelectors.CheapestPath | MazeSolver_VS_Files/CPSC259_Lab4_TakeHomeFramework/mazesolver.c:303-322 | It fails exactly when there are no paths. Otherwise, if no path costs -1, it picks a path that no path is cheaper than, every earlier path costs strictly more, and it returns that path's cost. |
| PathSelectors.DigitPathsAvoidSentinel | MazeSolver_VS_Files/CPSC259_Lab4_TakeHomeFramework/mazesolver.c:310-319 | When every path is made of digits, no cost equals the sentinel -1, so the cheapest-path guarantee applies. |
| PathSelectors.TieBreakExample | MazeSolver_VS_Files/CPSC259_Lab4_TakeHomeFramework/mazesolver.c:273-282 | For paths "12" and "30", which tie on both length and cost, the first is the selected minimum for both keys and the second is not. |

## Left out

- `process()` is not modelled. It opens a hard-coded file, prints the report and carries on with a NULL maze when the file cannot be opened. All of that is I/O.
- File mechanics are not modelled: `fgets`, the `fseek` rewind and truncation to the `BUFFER` size. The input is the sequence of lines as the line reader returns them, each with its terminator if it has one. `mazesolver.h` is not part of this model; the visited flag is a `bool`.
- Heap management is not modelled (`calloc`, `realloc`, `free`, `strcpy`). Paths are immutable strings, and the path count is the length of the path sequence.
- The report text built with `sprintf` and `strcat` is not modelled. The selectors return the selected index (and cost) instead of writing the report.
- Load: returns `MalformedInput` unless there is a first line, its size N is positive, there are exactly N lines, and each line holds at least N characters, counting its terminator. mazesolver.c has undefined behaviour only for some of these: no first line, or more lines than the size. The others are defined in C and the model rejects them by design. With fewer lines than the size, the unfilled rows keep zeroed cells whose character is '\0'. With a line shorter than the size, its cells are its terminator, the '\0' that `fgets` writes, and characters left in the buffer from earlier lines. With a size of 0 (first line "\n"), nothing is allocated and the search returns at once. As in mazesolver.c, a terminator character among the first N characters of a line becomes an open cell: `Load(["12\n", "3\n"])` succeeds with cell (1, 1) holding '\n'. Load uses the corrected `Dimension` (see Findings).
- Dimension: keeps as a cell a '\r' that is not part of the line's final "\r\n" or a final lone '\r'. mazesolver.c subtracts 2 for any '\r' anywhere in the line, so on "1\r2\n" it gives 2 where `Dimension` gives 3. Only an end-of-line '\r' is treated as a terminator.
- ShortestPath, CheapestPath: on an empty path set they return `NoPathsFound`, where mazesolver.c reads `pathset[0]`.
- FirstMinIndex: says nothing about keys that contain the sentinel -1. In that case mazesolver.c takes the next entry as the minimum without moving the index.
- CheapestPath: carries its guarantee only when no path costs exactly -1, which is the case for paths of digits. A path costing -1 needs a character other than a digit.
- ComputePathCost: does not stop at an embedded NUL, since strings here have no terminator. It does not model C `int` overflow or the signedness of `char`: costs are unbounded integers of Unicode code points less '0'.
- Search: leaves no flag changed on any call, including the base case and the goal case. The in-place `maze` of mazesolver.c is modelled by returning the grid, so "unchanged" is the stated equality `res.0 == g`.

## Findings

| source | as written | input that shows it | evidently intended | confidence | as-written member | corrected member |
|---|---|---|---|---|---|---|
| MazeSolver_VS_Files/CPSC259_Lab4_TakeHomeFramework/mazesolver.c:77-90 | The size is the first line's length less 1 when the line holds no '\r', whether or not the line ends in '\n' | a maze file holding the single line "7" with no trailing newline: one cell, but size 0 | the first line's length excluding any end-of-line characters, as the function's own comment says | medium, not executed | MazeLoader.DimensionAsWrittenDropsUnterminatedCell | MazeLoader.DimensionExcludesTerminator |
